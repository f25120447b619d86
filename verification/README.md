# RFM preprocessing of the Olist e-commerce tables

This project models `run_preprocessing` from `preprocessing/automate_preprocessing.py`, which turns the raw Olist tables into a per-customer Recency / Frequency / Monetary (RFM) feature table for customer-lifetime-value modelling. The pipeline does the following, in order:

- It inner-merges orders with their line items and the ordering customer.
- It attaches each order's summed payment.
- It keeps only orders whose status is `delivered`.
- It fixes a snapshot date one day after the latest purchase.
- It groups by `customer_unique_id`. Each group gets:
  - recency: whole days from its latest purchase to the snapshot;
  - frequency: the number of distinct order ids;
  - monetary: the sum of the payment column over the group's rows.
- Finally, it drops customers whose monetary value lies above the 95th percentile of that column.

The model is organised in five modules:

- `Olist` holds the four input record types. Timestamps are integer seconds and money is an exact `real`.
- `Lexicographic` defines code-point string order and the ascending, duplicate-free key list that a pandas `groupby` emits.
- `Frame` provides the dataframe operations the pipeline uses, each as a pure function over sequences:
  - boolean-mask selection;
  - column projection;
  - inner merge on a string key;
  - group-by-sum;
  - distinct count.
- `Percentile` implements `Series.quantile` with the default linear interpolation.
- `Preprocessing` is the pipeline itself. `Preprocessing.RunPreprocessing` is the whole transformation, from the four tables to the filtered RFM table.

Two behaviours of the code are worth stating up front:

- **Monetary counts an order's payment once per line item.** Line 29 sums the installments of each order. Line 30 merges that order total onto every row of the order-item merge of line 26, so each line item carries the full order total. Line 44 then sums `payment_value` over those rows. An order with k line items therefore adds k times its payment total to its customer's monetary value. The model reproduces this:
  - `Preprocessing.DeliveredMonetaryCountsLineItems` states it with k equal to the number of the order's rows in the item table;
  - `Preprocessing.TwoLineItemsCountTwice` gives a concrete case.
- **No delivered rows gives an empty table.** If no delivered row remains, the code computes its snapshot from an empty column (NaT). It then groups nothing and filters an empty table. The model returns the empty table directly: `RunPreprocessing` yields `[]` exactly when there are no delivered joined rows.

Other modelling choices:

- `RfmRow.customerId` holds the `customer_unique_id`, because line 48 renames the group key to `customer_id`. The field order is that of line 48.
- The rows of an inner merge come out left-major, as a nested loop over the left rows, with one row per matching (left, right) pair: for each left row in turn, its matching right rows in their order. Some lemmas (`Preprocessing.DeliveredJoinedIsJoinedDelivered`, `Preprocessing.JoinedOfOrder`) are sequence equalities over this order. The final table does not depend on it: the grouping sorts its keys, and max, distinct count and sum ignore row order.
- The line-item form of the monetary property assumes that the order's id occurs once in the order table and its customer id once in the customer table, as the Olist keys do. With duplicated keys the merges multiply rows further. `Preprocessing.DeliveredMonetaryCountsJoinedRows` covers any input in terms of the joined rows themselves.
- `(snapshot - x.max()).days` is floor division of a second count by 86400. For a positive divisor, Dafny's `/` computes exactly that.

## Model

| member | source | states |
|---|---|---|
| Frame.InnerJoin | preprocessing/automate_preprocessing.py:26 | every merged row pairs a left and a right row with equal keys, every such pair appears in the result, and the result has as many rows as there are matching (left, right) pairs |
| Frame.MatchesOfIsSelection | preprocessing/automate_preprocessing.py:26 | the merge rows of one left row are exactly the right rows carrying its key, in their order, each paired with it once |
| Frame.InnerJoinOfOne | preprocessing/automate_preprocessing.py:26 | merging a single left row yields exactly its matching right rows, in their order, each paired with it once |
| Frame.InnerJoinConcat | preprocessing/automate_preprocessing.py:26 | merging a concatenated left table concatenates the merges of its parts, so each left row contributes exactly its own matches, left rows in order |
| Preprocessing.JoinedRowMembership | preprocessing/automate_preprocessing.py:26-30 | a row is in the three-way merge iff its order, item and customer come from the inputs, the item and customer keys match the order, the order has a payment, and the row carries that order's payment total |
| Frame.GroupSum | preprocessing/automate_preprocessing.py:29 | group-by-sum yields one entry per distinct key, with keys ascending and exactly the input's keys, each holding the sum of that key's values |
| Frame.GroupSumConservesTotal | preprocessing/automate_preprocessing.py:29 | grouping neither loses nor invents money: the grouped values add up to the total of the input |
| Preprocessing.OrderPayments | preprocessing/automate_preprocessing.py:29 | the per-order payment table has one row per order id that has payments, ascending, holding the sum of that order's installments |
| Frame.Where | preprocessing/automate_preprocessing.py:35 | mask selection keeps exactly the rows that satisfy the predicate and never lengthens the table |
| Preprocessing.DeliveredRows | preprocessing/automate_preprocessing.py:35 | a row survives the status filter iff it was in the input and its order status is "delivered" |
| Preprocessing.DeliveredJoinedIsJoinedDelivered | preprocessing/automate_preprocessing.py:26-35 | filtering the merged table on status gives the same table as merging only the delivered orders |
| Preprocessing.NonDeliveredOrdersContributeNothing | preprocessing/automate_preprocessing.py:26-52 | removing every non-delivered order from the input leaves the final table unchanged |
| Preprocessing.LatestPurchase | preprocessing/automate_preprocessing.py:39 | the latest purchase time is attained by some row and is at least every row's purchase time |
| Preprocessing.SnapshotDate | preprocessing/automate_preprocessing.py:39 | the snapshot is exactly one day after some purchase and at least one day after every purchase |
| Lexicographic.SortedUnique | preprocessing/automate_preprocessing.py:41 | the group keys are strictly ascending in code-point order and are exactly the values that occur |
| Preprocessing.CustomerRows | preprocessing/automate_preprocessing.py:41 | a customer's group holds exactly the rows whose unique id is that customer's |
| Preprocessing.CustomerRfm | preprocessing/automate_preprocessing.py:41-45 | a customer's RFM row carries that customer's unique id and a frequency of at least 1; its three values are characterised by `RecencyIsWholeDays`, `FrequencyCountsDistinctOrders` and `MonetarySumsCustomerRows` |
| Preprocessing.RecencyIsWholeDays | preprocessing/automate_preprocessing.py:42 | recency is the number of whole days from the customer's latest purchase to the snapshot, rounded down |
| Preprocessing.RecencyAtLeastOneDay | preprocessing/automate_preprocessing.py:39-42 | with the snapshot one day past every purchase, every customer's recency is at least 1 |
| Frame.NUnique | preprocessing/automate_preprocessing.py:43 | `nunique` is the size of the set of values, at most the number of rows and at least 1 for a non-empty column |
| Preprocessing.FrequencyCountsDistinctOrders | preprocessing/automate_preprocessing.py:43 | frequency is the number of distinct order ids in the customer's rows, between 1 and the customer's row count |
| Preprocessing.MonetarySumsCustomerRows | preprocessing/automate_preprocessing.py:44 | monetary is the customer's key-sum in the whole payment column, i.e. the payment values of all its rows |
| Preprocessing.MonetaryCountsEachLineItem | preprocessing/automate_preprocessing.py:44 | if all rows of an order carry the same payment p, that order adds p to its customer once per line item |
| Preprocessing.DeliveredMonetaryCountsJoinedRows | preprocessing/automate_preprocessing.py:26-44 | for any input, an order with k delivered joined rows of a customer adds its payment total k times to that customer's monetary value |
| Preprocessing.JoinedOfOrder | preprocessing/automate_preprocessing.py:26-30 | the merged rows of one order id are exactly the merge of that order id's order rows with the other tables |
| Preprocessing.SingleOrderJoined | preprocessing/automate_preprocessing.py:26-30 | a paid order whose customer id is listed once merges into exactly as many rows as it has rows in the item table, each carrying that order and that customer |
| Preprocessing.DeliveredOrderRowsAreLineItems | preprocessing/automate_preprocessing.py:26-35 | for a delivered, paid order listed once whose customer id is listed once, the delivered joined rows of the order number exactly its rows in the item table, and all belong to its customer |
| Preprocessing.DeliveredMonetaryCountsLineItems | preprocessing/automate_preprocessing.py:26-44 | such an order with k rows in the item table adds its payment total k times to its customer's monetary value |
| Preprocessing.TwoLineItemsCountTwice | preprocessing/automate_preprocessing.py:41-45 | one delivered order with two items and a payment of 10.0 gives recency 1, frequency 1 and monetary 20.0 |
| Preprocessing.RfmTable | preprocessing/automate_preprocessing.py:39-48 | the RFM table has exactly one row per customer unique id in the input, ids ascending, each with recency and frequency at least 1, and each row is that customer's RFM row at the snapshot of line 39 |
| Preprocessing.RfmTableRowValues | preprocessing/automate_preprocessing.py:39-45 | every row of the RFM table holds the whole days from its customer's latest purchase to the snapshot, its number of distinct order ids, and its summed payment column |
| Preprocessing.RfmConservesPayments | preprocessing/automate_preprocessing.py:41-45 | the monetary column of the RFM table adds up to the payment column of the rows it was built from |
| Percentile.Quantile | preprocessing/automate_preprocessing.py:51 | the linear-interpolation quantile lies between two values of the column |
| Percentile.QuantileRank | preprocessing/automate_preprocessing.py:51 | at least floor(q*(n-1)) + 1 of the n values are at or below the q-quantile |
| Preprocessing.OutlierLimit | preprocessing/automate_preprocessing.py:51 | the 0.95 monetary quantile is bounded below and above by monetary values of the table |
| Preprocessing.RemoveOutliers | preprocessing/automate_preprocessing.py:52 | the outlier filter keeps exactly the rows with monetary at most the limit, never lengthens the table, and keeps at least one row of a non-empty table |
| Preprocessing.OutlierBoundary | preprocessing/automate_preprocessing.py:51-52 | a row whose monetary equals the limit is kept, and a row above it is dropped |
| Preprocessing.OutlierFilterKeepsRank | preprocessing/automate_preprocessing.py:51-52 | the filter keeps at least floor(0.95*(n-1)) + 1 of the n customers |
| Frame.WhereIsMask | preprocessing/automate_preprocessing.py:52 | mask selection is the subsequence of the input at the passing positions, in their original order |
| Preprocessing.OutlierFilterIsSubsequence | preprocessing/automate_preprocessing.py:51-52 | the final table is the subsequence of the RFM table at exactly the positions whose monetary value is at most the 0.95 quantile, in their original order |
| Preprocessing.OutlierFilterKeepsOrder | preprocessing/automate_preprocessing.py:52 | the filtered table keeps the ascending customer-id order of the RFM table |
| Preprocessing.FinalTableFacts | preprocessing/automate_preprocessing.py:39-52 | the filtered table has at most one row per customer, is empty only when its input is, is ascending by id, and holds only input customers with recency and frequency at least 1 |
| Preprocessing.RunPreprocessing | preprocessing/automate_preprocessing.py:26-52 | the whole transformation yields at most one row per delivered customer, ascending by id, with recency and frequency at least 1, is empty exactly when no delivered joined row exists, and each row is its customer's RFM row over the delivered joined rows at their snapshot |
| Preprocessing.FinalRowValues | preprocessing/automate_preprocessing.py:26-52 | every row of the final table holds, over its customer's delivered joined rows, the whole days from the latest purchase to the snapshot, the number of distinct order ids, and the summed payment values |

## Left out

- File I/O: the paths (lines 9-10), the output directory creation (lines 13-15), `read_csv` (lines 20-23) and `to_csv` (lines 55-56) are not modelled. The tables are parameters and the result is the return value.
- The progress messages (lines 6, 15, 19, 38, 58-61) have no effect on the data.
- The `FileNotFoundError` handler (lines 63-64) is left out, because the model reads no files. The generic handler (lines 65-66) also catches a failed timestamp parse at line 33, after which no file is written. That abort is not modelled, because timestamps arrive already parsed.
- `pd.to_datetime` (line 33) is not modelled: timestamps arrive already parsed as integer seconds. With its default error handling an unparsable string raises an exception, and a missing timestamp becomes NaT. Neither case is represented.
- Missing values (NaN) in any column are not represented. pandas drops NaN keys from a `groupby` and NaN comparisons are false, but the model's inputs never hold them.
- Money is an exact `real`, not a binary floating-point number. Rounding in sums and in the quantile interpolation is not modelled.
- Columns the pipeline carries but never reads are dropped from the record types.
- `reset_index` has no counterpart of its own. At lines 29 and 45 it turns the group key from the index into a column; the model's grouped rows carry their key as a field from the start, which is what the merge at line 30 and the column names at line 48 rely on. At line 52 (`drop=True`) it only renumbers rows, and a sequence has no separate index.
- Preprocessing.OutlierLimit: states only that the limit lies between two monetary values of the table, plus the rank bound in `Percentile.QuantileRank`. It does not give a closed form of the interpolated value.
- Percentile.Quantile: as for `OutlierLimit`, the contract bounds the quantile by column values and `QuantileRank` bounds its rank. The interpolation formula itself appears only in the body.
- Preprocessing.CustomerRfm: its own contract states only the id and the frequency bound. The recency, frequency and monetary values are stated by the three lemmas named in its row, which keeps each proof small.
- Preprocessing.RunPreprocessing: does not say which customers survive the outlier filter. That is stated by `RemoveOutliers` and `OutlierFilterIsSubsequence` on the RFM table it filters.
