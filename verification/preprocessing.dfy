/** The RFM feature transformation of `run_preprocessing`: join the four Olist tables,
    keep delivered orders, aggregate recency / frequency / monetary per
    `customer_unique_id`, and drop customers above the 95th monetary percentile. */
module Preprocessing {
  import opened Lexicographic
  import opened Frame
  import opened Percentile
  import opened Olist

  /** The only order status that counts towards customer value. */
  const DeliveredStatus: string := "delivered"

  /** One day in seconds. */
  const SecondsPerDay: int := 86400

  /** The outlier cut-off quantile. */
  const OutlierQuantile: real := 0.95

  // ---------------------------------------------------------------------------
  // Intermediate and output rows
  // ---------------------------------------------------------------------------

  /** A row of the first merge (line 26), orders with their items on the order id:
      one row per line item of an order. */
  datatype OrderLine = OrderLine(order: Order, item: OrderItem)

  /** A row of the second merge (line 26): a line item with the customer who placed
      its order, matched on the per-order customer id. */
  datatype CustomerLine = CustomerLine(order: Order, item: OrderItem, customer: Customer)

  /** A row of the payment merge (line 30): a line item annotated with its order's
      total payment. */
  datatype JoinedRow = JoinedRow(order: Order, item: OrderItem, customer: Customer, paymentValue: real)

  /** A row of the RFM table, in the output column order
      `customer_id, recency, frequency, monetary`; `customerId` holds the
      `customer_unique_id`. */
  datatype RfmRow = RfmRow(customerId: string, recency: int, frequency: int, monetary: real)

  // ---------------------------------------------------------------------------
  // Join keys and row builders
  // ---------------------------------------------------------------------------

  function OrderKey(o: Order): string { o.orderId }
  function ItemKey(i: OrderItem): string { i.orderId }
  function LineCustomerKey(l: OrderLine): string { l.order.customerId }
  function CustomerKey(c: Customer): string { c.customerId }
  function LineOrderKey(l: CustomerLine): string { l.order.orderId }
  function OrderLineKey(l: OrderLine): string { l.order.orderId }

  function WithItem(o: Order, i: OrderItem): OrderLine { OrderLine(o, i) }
  function WithCustomer(l: OrderLine, c: Customer): CustomerLine { CustomerLine(l.order, l.item, c) }
  function WithPayment(l: CustomerLine, p: Entry): JoinedRow { JoinedRow(l.order, l.item, l.customer, p.value) }

  function PaymentEntry(p: Payment): Entry { Entry(p.orderId, p.paymentValue) }

  // ---------------------------------------------------------------------------
  // Payment aggregation and the joined view
  // ---------------------------------------------------------------------------

  /** Sum of all payment installments recorded for order `id`. */
  function TotalPaid(payments: seq<Payment>, id: string): real
  {
    SumFor(Column(payments, PaymentEntry), id)
  }

  /** Whether order `id` has at least one payment row. */
  predicate HasPayment(payments: seq<Payment>, id: string)
  {
    exists p :: p in payments && p.orderId == id
  }

  /** The per-order payment table (line 29): the installments grouped by order id and
      summed; keys are order ids, values are that order's payment total. */
  function OrderPayments(payments: seq<Payment>): (agg: seq<Entry>)
    ensures forall i, j :: 0 <= i < j < |agg| ==> Below(agg[i].key, agg[j].key)
    ensures forall id :: id in Keys(agg) <==> HasPayment(payments, id)
    ensures forall i :: 0 <= i < |agg| ==> agg[i].value == TotalPaid(payments, agg[i].key)
  {
    var entries := Column(payments, PaymentEntry);
    assert forall id :: id in Keys(entries) <==> HasPayment(payments, id) by {
      forall id
        ensures id in Keys(entries) <==> HasPayment(payments, id)
      {
        if id in Keys(entries) {
          var e :| e in entries && e.key == id;
          var k :| 0 <= k < |entries| && entries[k] == e;
          assert payments[k] in payments;
        }
        if HasPayment(payments, id) {
          var p :| p in payments && p.orderId == id;
          var k :| 0 <= k < |payments| && payments[k] == p;
          assert entries[k] in entries;
        }
      }
    }
    GroupSum(entries)
  }

  /** Lines 26 and 30: the three inner merges. */
  function Joined(orders: seq<Order>, items: seq<OrderItem>, customers: seq<Customer>,
                  payments: seq<Payment>): seq<JoinedRow>
  {
    var lines := InnerJoin(orders, items, OrderKey, ItemKey, WithItem);
    var withCustomer := InnerJoin(lines, customers, LineCustomerKey, CustomerKey, WithCustomer);
    InnerJoin(withCustomer, OrderPayments(payments), LineOrderKey, KeyOf, WithPayment)
  }

  /** A row is in the joined view exactly when it pairs an order with one of that
      order's items and with the customer of that order, and the order has payments;
      the row then carries the order's payment total. */
  lemma JoinedRowMembership(orders: seq<Order>, items: seq<OrderItem>, customers: seq<Customer>,
                            payments: seq<Payment>, row: JoinedRow)
    ensures row in Joined(orders, items, customers, payments) <==>
      && row.order in orders
      && row.item in items
      && row.customer in customers
      && row.item.orderId == row.order.orderId
      && row.customer.customerId == row.order.customerId
      && HasPayment(payments, row.order.orderId)
      && row.paymentValue == TotalPaid(payments, row.order.orderId)
  {
    var lines := InnerJoin(orders, items, OrderKey, ItemKey, WithItem);
    var withCustomer := InnerJoin(lines, customers, LineCustomerKey, CustomerKey, WithCustomer);
    var agg := OrderPayments(payments);
    var joined := InnerJoin(withCustomer, agg, LineOrderKey, KeyOf, WithPayment);
    if row in joined {
      var l, e :| l in withCustomer && e in agg && LineOrderKey(l) == KeyOf(e) && row == WithPayment(l, e);
      var l1, c :| l1 in lines && c in customers && LineCustomerKey(l1) == CustomerKey(c) && l == WithCustomer(l1, c);
      var o, it :| o in orders && it in items && OrderKey(o) == ItemKey(it) && l1 == WithItem(o, it);
      var k :| 0 <= k < |agg| && agg[k] == e;
      assert e.key in Keys(agg);
    }
    if && row.order in orders && row.item in items && row.customer in customers
       && row.item.orderId == row.order.orderId && row.customer.customerId == row.order.customerId
       && HasPayment(payments, row.order.orderId)
       && row.paymentValue == TotalPaid(payments, row.order.orderId)
    {
      var l1 := WithItem(row.order, row.item);
      assert l1 in lines;
      var l := WithCustomer(l1, row.customer);
      assert l in withCustomer;
      assert row.order.orderId in Keys(agg);
      var e :| e in agg && e.key == row.order.orderId;
      var k :| 0 <= k < |agg| && agg[k] == e;
      assert WithPayment(l, e) == row;
    }
  }

  // ---------------------------------------------------------------------------
  // Status filter
  // ---------------------------------------------------------------------------

  predicate IsDelivered(r: JoinedRow) { r.order.orderStatus == DeliveredStatus }
  predicate OrderIsDelivered(o: Order) { o.orderStatus == DeliveredStatus }
  predicate LineIsDelivered(l: OrderLine) { l.order.orderStatus == DeliveredStatus }
  predicate CustomerLineIsDelivered(l: CustomerLine) { l.order.orderStatus == DeliveredStatus }

  /** The status filter (line 35): the rows whose order status is exactly "delivered". */
  function DeliveredRows(rows: seq<JoinedRow>): (d: seq<JoinedRow>)
    ensures forall r :: r in d <==> r in rows && r.order.orderStatus == DeliveredStatus
  {
    Where(rows, IsDelivered)
  }

  /** Filtering the joined view on status is the same as joining only the delivered
      orders: the status filter commutes with the three merges. */
  lemma DeliveredJoinedIsJoinedDelivered(orders: seq<Order>, items: seq<OrderItem>, customers: seq<Customer>,
                                         payments: seq<Payment>)
    ensures DeliveredRows(Joined(orders, items, customers, payments))
         == Joined(Where(orders, OrderIsDelivered), items, customers, payments)
  {
    var agg := OrderPayments(payments);
    var lines := InnerJoin(orders, items, OrderKey, ItemKey, WithItem);
    var withCustomer := InnerJoin(lines, customers, LineCustomerKey, CustomerKey, WithCustomer);
    WhereInnerJoin(withCustomer, agg, LineOrderKey, KeyOf, WithPayment, CustomerLineIsDelivered, IsDelivered);
    WhereInnerJoin(lines, customers, LineCustomerKey, CustomerKey, WithCustomer, LineIsDelivered, CustomerLineIsDelivered);
    WhereInnerJoin(orders, items, OrderKey, ItemKey, WithItem, OrderIsDelivered, LineIsDelivered);
  }

  // ---------------------------------------------------------------------------
  // Snapshot date and per-customer aggregates
  // ---------------------------------------------------------------------------

  /** Latest purchase time among `rows`. */
  function LatestPurchase(rows: seq<JoinedRow>): (latest: int)
    requires rows != []
    ensures exists r :: r in rows && r.order.purchaseTimestamp == latest
    ensures forall r :: r in rows ==> r.order.purchaseTimestamp <= latest
  {
    if |rows| == 1 then rows[0].order.purchaseTimestamp
    else
      var rest := LatestPurchase(rows[1..]);
      assert forall r :: r in rows <==> r == rows[0] || r in rows[1..] by {
        assert rows == [rows[0]] + rows[1..];
      }
      if rows[0].order.purchaseTimestamp >= rest then rows[0].order.purchaseTimestamp else rest
  }

  /** Line 39: the latest purchase plus one day. */
  function SnapshotDate(rows: seq<JoinedRow>): (snapshot: int)
    requires rows != []
    ensures forall r :: r in rows ==> r.order.purchaseTimestamp + SecondsPerDay <= snapshot
    ensures exists r :: r in rows && snapshot == r.order.purchaseTimestamp + SecondsPerDay
  {
    LatestPurchase(rows) + SecondsPerDay
  }

  function UniqueIdOf(r: JoinedRow): string { r.customer.customerUniqueId }
  function OrderIdOf(r: JoinedRow): string { r.order.orderId }
  function MonetaryEntry(r: JoinedRow): Entry { Entry(r.customer.customerUniqueId, r.paymentValue) }

  function OfCustomer(uid: string): JoinedRow -> bool
  {
    (r: JoinedRow) => r.customer.customerUniqueId == uid
  }

  /** The group of `uid` when the rows are grouped by customer unique id (line 41). */
  function CustomerRows(rows: seq<JoinedRow>, uid: string): (mine: seq<JoinedRow>)
    ensures forall r :: r in mine <==> r in rows && r.customer.customerUniqueId == uid
  {
    Where(rows, OfCustomer(uid))
  }

  /** The set of customer unique ids occurring in `rows`. */
  function CustomersOf(rows: seq<JoinedRow>): set<string>
  {
    set r | r in rows :: r.customer.customerUniqueId
  }

  /** The set of order ids occurring in `rows`. */
  function OrdersOf(rows: seq<JoinedRow>): set<string>
  {
    set r | r in rows :: r.order.orderId
  }

  lemma ColumnSet(rows: seq<JoinedRow>)
    ensures (set x | x in Column(rows, OrderIdOf)) == OrdersOf(rows)
  {
    var c := Column(rows, OrderIdOf);
    forall x | x in c
      ensures x in OrdersOf(rows)
    {
      var k :| 0 <= k < |c| && c[k] == x;
      assert rows[k] in rows;
    }
    forall r | r in rows
      ensures r.order.orderId in c
    {
      var k :| 0 <= k < |rows| && rows[k] == r;
      assert c[k] == r.order.orderId;
    }
  }

  /** `Total(Column(rows, MonetaryEntry))` restricted to one customer equals that
      customer's key-sum in the whole column. */
  lemma {:induction false} GroupSumIsCustomerSum(rows: seq<JoinedRow>, uid: string)
    ensures Total(Column(CustomerRows(rows, uid), MonetaryEntry)) == SumFor(Column(rows, MonetaryEntry), uid)
    decreases |rows|
  {
    if rows != [] {
      var h, t := rows[0], rows[1..];
      GroupSumIsCustomerSum(t, uid);
      MonetaryStep(rows, uid);
      if h.customer.customerUniqueId == uid {
        assert CustomerRows(rows, uid) == [h] + CustomerRows(t, uid);
        TotalColumnCons(h, CustomerRows(t, uid));
      } else {
        assert CustomerRows(rows, uid) == CustomerRows(t, uid);
      }
    }
  }

  lemma TotalColumnCons(h: JoinedRow, t: seq<JoinedRow>)
    ensures Total(Column([h] + t, MonetaryEntry)) == h.paymentValue + Total(Column(t, MonetaryEntry))
  {
    assert Column([h] + t, MonetaryEntry)[1..] == Column(t, MonetaryEntry);
  }

  /** The RFM values of customer `uid` (lines 41-45): days since the customer's
      latest purchase, distinct orders, and summed payment over the customer's rows. */
  function CustomerRfm(rows: seq<JoinedRow>, snapshot: int, uid: string): (row: RfmRow)
    requires CustomerRows(rows, uid) != []
    ensures row.customerId == uid
    ensures row.frequency >= 1
  {
    var mine := CustomerRows(rows, uid);
    RfmRow(uid,
           (snapshot - LatestPurchase(mine)) / SecondsPerDay,
           NUnique(Column(mine, OrderIdOf)),
           Total(Column(mine, MonetaryEntry)))
  }

  /** Recency is the number of whole days between the customer's latest purchase and
      the snapshot, rounded down (`timedelta.days`). */
  lemma RecencyIsWholeDays(rows: seq<JoinedRow>, snapshot: int, uid: string)
    requires CustomerRows(rows, uid) != []
    ensures var row := CustomerRfm(rows, snapshot, uid);
      var latest := LatestPurchase(CustomerRows(rows, uid));
      row.recency * SecondsPerDay <= snapshot - latest < (row.recency + 1) * SecondsPerDay
  {
  }

  /** Frequency is the number of distinct order ids among the customer's rows, so
      repeated line items of one order are counted once. */
  lemma FrequencyCountsDistinctOrders(rows: seq<JoinedRow>, snapshot: int, uid: string)
    requires CustomerRows(rows, uid) != []
    ensures var row := CustomerRfm(rows, snapshot, uid);
      && row.frequency == |OrdersOf(CustomerRows(rows, uid))|
      && 1 <= row.frequency <= |CustomerRows(rows, uid)|
  {
    ColumnSet(CustomerRows(rows, uid));
  }

  /** Monetary is the customer's share of the payment column, one contribution per
      joined row. */
  lemma MonetarySumsCustomerRows(rows: seq<JoinedRow>, snapshot: int, uid: string)
    requires CustomerRows(rows, uid) != []
    ensures CustomerRfm(rows, snapshot, uid).monetary == SumFor(Column(rows, MonetaryEntry), uid)
  {
    GroupSumIsCustomerSum(rows, uid);
  }

  /** With the snapshot a day after every purchase, every customer's recency is at
      least one day. */
  lemma RecencyAtLeastOneDay(rows: seq<JoinedRow>, snapshot: int, uid: string)
    requires CustomerRows(rows, uid) != []
    requires forall r :: r in rows ==> r.order.purchaseTimestamp + SecondsPerDay <= snapshot
    ensures CustomerRfm(rows, snapshot, uid).recency >= 1
  {
    var mine := CustomerRows(rows, uid);
    var latest := LatestPurchase(mine);
    var r :| r in mine && r.order.purchaseTimestamp == latest;
    assert SecondsPerDay <= snapshot - latest;
    RecencyIsWholeDays(rows, snapshot, uid);
  }

  /** One RFM row per key of `ks`, in the order of `ks`. */
  function RfmRows(ks: seq<string>, rows: seq<JoinedRow>, snapshot: int): (rfm: seq<RfmRow>)
    requires forall k :: k in ks ==> CustomerRows(rows, k) != []
    ensures |rfm| == |ks|
    ensures forall i :: 0 <= i < |ks| ==> rfm[i] == CustomerRfm(rows, snapshot, ks[i])
  {
    if ks == [] then []
    else
      assert ks[0] in ks;
      [CustomerRfm(rows, snapshot, ks[0])] + RfmRows(ks[1..], rows, snapshot)
  }

  lemma UniqueIdKeys(rows: seq<JoinedRow>, ks: seq<string>)
    requires forall k :: k in ks <==> k in Column(rows, UniqueIdOf)
    ensures forall k :: k in ks <==> k in CustomersOf(rows)
    ensures forall k :: k in ks ==> CustomerRows(rows, k) != []
  {
    var c := Column(rows, UniqueIdOf);
    forall k | k in ks
      ensures k in CustomersOf(rows) && CustomerRows(rows, k) != []
    {
      var j :| 0 <= j < |c| && c[j] == k;
      assert rows[j] in rows;
      assert rows[j] in CustomerRows(rows, k);
    }
    forall r | r in rows
      ensures r.customer.customerUniqueId in ks
    {
      var j :| 0 <= j < |rows| && rows[j] == r;
      assert c[j] == r.customer.customerUniqueId;
    }
  }

  lemma KeyCount(rows: seq<JoinedRow>, ks: seq<string>)
    requires Ascending(ks)
    requires forall k :: k in ks <==> k in CustomersOf(rows)
    ensures |ks| == |CustomersOf(rows)|
  {
    AscendingCardinality(ks);
    assert (set x | x in ks) == CustomersOf(rows);
  }

  /** The customer ids listed in an RFM table. */
  function CustomerIds(rfm: seq<RfmRow>): set<string>
  {
    set r | r in rfm :: r.customerId
  }

  lemma RfmRowsFacts(ks: seq<string>, rows: seq<JoinedRow>, snapshot: int)
    requires forall k :: k in ks ==> CustomerRows(rows, k) != []
    requires forall r :: r in rows ==> r.order.purchaseTimestamp + SecondsPerDay <= snapshot
    ensures var rfm := RfmRows(ks, rows, snapshot);
      && CustomerIds(rfm) == (set k | k in ks)
      && (forall i :: 0 <= i < |rfm| ==> rfm[i].customerId == ks[i])
      && (forall i :: 0 <= i < |rfm| ==> rfm[i].recency >= 1 && rfm[i].frequency >= 1)
  {
    var rfm := RfmRows(ks, rows, snapshot);
    forall i | 0 <= i < |ks|
      ensures rfm[i].customerId == ks[i] && rfm[i].recency >= 1
    {
      assert ks[i] in ks;
      RecencyAtLeastOneDay(rows, snapshot, ks[i]);
    }
    forall k | k in ks
      ensures k in CustomerIds(rfm)
    {
      var i :| 0 <= i < |ks| && ks[i] == k;
      assert rfm[i] in rfm;
    }
  }

  /** Rows whose ids follow a strictly ascending key list are in ascending id order. */
  lemma IdsFollowKeys(rfm: seq<RfmRow>, ks: seq<string>)
    requires Ascending(ks)
    requires |rfm| == |ks|
    requires forall i :: 0 <= i < |rfm| ==> rfm[i].customerId == ks[i]
    ensures forall i, j :: 0 <= i < j < |rfm| ==> Below(rfm[i].customerId, rfm[j].customerId)
  {
  }

  /** Rows built from a key list are the per-customer RFM rows of those keys. */
  lemma RowsAreCustomerRfm(ks: seq<string>, rows: seq<JoinedRow>, snapshot: int)
    requires forall k :: k in ks ==> CustomerRows(rows, k) != []
    ensures forall r :: r in RfmRows(ks, rows, snapshot) ==>
      CustomerRows(rows, r.customerId) != [] && r == CustomerRfm(rows, snapshot, r.customerId)
  {
    var rfm := RfmRows(ks, rows, snapshot);
    forall r | r in rfm
      ensures CustomerRows(rows, r.customerId) != [] && r == CustomerRfm(rows, snapshot, r.customerId)
    {
      var i :| 0 <= i < |rfm| && rfm[i] == r;
      assert ks[i] in ks;
    }
  }

  /** The group keys of `rows`: each customer unique id once, ascending. */
  function GroupKeys(rows: seq<JoinedRow>): seq<string>
  {
    SortedUnique(Column(rows, UniqueIdOf))
  }

  lemma GroupKeysTable(rows: seq<JoinedRow>)
    requires rows != []
    ensures forall k :: k in GroupKeys(rows) ==> CustomerRows(rows, k) != []
    ensures var rfm := RfmRows(GroupKeys(rows), rows, SnapshotDate(rows));
      && (forall i, j :: 0 <= i < j < |rfm| ==> Below(rfm[i].customerId, rfm[j].customerId))
      && CustomerIds(rfm) == CustomersOf(rows)
      && |rfm| == |CustomersOf(rows)|
      && (forall i :: 0 <= i < |rfm| ==> rfm[i].recency >= 1 && rfm[i].frequency >= 1)
      && (forall r :: r in rfm ==>
            CustomerRows(rows, r.customerId) != [] && r == CustomerRfm(rows, SnapshotDate(rows), r.customerId))
  {
    var snapshot := SnapshotDate(rows);
    var ks := GroupKeys(rows);
    UniqueIdKeys(rows, ks);
    KeyCount(rows, ks);
    RfmRowsFacts(ks, rows, snapshot);
    RowsAreCustomerRfm(ks, rows, snapshot);
    IdsFollowKeys(RfmRows(ks, rows, snapshot), ks);
  }

  /** Lines 39-48: the RFM table, one row per customer unique id in ascending order,
      each row holding that customer's values at the snapshot of line 39. */
  function RfmTable(rows: seq<JoinedRow>): (rfm: seq<RfmRow>)
    ensures forall i, j :: 0 <= i < j < |rfm| ==> Below(rfm[i].customerId, rfm[j].customerId)
    ensures CustomerIds(rfm) == CustomersOf(rows)
    ensures |rfm| == |CustomersOf(rows)|
    ensures forall i :: 0 <= i < |rfm| ==> rfm[i].recency >= 1 && rfm[i].frequency >= 1
    ensures rows != [] ==> forall r :: r in rfm ==>
      CustomerRows(rows, r.customerId) != [] && r == CustomerRfm(rows, SnapshotDate(rows), r.customerId)
  {
    if rows == [] then []
    else
      GroupKeysTable(rows);
      RfmRows(GroupKeys(rows), rows, SnapshotDate(rows))
  }

  /** Every row of the RFM table holds its customer's recency in whole days before the
      snapshot, its number of distinct orders, and its summed payment column. */
  lemma RfmTableRowValues(rows: seq<JoinedRow>, r: RfmRow)
    requires r in RfmTable(rows)
    ensures rows != [] && CustomerRows(rows, r.customerId) != []
    ensures var mine := CustomerRows(rows, r.customerId);
      && r.recency * SecondsPerDay <= SnapshotDate(rows) - LatestPurchase(mine) < (r.recency + 1) * SecondsPerDay
      && r.frequency == |OrdersOf(mine)|
      && r.monetary == SumFor(Column(rows, MonetaryEntry), r.customerId)
  {
    var uid := r.customerId;
    RecencyIsWholeDays(rows, SnapshotDate(rows), uid);
    FrequencyCountsDistinctOrders(rows, SnapshotDate(rows), uid);
    MonetarySumsCustomerRows(rows, SnapshotDate(rows), uid);
  }

  // ---------------------------------------------------------------------------
  // Outlier filter
  // ---------------------------------------------------------------------------

  function MonetaryOf(r: RfmRow): real { r.monetary }

  /** The outlier limit (line 51): the 0.95 quantile of the monetary column. */
  function OutlierLimit(rfm: seq<RfmRow>): (limit: real)
    requires rfm != []
    ensures exists i :: 0 <= i < |rfm| && rfm[i].monetary <= limit
    ensures exists j :: 0 <= j < |rfm| && limit <= rfm[j].monetary
  {
    var c := Column(rfm, MonetaryOf);
    var limit := Quantile(c, OutlierQuantile);
    var i :| 0 <= i < |c| && c[i] <= limit;
    var j :| 0 <= j < |c| && limit <= c[j];
    limit
  }

  function WithinLimit(limit: real): RfmRow -> bool
  {
    (r: RfmRow) => r.monetary <= limit
  }

  /** The outlier filter (line 52): the rows whose monetary value is at most the limit. */
  function RemoveOutliers(rfm: seq<RfmRow>): (final: seq<RfmRow>)
    ensures |final| <= |rfm|
    ensures rfm != [] ==> final != []
    ensures rfm != [] ==> forall r :: r in final <==> r in rfm && r.monetary <= OutlierLimit(rfm)
  {
    if rfm == [] then []
    else
      var limit := OutlierLimit(rfm);
      var i :| 0 <= i < |rfm| && rfm[i].monetary <= limit;
      assert rfm[i] in Where(rfm, WithinLimit(limit));
      Where(rfm, WithinLimit(limit))
  }

  /** A row at or below the limit is kept, a row above it is dropped. */
  lemma OutlierBoundary(rfm: seq<RfmRow>, r: RfmRow)
    requires r in rfm
    ensures r.monetary == OutlierLimit(rfm) ==> r in RemoveOutliers(rfm)
    ensures r.monetary > OutlierLimit(rfm) ==> r !in RemoveOutliers(rfm)
  {
  }

  lemma {:induction false} WhereWithinLimitCount(rfm: seq<RfmRow>, limit: real)
    ensures |Where(rfm, WithinLimit(limit))| == CountAtMost(Column(rfm, MonetaryOf), limit)
    decreases |rfm|
  {
    if rfm != [] {
      assert Column(rfm, MonetaryOf)[1..] == Column(rfm[1..], MonetaryOf);
      WhereWithinLimitCount(rfm[1..], limit);
    }
  }

  /** The 95th-percentile filter keeps at least floor(0.95*(n-1)) + 1 of the n rows. */
  lemma OutlierFilterKeepsRank(rfm: seq<RfmRow>)
    requires rfm != []
    ensures |RemoveOutliers(rfm)| >= LowerIndex(OutlierQuantile, |rfm|) + 1
  {
    var limit := OutlierLimit(rfm);
    WhereWithinLimitCount(rfm, limit);
    QuantileRank(Column(rfm, MonetaryOf), OutlierQuantile);
  }

  /** The final table is the subsequence of the RFM table at exactly the positions
      whose monetary value is within the limit. */
  lemma OutlierFilterIsSubsequence(rfm: seq<RfmRow>) returns (idx: seq<int>)
    requires rfm != []
    ensures Embeds(RemoveOutliers(rfm), rfm, idx)
    ensures forall i :: 0 <= i < |rfm| ==> (i in idx <==> rfm[i].monetary <= OutlierLimit(rfm))
  {
    var limit := OutlierLimit(rfm);
    var final := RemoveOutliers(rfm);
    idx := WhereIsMask(rfm, WithinLimit(limit));
    forall i | 0 <= i < |rfm| && i in idx
      ensures rfm[i].monetary <= limit
    {
      var k :| 0 <= k < |idx| && idx[k] == i;
      assert final[k] == rfm[i];
      assert final[k] in final;
    }
  }

  /** Dropping outliers does not reorder rows, so the ascending customer order of the
      RFM table survives. */
  lemma OutlierFilterKeepsOrder(rfm: seq<RfmRow>)
    requires forall i, j :: 0 <= i < j < |rfm| ==> Below(rfm[i].customerId, rfm[j].customerId)
    ensures var final := RemoveOutliers(rfm);
      forall i, j :: 0 <= i < j < |final| ==> Below(final[i].customerId, final[j].customerId)
  {
    if rfm != [] {
      var final := RemoveOutliers(rfm);
      var idx := WhereIsMask(rfm, WithinLimit(OutlierLimit(rfm)));
      forall i, j | 0 <= i < j < |final|
        ensures Below(final[i].customerId, final[j].customerId)
      {
        assert final[i] == rfm[idx[i]] && final[j] == rfm[idx[j]];
      }
    }
  }

  /** Every row that survives the outlier filter is a row of the table it filters,
      so row-wise facts about the table carry over. */
  lemma SurvivorsKeepRowFacts(rfm: seq<RfmRow>, ids: set<string>)
    requires CustomerIds(rfm) == ids
    requires forall i :: 0 <= i < |rfm| ==> rfm[i].recency >= 1 && rfm[i].frequency >= 1
    ensures forall r :: r in RemoveOutliers(rfm) ==> r.customerId in ids && r.recency >= 1 && r.frequency >= 1
    ensures forall r :: r in RemoveOutliers(rfm) ==> r in rfm
  {
    forall r | r in RemoveOutliers(rfm)
      ensures r.customerId in ids && r.recency >= 1 && r.frequency >= 1
    {
      var i :| 0 <= i < |rfm| && rfm[i] == r;
    }
  }

  /** Every row that survives the outlier filter is a row of the RFM table. */
  lemma FinalRowsFromTable(rows: seq<JoinedRow>)
    ensures forall r :: r in RemoveOutliers(RfmTable(rows)) ==>
      r.customerId in CustomersOf(rows) && r.recency >= 1 && r.frequency >= 1
  {
    SurvivorsKeepRowFacts(RfmTable(rows), CustomersOf(rows));
  }

  /** What the outlier filter keeps of the RFM table built from `rows`. */
  lemma FinalTableFacts(rows: seq<JoinedRow>)
    ensures var final := RemoveOutliers(RfmTable(rows));
      && |final| <= |CustomersOf(rows)|
      && (final == [] <==> rows == [])
      && (forall i, j :: 0 <= i < j < |final| ==> Below(final[i].customerId, final[j].customerId))
      && (forall r :: r in final ==> r.customerId in CustomersOf(rows) && r.recency >= 1 && r.frequency >= 1)
      && (forall r :: r in final ==>
            rows != [] && CustomerRows(rows, r.customerId) != [] && r == CustomerRfm(rows, SnapshotDate(rows), r.customerId))
  {
    var rfm := RfmTable(rows);
    SurvivorsKeepRowFacts(rfm, CustomersOf(rows));
    OutlierFilterKeepsOrder(rfm);
    FinalRowsFromTable(rows);
    if rows != [] {
      assert rows[0].customer.customerUniqueId in CustomersOf(rows);
    }
  }

  /** The whole transformation, lines 26-52. */
  function RunPreprocessing(orders: seq<Order>, items: seq<OrderItem>, customers: seq<Customer>,
                            payments: seq<Payment>): (final: seq<RfmRow>)
    ensures var delivered := DeliveredRows(Joined(orders, items, customers, payments));
      && |final| <= |CustomersOf(delivered)|
      && (final == [] <==> delivered == [])
      && (forall i, j :: 0 <= i < j < |final| ==> Below(final[i].customerId, final[j].customerId))
      && (forall r :: r in final ==> r.customerId in CustomersOf(delivered) && r.recency >= 1 && r.frequency >= 1)
      && (forall r :: r in final ==>
            delivered != [] && CustomerRows(delivered, r.customerId) != []
            && r == CustomerRfm(delivered, SnapshotDate(delivered), r.customerId))
  {
    var delivered := DeliveredRows(Joined(orders, items, customers, payments));
    FinalTableFacts(delivered);
    RemoveOutliers(RfmTable(delivered))
  }

  /** Every row of the final table holds, for its customer's delivered rows, the
      recency in whole days before the snapshot, the number of distinct orders and
      the summed payment column. */
  lemma FinalRowValues(orders: seq<Order>, items: seq<OrderItem>, customers: seq<Customer>,
                       payments: seq<Payment>, r: RfmRow)
    requires r in RunPreprocessing(orders, items, customers, payments)
    ensures var delivered := DeliveredRows(Joined(orders, items, customers, payments));
      var mine := CustomerRows(delivered, r.customerId);
      && delivered != [] && mine != []
      && r.recency * SecondsPerDay <= SnapshotDate(delivered) - LatestPurchase(mine) < (r.recency + 1) * SecondsPerDay
      && r.frequency == |OrdersOf(mine)|
      && r.monetary == SumFor(Column(delivered, MonetaryEntry), r.customerId)
  {
    var delivered := DeliveredRows(Joined(orders, items, customers, payments));
    var uid := r.customerId;
    assert delivered != [] && CustomerRows(delivered, uid) != [];
    var snapshot := SnapshotDate(delivered);
    assert r == CustomerRfm(delivered, snapshot, uid);
    RecencyIsWholeDays(delivered, snapshot, uid);
    FrequencyCountsDistinctOrders(delivered, snapshot, uid);
    MonetarySumsCustomerRows(delivered, snapshot, uid);
  }

  /** Orders whose status is not "delivered" contribute nothing: removing them from the
      input leaves the output unchanged. */
  lemma NonDeliveredOrdersContributeNothing(orders: seq<Order>, items: seq<OrderItem>,
                                            customers: seq<Customer>, payments: seq<Payment>)
    ensures RunPreprocessing(orders, items, customers, payments)
         == RunPreprocessing(Where(orders, OrderIsDelivered), items, customers, payments)
  {
    var kept := Where(orders, OrderIsDelivered);
    DeliveredJoinedIsJoinedDelivered(orders, items, customers, payments);
    DeliveredJoinedIsJoinedDelivered(kept, items, customers, payments);
    WhereIdempotent(orders, OrderIsDelivered);
  }

  // ---------------------------------------------------------------------------
  // Monetary as written: one payment total per line item
  // ---------------------------------------------------------------------------

  function OfOrder(oid: string): JoinedRow -> bool
  {
    (r: JoinedRow) => r.order.orderId == oid
  }

  function NotOfOrder(oid: string): JoinedRow -> bool
  {
    (r: JoinedRow) => r.order.orderId != oid
  }

  /** The monetary contribution of one joined row to customer `uid`. */
  function Contribution(r: JoinedRow, uid: string): real
  {
    if r.customer.customerUniqueId == uid then r.paymentValue else 0.0
  }

  lemma MonetaryStep(rows: seq<JoinedRow>, uid: string)
    requires rows != []
    ensures SumFor(Column(rows, MonetaryEntry), uid)
         == Contribution(rows[0], uid) + SumFor(Column(rows[1..], MonetaryEntry), uid)
  {
    assert Column(rows, MonetaryEntry)[1..] == Column(rows[1..], MonetaryEntry);
  }

  lemma CustomerCountCons(h: JoinedRow, t: seq<JoinedRow>, uid: string)
    ensures |CustomerRows([h] + t, uid)|
         == (if h.customer.customerUniqueId == uid then 1 else 0) + |CustomerRows(t, uid)|
  {
    assert ([h] + t)[0] == h && ([h] + t)[1..] == t;
  }

  /** `p` added `k` times; equal to `k * p` by `TimesIsProduct`. */
  function Times(k: nat, p: real): real
  {
    if k == 0 then 0.0 else p + Times(k - 1, p)
  }

  lemma {:induction false} TimesIsProduct(k: nat, p: real)
    ensures Times(k, p) == k as real * p
  {
    if k > 0 {
      TimesIsProduct(k - 1, p);
    }
  }

  /** If every row of order `oid` carries the payment total `p`, that order adds `p`
      to its customer's monetary value once per line item. */
  lemma {:induction false} MonetaryCountsEachLineItem(rows: seq<JoinedRow>, uid: string, oid: string, p: real)
    requires forall r :: r in rows && r.order.orderId == oid ==> r.paymentValue == p
    ensures SumFor(Column(rows, MonetaryEntry), uid)
         == SumFor(Column(Where(rows, NotOfOrder(oid)), MonetaryEntry), uid)
            + Times(|CustomerRows(Where(rows, OfOrder(oid)), uid)|, p)
    decreases |rows|
  {
    if rows != [] {
      var r := rows[0];
      var rest := rows[1..];
      assert r in rows;
      assert forall x :: x in rest ==> x in rows;
      MonetaryCountsEachLineItem(rest, uid, oid, p);
      MonetaryStep(rows, uid);
      var others := Where(rest, NotOfOrder(oid));
      var same := Where(rest, OfOrder(oid));
      if r.order.orderId == oid {
        assert Where(rows, NotOfOrder(oid)) == others;
        assert Where(rows, OfOrder(oid)) == [r] + same;
        CustomerCountCons(r, same, uid);
      } else {
        assert Where(rows, NotOfOrder(oid)) == [r] + others;
        assert ([r] + others)[0] == r && ([r] + others)[1..] == others;
        MonetaryStep([r] + others, uid);
        assert Where(rows, OfOrder(oid)) == same;
      }
    }
  }

  /** Every joined row carries its order's payment total. */
  lemma JoinedPaymentValue(orders: seq<Order>, items: seq<OrderItem>, customers: seq<Customer>,
                           payments: seq<Payment>, oid: string)
    ensures forall r :: r in Joined(orders, items, customers, payments) && r.order.orderId == oid
                        ==> r.paymentValue == TotalPaid(payments, oid)
  {
    forall r | r in Joined(orders, items, customers, payments) && r.order.orderId == oid
      ensures r.paymentValue == TotalPaid(payments, oid)
    {
      JoinedRowMembership(orders, items, customers, payments, r);
    }
  }

  /** In the pipeline every joined row of an order carries that order's payment total,
      so an order with k delivered joined rows of a customer adds k times its total to
      that customer's monetary value. */
  lemma DeliveredMonetaryCountsJoinedRows(orders: seq<Order>, items: seq<OrderItem>, customers: seq<Customer>,
                                          payments: seq<Payment>, uid: string, oid: string)
    ensures var rows := DeliveredRows(Joined(orders, items, customers, payments));
      SumFor(Column(rows, MonetaryEntry), uid)
      == SumFor(Column(Where(rows, NotOfOrder(oid)), MonetaryEntry), uid)
         + Times(|CustomerRows(Where(rows, OfOrder(oid)), uid)|, TotalPaid(payments, oid))
  {
    var rows := DeliveredRows(Joined(orders, items, customers, payments));
    JoinedPaymentValue(orders, items, customers, payments, oid);
    MonetaryCountsEachLineItem(rows, uid, oid, TotalPaid(payments, oid));
  }

  /** Selecting the joined rows of one order is the same as joining only that order. */
  lemma JoinedOfOrder(orders: seq<Order>, items: seq<OrderItem>, customers: seq<Customer>,
                      payments: seq<Payment>, oid: string)
    ensures Where(Joined(orders, items, customers, payments), OfOrder(oid))
         == Joined(Where(orders, KeyEquals(OrderKey, oid)), items, customers, payments)
  {
    var agg := OrderPayments(payments);
    var lines := InnerJoin(orders, items, OrderKey, ItemKey, WithItem);
    var withCustomer := InnerJoin(lines, customers, LineCustomerKey, CustomerKey, WithCustomer);
    forall l, e
      ensures OfOrder(oid)(WithPayment(l, e)) == KeyEquals(LineOrderKey, oid)(l)
    {
      assert KeyEquals(LineOrderKey, oid)(l) == (LineOrderKey(l) == oid);
    }
    forall l, c
      ensures KeyEquals(LineOrderKey, oid)(WithCustomer(l, c)) == KeyEquals(OrderLineKey, oid)(l)
    {
      assert KeyEquals(LineOrderKey, oid)(WithCustomer(l, c)) == (LineOrderKey(WithCustomer(l, c)) == oid);
      assert KeyEquals(OrderLineKey, oid)(l) == (OrderLineKey(l) == oid);
    }
    forall o, i
      ensures KeyEquals(OrderLineKey, oid)(WithItem(o, i)) == KeyEquals(OrderKey, oid)(o)
    {
      assert KeyEquals(OrderLineKey, oid)(WithItem(o, i)) == (OrderLineKey(WithItem(o, i)) == oid);
      assert KeyEquals(OrderKey, oid)(o) == (OrderKey(o) == oid);
    }
    WhereInnerJoin(withCustomer, agg, LineOrderKey, KeyOf, WithPayment, KeyEquals(LineOrderKey, oid), OfOrder(oid));
    WhereInnerJoin(lines, customers, LineCustomerKey, CustomerKey, WithCustomer,
                   KeyEquals(OrderLineKey, oid), KeyEquals(LineOrderKey, oid));
    WhereInnerJoin(orders, items, OrderKey, ItemKey, WithItem, KeyEquals(OrderKey, oid), KeyEquals(OrderLineKey, oid));
  }

  /** Joining a single order whose customer id occurs once in the customer table, and
      which has payments, gives one row per line item of the order, each for that
      order and that customer. */
  lemma SingleOrderJoined(o: Order, items: seq<OrderItem>, customers: seq<Customer>, payments: seq<Payment>,
                          c: Customer)
    requires c in customers && c.customerId == o.customerId
    requires CountKey(customers, CustomerKey, o.customerId) == 1
    requires HasPayment(payments, o.orderId)
    ensures var joined := Joined([o], items, customers, payments);
      && |joined| == CountKey(items, ItemKey, o.orderId)
      && forall r :: r in joined ==> r.order == o && r.customer == c
  {
    var lines := InnerJoin([o], items, OrderKey, ItemKey, WithItem);
    assert JoinSize([o], items, OrderKey, ItemKey) == CountKey(items, ItemKey, o.orderId) by {
      assert [o][1..] == [];
    }
    var withCustomer := InnerJoin(lines, customers, LineCustomerKey, CustomerKey, WithCustomer);
    JoinEachOnce(lines, customers, LineCustomerKey, CustomerKey);
    WhereUniqueKey(customers, CustomerKey, o.customerId, c);
    forall l | l in withCustomer
      ensures l.order == o && l.customer == c
    {
      var l1, c1 :| l1 in lines && c1 in customers && LineCustomerKey(l1) == CustomerKey(c1) && l == WithCustomer(l1, c1);
      assert c1 in Where(customers, KeyEquals(CustomerKey, o.customerId));
    }
    var agg := OrderPayments(payments);
    AscendingKeyOnce(agg, o.orderId);
    JoinEachOnce(withCustomer, agg, LineOrderKey, KeyOf);
  }

  /** When the order table lists order `o` once, `o` is delivered and has payments, and
      its customer id occurs once in the customer table, the delivered joined rows of
      `o` are exactly as many as `o`'s line items, and all belong to `o`'s customer. */
  lemma DeliveredOrderRowsAreLineItems(orders: seq<Order>, items: seq<OrderItem>, customers: seq<Customer>,
                                       payments: seq<Payment>, o: Order, c: Customer)
    requires o in orders && o.orderStatus == DeliveredStatus
    requires CountKey(orders, OrderKey, o.orderId) == 1
    requires c in customers && c.customerId == o.customerId
    requires CountKey(customers, CustomerKey, o.customerId) == 1
    requires HasPayment(payments, o.orderId)
    ensures var ofOrder := Where(DeliveredRows(Joined(orders, items, customers, payments)), OfOrder(o.orderId));
      && CustomerRows(ofOrder, c.customerUniqueId) == ofOrder
      && |ofOrder| == CountKey(items, ItemKey, o.orderId)
  {
    var oid := o.orderId;
    var delivered := Where(orders, OrderIsDelivered);
    DeliveredJoinedIsJoinedDelivered(orders, items, customers, payments);
    JoinedOfOrder(delivered, items, customers, payments, oid);
    WhereCommute(orders, OrderIsDelivered, KeyEquals(OrderKey, oid));
    WhereUniqueKey(orders, OrderKey, oid, o);
    assert Where([o], OrderIsDelivered) == [o] by {
      assert [o][1..] == [];
    }
    SingleOrderJoined(o, items, customers, payments, c);
    WhereAll(Joined([o], items, customers, payments), OfCustomer(c.customerUniqueId));
  }

  /** An order listed once, delivered, paid, and with a customer listed once, adds its
      payment total to that customer's monetary value once per line item it has in
      the item table. */
  lemma DeliveredMonetaryCountsLineItems(orders: seq<Order>, items: seq<OrderItem>, customers: seq<Customer>,
                                         payments: seq<Payment>, o: Order, c: Customer)
    requires o in orders && o.orderStatus == DeliveredStatus
    requires CountKey(orders, OrderKey, o.orderId) == 1
    requires c in customers && c.customerId == o.customerId
    requires CountKey(customers, CustomerKey, o.customerId) == 1
    requires HasPayment(payments, o.orderId)
    ensures var rows := DeliveredRows(Joined(orders, items, customers, payments));
      SumFor(Column(rows, MonetaryEntry), c.customerUniqueId)
      == SumFor(Column(Where(rows, NotOfOrder(o.orderId)), MonetaryEntry), c.customerUniqueId)
         + Times(CountKey(items, ItemKey, o.orderId), TotalPaid(payments, o.orderId))
  {
    DeliveredMonetaryCountsJoinedRows(orders, items, customers, payments, c.customerUniqueId, o.orderId);
    DeliveredOrderRowsAreLineItems(orders, items, customers, payments, o, c);
  }

  /** One delivered order with two line items and a payment total of 10.0: the
      customer's frequency is 1, but its monetary value is 20.0. */
  lemma TwoLineItemsCountTwice()
    ensures var o := Order("o1", "c1", DeliveredStatus, 0);
      var c := Customer("c1", "u1");
      var rows := [JoinedRow(o, OrderItem("o1", 1), c, 10.0), JoinedRow(o, OrderItem("o1", 2), c, 10.0)];
      && CustomerRows(rows, "u1") == rows
      && CustomerRfm(rows, SecondsPerDay, "u1") == RfmRow("u1", 1, 1, 20.0)
  {
    var o := Order("o1", "c1", DeliveredStatus, 0);
    var c := Customer("c1", "u1");
    var rows := [JoinedRow(o, OrderItem("o1", 1), c, 10.0), JoinedRow(o, OrderItem("o1", 2), c, 10.0)];
    assert CustomerRows(rows, "u1") == rows;
    var row := CustomerRfm(rows, SecondsPerDay, "u1");
    assert LatestPurchase(rows) == 0 by {
      assert rows[1..] == [rows[1]];
    }
    FrequencyCountsDistinctOrders(rows, SecondsPerDay, "u1");
    assert OrdersOf(rows) == {"o1"};
    var money := Column(rows, MonetaryEntry);
    assert money == [Entry("u1", 10.0), Entry("u1", 10.0)];
    assert money[1..] == [money[1]] && money[1..][1..] == [];
    assert Total(money[1..]) == 10.0 + Total([]);
    assert Total(money) == 20.0;
    assert row.recency == 1 && row.frequency == 1 && row.monetary == 20.0;
  }

  // ---------------------------------------------------------------------------
  // Monetary conservation
  // ---------------------------------------------------------------------------

  /** Sum of the monetary column. */
  function TotalMonetary(rfm: seq<RfmRow>): real
  {
    if rfm == [] then 0.0 else rfm[0].monetary + TotalMonetary(rfm[1..])
  }

  lemma {:induction false} TotalMonetaryRows(ks: seq<string>, rows: seq<JoinedRow>, snapshot: int)
    requires forall k :: k in ks ==> CustomerRows(rows, k) != []
    ensures TotalMonetary(RfmRows(ks, rows, snapshot)) == SumOverKeys(ks, Column(rows, MonetaryEntry))
    decreases |ks|
  {
    if ks != [] {
      assert ks[0] in ks;
      assert forall k :: k in ks[1..] ==> k in ks;
      MonetarySumsCustomerRows(rows, snapshot, ks[0]);
      assert RfmRows(ks, rows, snapshot)[1..] == RfmRows(ks[1..], rows, snapshot);
      TotalMonetaryRows(ks[1..], rows, snapshot);
    }
  }

  /** The RFM table's monetary column adds up to the payment column of the rows it
      was built from: every row's payment lands in exactly one customer. */
  lemma RfmConservesPayments(rows: seq<JoinedRow>)
    ensures TotalMonetary(RfmTable(rows)) == Total(Column(rows, MonetaryEntry))
  {
    if rows != [] {
      var es := Column(rows, MonetaryEntry);
      var ks := GroupKeys(rows);
      UniqueIdKeys(rows, ks);
      forall e | e in es
        ensures e.key in ks
      {
        var k :| 0 <= k < |es| && es[k] == e;
        assert rows[k] in rows;
      }
      TotalMonetaryRows(ks, rows, SnapshotDate(rows));
      TotalGroupRows(ks, es);
      GroupTotalsConserve(ks, es);
    }
  }
}
