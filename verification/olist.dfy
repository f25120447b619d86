/** Rows of the four raw Olist tables, reduced to the columns the RFM preprocessing
    reads. Timestamps are whole seconds since an epoch; money is an exact `real`. */
module Olist {

  /** A row of `olist_orders_dataset.csv`. */
  datatype Order = Order(orderId: string, customerId: string, orderStatus: string, purchaseTimestamp: int)

  /** A row of `olist_order_items_dataset.csv`: one line item of an order. */
  datatype OrderItem = OrderItem(orderId: string, orderItemId: int)

  /** A row of `olist_customers_dataset.csv`; `customerUniqueId` identifies a person
      across the per-order `customerId` accounts. */
  datatype Customer = Customer(customerId: string, customerUniqueId: string)

  /** A row of `olist_order_payments_dataset.csv`: one installment of an order's payment. */
  datatype Payment = Payment(orderId: string, paymentValue: real)
}
