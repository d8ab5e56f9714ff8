/**
 * The enumerations of the order application. The order, cart and payment
 * models only declare fields of these types; no code moves between them.
 */
module OrderChoices {

  datatype DeliveryStatus = Pending | OutForDelivery | Delivered | Cancelled

  datatype PaymentMethod = Card | Cash | Paypal | Bkash

  datatype PaymentStatus = PaymentPending | PaymentCompleted | PaymentFailed

  datatype OrderStatus = OrderPending | OrderCompleted | OrderFailed | OrderCancelled

  datatype OrderType = DeliveryOrder | TakeawayOrder
}
