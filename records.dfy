/** The records the prize-curve engine reads and produces. */
module Records {

  /**
   * One rank of the dense curve. `sponsored` stands for the optional `sponsored: true`
   * property: false where the JavaScript object has no such property.
   */
  datatype Position = Position(position: int, cost: int, name: string, sponsored: bool)

  /**
   * The sparse value map: numeric anchor keys plus the distinguished `last` key,
   * kept as its own field.
   */
  datatype Values = Values(anchors: map<int, real>, last: real)

  /** A sponsored bottle as the caller supplies it. */
  datatype Bottle = Bottle(name: string, price: int)
}
