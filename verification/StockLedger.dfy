/** Movement types and what they do to a product's stock. */
module StockLedger {

  datatype MoveType = IN | OUT | RETURN | ADJUSTMENT | UnknownType(text: string)

  /** Change of stock a ledger row stands for. */
  function Delta(mtype: MoveType, quantity: int): int {
    match mtype
    case IN | RETURN | ADJUSTMENT => quantity
    case OUT => -quantity
    case UnknownType(_) => 0
  }

  function Max(a: int, b: int): int {
    if a >= b then a else b
  }
}
