/** The shapes of the auction's records (src/domain/types.ts). */
module Types {
  import opened Wrappers

  /** A UTF-16 code unit: JavaScript strings are sequences of these. */
  type CodeUnit = x: int | 0 <= x < 0x1_0000

  /** A bidder identifier, a JavaScript string. */
  type Id = seq<CodeUnit>

  /** One bid together with its owner; produced transiently by flattening. */
  datatype Bid = Bid(amount: real, bidderId: Id)

  /** A bidder and the bids they placed, in the order they were placed. */
  datatype Bidder = Bidder(id: Id, bids: seq<real>)

  /** `null` fields are `None`. */
  datatype AuctionResult = AuctionResult(winningBidder: Option<Id>, winningPrice: Option<real>)

  /** `{ winningBidder: null, winningPrice: null }`. */
  const NoWinner := AuctionResult(None, None)
}
