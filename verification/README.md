# Vickrey auction — Dafny model

This project models the allocation rule of a sealed-bid second-price (Vickrey)
auction, as implemented by the `VickreyAuction` class, and the pure bidder-list
updates of the auction screen that feeds it.

- A `Bidder` has an id and an ordered list of bid amounts. An `Auction` holds the
  reserve price fixed when it was constructed.
- The constructor refuses a negative reserve.
- `determineWinner` takes five steps. It flattens the bids into `(amount, owner)`
  pairs and drops those below the reserve. A bid equal to the reserve is kept. It
  stable-sorts the rest, highest first. The owner of the first bid wins and pays
  the first bid in the ranking placed by anyone else, or the reserve when there is
  no such bid.
- The screen keeps its own verbatim copy of the class. It also has three list
  updates: add a bidder, remove a bidder, and add a bid.

Modules, one per source concern:

- `Wrappers`: `Option`, used for JavaScript `null` and for a NaN parse result, and
  `Result`, used for a thrown error.
- `Types`: `Bid`, `Bidder`, `AuctionResult`. Ids are JavaScript strings, modelled
  as sequences of UTF-16 code units.
- `Bids`: the array steps `flatMap`, `filter` and `find`. It also defines the
  ghost sets `Placed` (every placed bid) and `QualifyingBids` (placed bids at or
  above the reserve). The engine's contract is stated over these sets.
- `Ranking`: the sort, `.sort((a, b) => b.amount - a.amount)`. It is modelled as
  a stable insertion sort, because ECMAScript 2019 and later require
  `Array.prototype.sort` to be stable. Its contract has three parts: sorted, a
  permutation, and stable. Stable means that for every amount `v`, the bids of
  amount `v` keep their relative order (`WithAmount`).
- `VickreyAuction`: the constructor and `determineWinner`. It also holds the
  order-free specification `IsVickreyOutcome`, which says:
  - winner and price are both present or both absent;
  - they are absent exactly when nothing qualifies;
  - the winner owns a highest qualifying bid;
  - the price is the highest qualifying bid of any other bidder, or the reserve.
- `AuctionUI`: the embedded copy of the engine, the list updates, and sessions.
  A session is the bidder list after any sequence of clicks, starting from
  bidders A and B.
- `Scenarios`: worked auctions on small inputs.

Amounts are `real`: the engine only compares them. The sort comparator's
subtraction matters only through its sign.

## Model

| member | source | states |
|---|---|---|
| VickreyAuction.NewAuction | src/domain/VickreyAuction.ts:4-8 | construction succeeds exactly when the reserve is not negative and keeps it unchanged; otherwise it fails with "Reserve price cannot be negative" |
| VickreyAuction.DetermineWinner | src/domain/VickreyAuction.ts:10-38 | the result is a Vickrey outcome for the qualifying bids: winner and price both present or both absent, absent exactly when no placed bid reaches the reserve (including no bidders), the winner owns a highest qualifying bid, and the price is the highest qualifying bid of any other bidder or the reserve when there is none |
| VickreyAuction.DetermineWinnerNullable | src/domain/VickreyAuction.ts:10-13 | a `null`/absent bidder list gives `{null, null}`; a present one gives a Vickrey outcome |
| VickreyAuction.Ranked | src/domain/VickreyAuction.ts:15-24 | the ranking is in non-increasing amount order and holds exactly the placed bids whose amount reaches the reserve |
| VickreyAuction.Resolve | src/domain/VickreyAuction.ts:26-37 | reading winner and price off any ranking gives a Vickrey outcome for the bids in that ranking |
| VickreyAuction.ResolveIsSecondPrice | src/domain/VickreyAuction.ts:30-36 | on a non-empty ranking the first bid is a highest bid, and the price picked by `find` or the reserve fallback is the second price for that winner |
| VickreyAuction.RankedHeadIsTop | src/domain/VickreyAuction.ts:30-31 | the first bid of a ranking is at least every bid in it |
| VickreyAuction.FirstRivalIsTopRival | src/domain/VickreyAuction.ts:32-36 | in a ranking, the first bid not owned by the winner is a highest bid among all bids not owned by the winner |
| VickreyAuction.NoWinnerIffAllBelowReserve | src/domain/VickreyAuction.ts:11-28 | the result is `{null, null}` if and only if every placed bid is strictly below the reserve (this covers no bidders and bidders without bids) |
| VickreyAuction.BidAtReserveQualifies | src/domain/VickreyAuction.ts:22-23 | a bid exactly equal to the reserve qualifies: whenever one is placed there is a winner and a price |
| VickreyAuction.PriceBounds | src/domain/VickreyAuction.ts:22-36 | when there is a winner, reserve ≤ price, and the winner holds a qualifying bid at least the price |
| VickreyAuction.TieGoesToFirstListedBidder | src/domain/VickreyAuction.ts:15-31 | the winner is the earliest bidder in the list holding a bid of the top qualifying amount, so exact ties at the top go to the bidder listed first |
| VickreyAuction.RankedHeadOwner | src/domain/VickreyAuction.ts:15-31 | the first bid of the ranking belongs to the first listed bidder who bid its amount, and that amount reaches the reserve |
| Bids.TagBids | src/domain/VickreyAuction.ts:16-19 | one bid per amount of the bidder, in bid order, each tagged with the bidder's id |
| Bids.Flatten | src/domain/VickreyAuction.ts:15-20 | the flattened list holds exactly the bids placed by the bidders, each tagged with its owner's id |
| Bids.FlattenConcat | src/domain/VickreyAuction.ts:15-20 | flattening distributes over concatenation of bidder lists (bidder order is kept) |
| Bids.Qualifying | src/domain/VickreyAuction.ts:22-23 | the filter keeps exactly the bids whose amount is at least the reserve |
| Bids.QualifyingWithAmount | src/domain/VickreyAuction.ts:22-23 | filtering keeps, in order, all bids of any amount at or above the reserve |
| Bids.FirstNotOwnedBy | src/domain/VickreyAuction.ts:32 | `find` returns nothing exactly when every bid is owned by the given id, and otherwise the first bid owned by someone else |
| Bids.FirstOwnerOfAmount | src/domain/VickreyAuction.ts:15-20 | in flatten order, the first bid of a given amount belongs to the first listed bidder who bid that amount |
| Ranking.Insert | src/domain/VickreyAuction.ts:24 | inserting into a sorted ranking keeps it sorted and adds exactly the one bid |
| Ranking.InsertStable | src/domain/VickreyAuction.ts:24 | insertion puts the new bid before the bids of equal amount and keeps their order |
| Ranking.SortByAmountDesc | src/domain/VickreyAuction.ts:24 | the sort's output is in non-increasing amount order, is a permutation of its input, and keeps the relative order of bids of equal amount (stable) |
| Ranking.SortedHeadIsEarliestTop | src/domain/VickreyAuction.ts:24-30 | the first bid after sorting is a highest bid of the input and the earliest bid of that amount in input order |
| AuctionUI.NewAuction | src/components/AuctionUI.tsx:21-26 | the embedded constructor accepts exactly the reserves the domain constructor accepts, with the same error |
| AuctionUI.DetermineWinner | src/components/AuctionUI.tsx:28-56 | the embedded `determineWinner` yields the domain engine's result for every reserve and bidder list |
| AuctionUI.EmbeddedEngineMeetsContract | src/components/AuctionUI.tsx:28-56 | the embedded engine's result is a Vickrey outcome for the qualifying bids |
| AuctionUI.FromCharCode | src/components/AuctionUI.tsx:70 | `String.fromCharCode` gives a one-unit string; codes below 2^16 give that one code unit |
| AuctionUI.FromCharCodeWraps | src/components/AuctionUI.tsx:70 | codes 2^16 apart give the same string (the ToUint16 reduction) |
| AuctionUI.AddBidder | src/components/AuctionUI.tsx:69-72 | adds exactly one bidder at the end, with no bids and id `String.fromCharCode(65 + length)` (code taken modulo 2^16; the letters A–Z for the first 26); earlier bidders and the set of placed bids are unchanged; positivity of all bids is kept |
| AuctionUI.RemoveBidder | src/components/AuctionUI.tsx:74-76 | keeps exactly the bidders whose id differs from the given one (every bidder with that id goes); positivity of all bids is kept |
| AuctionUI.RemoveBidderConcat | src/components/AuctionUI.tsx:74-76 | removal distributes over concatenation, so the surviving bidders keep their original order |
| AuctionUI.RemoveAbsentBidder | src/components/AuctionUI.tsx:74-76 | removing an id no bidder has leaves the list unchanged |
| AuctionUI.RemoveBidderUndoesAddBidder | src/components/AuctionUI.tsx:69-76 | removing the bidder just added restores the previous list whenever the new id was not already in use |
| AuctionUI.DuplicateIdAfterRemove | src/components/AuctionUI.tsx:69-76 | ids are not unique: from the initial list, removing A and then adding a bidder yields two bidders called B |
| AuctionUI.AddBidderKeepsOutcome | src/components/AuctionUI.tsx:69-72 | adding a bidder (who has no bids) never changes the auction's result |
| AuctionUI.AddBid | src/components/AuctionUI.tsx:79-99 | a NaN or non-positive amount leaves the list unchanged; a positive amount is appended to the bids of every bidder with the given id; length, ids and all other bidders are unchanged; positivity of all bids is kept |
| AuctionUI.AddBidPlaced | src/components/AuctionUI.tsx:79-99 | an accepted bid adds exactly the one placed bid `(amount, id)` when a bidder with that id exists, and a rejected one adds none |
| AuctionUI.InitialBiddersFromAddBidder | src/components/AuctionUI.tsx:61-72 | the initial list (A and B without bids) is what two `addBidder` calls on an empty list produce |
| AuctionUI.RunAuction | src/components/AuctionUI.tsx:101-105 | running the auction fails exactly when the reserve is negative and otherwise yields a Vickrey outcome of the current list |
| AuctionUI.SessionKeepsBidsPositive | src/components/AuctionUI.tsx:61-99 | after any sequence of add-bidder, remove-bidder and add-bid clicks, every bid on the list is strictly positive |
| AuctionUI.SessionBidsArePositive | src/components/AuctionUI.tsx:61-105 | every bid the screen hands to the engine has a strictly positive amount |
| Scenarios.ConstructorScenarios | src/domain/VickreyAuction.ts:4-8 | reserve −0.01 is refused with the source's message; reserve 0 is accepted |
| Scenarios.SingleQualifyingBid | src/domain/VickreyAuction.ts:30-36 | reserve 100, A bids 150: A wins and pays the reserve, 100 |
| Scenarios.TwoBidders | src/domain/VickreyAuction.ts:22-36 | reserve 100, A bids 150, B bids 120: A wins and pays 120 |
| Scenarios.SameBidderDominates | src/domain/VickreyAuction.ts:22-36 | reserve 50, A bids 200 and 180, B bids 40: A wins and pays the reserve, 50 |
| Scenarios.BidAtReserve | src/domain/VickreyAuction.ts:22-23 | reserve 100, A bids 100: A wins and pays 100 |
| Scenarios.AllBelowReserve | src/domain/VickreyAuction.ts:22-28 | reserve 100, A bids 99, B has no bids: no winner and no price |
| Scenarios.TieAtTheTop | src/domain/VickreyAuction.ts:22-36 | reserve 50, B then A each bid 80: B, listed first, wins and pays 80 |

## Left out

- Input immutability (the source's `flatMap`, `filter` and `sort` build fresh arrays) holds by construction here. Every value is immutable, so the input list cannot change. Calling `determineWinner` twice gives the same result because it is a function.
- Floating-point semantics are not modelled. Amounts and the reserve are `real`. A NaN reserve passes the `< 0` check, and NaN bids make every comparison false; the model has neither.
- Text parsing is not modelled: `parseFloat` of the draft bid text and `Number(...)` of the reserve field. The parsed bid is an `Option<real>`, and `None` stands for NaN.
- The draft-text map `newBid` enters the model only as the `parsed` argument of `AuctionUI.AddBid`. After an accepted bid the screen clears the draft, so a second click without retyping parses NaN and adds nothing. `AuctionUI.Action.AddBidClick` may carry any parsed value on every click, so sessions over-approximate what the screen allows. The results proved for every session still hold for the screen.
- The error-message map `error` is not modelled. It only drives messages and input styling, and never affects the bidder list.
- React state hooks, rendering, JSX markup, the icons, and `App.tsx` are not modelled. They are presentation.
- Result display and currency formatting are not modelled. For example, a price of 0 is shown as "N/A" because of a truthiness test; that is presentation only.
- The model does not assume bidder ids are unique. The engine compares ids by equality, so bidders sharing an id count as one owner.

## Behaviour worth knowing

- Bidder ids are not unique. `addBidder` builds the id from the list length, so removing a bidder and then adding one can repeat an id (`AuctionUI.DuplicateIdAfterRemove`).
- Bids are flattened in list order and the sort is stable. So an exact tie at the top goes to the bidder listed first (`VickreyAuction.TieGoesToFirstListedBidder`).
