/** The auction component (src/components/AuctionUI.tsx): its private copy of the
    engine, and the pure updates of the bidder list hidden in its event handlers. */
module AuctionUI {
  import opened Wrappers
  import opened Types
  import opened Bids
  import opened Ranking
  import VickreyAuction

  // ---------------------------------------------------------------------------
  // The engine class, copied verbatim into the component.

  /** An instance of the component's own copy of the engine: its reserve price. */
  datatype Auction = Auction(reservePrice: real)

  /** The copied constructor: it accepts exactly the reserves the domain one accepts. */
  function NewAuction(reservePrice: real): (r: Result<Auction, string>)
    ensures r.Success? <==> VickreyAuction.NewAuction(reservePrice).Success?
    ensures r.Success? ==> r.value.reservePrice == reservePrice
    ensures r.Failure? ==> r.error == VickreyAuction.NewAuction(reservePrice).error
  {
    if reservePrice < 0.0 then Failure("Reserve price cannot be negative")
    else Success(Auction(reservePrice))
  }

  /** The copied allocation rule: for every reserve and bidder list it yields what the
      domain engine yields. */
  function DetermineWinner(a: Auction, bidders: seq<Bidder>): (r: AuctionResult)
    ensures r == VickreyAuction.DetermineWinner(VickreyAuction.Auction(a.reservePrice), bidders)
  {
    if |bidders| == 0 then NoWinner
    else
      var validBids := SortByAmountDesc(Qualifying(Flatten(bidders), a.reservePrice));
      if |validBids| == 0 then NoWinner
      else
        var winner := validBids[0].bidderId;
        var second := FirstNotOwnedBy(validBids, winner);
        AuctionResult(Some(winner), Some(if second.Some? then second.value.amount else a.reservePrice))
  }

  /** The copy meets the engine's contract. */
  lemma EmbeddedEngineMeetsContract(a: Auction, bidders: seq<Bidder>)
    ensures VickreyAuction.IsVickreyOutcome(QualifyingBids(bidders, a.reservePrice), a.reservePrice,
                                            DetermineWinner(a, bidders))
  {
  }

  // ---------------------------------------------------------------------------
  // The bidder list and its updates.

  /** The list the component starts with: bidders A and B, no bids. */
  const InitialBidders: seq<Bidder> := [Bidder([65], []), Bidder([66], [])]

  /** Every bid on the list is strictly positive. */
  ghost predicate AllBidsPositive(bidders: seq<Bidder>) {
    forall i, x :: 0 <= i < |bidders| && x in bidders[i].bids ==> x > 0.0
  }

  /** The one-character string for a character code: a single UTF-16 code unit, the code
      reduced modulo 2^16. */
  function FromCharCode(code: nat): (r: Id)
    ensures |r| == 1
    ensures code < 0x1_0000 ==> r == [code]
  {
    [code % 0x1_0000]
  }

  /** Character codes 2^16 apart give the same string. */
  lemma FromCharCodeWraps(code: nat)
    ensures FromCharCode(code + 0x1_0000) == FromCharCode(code)
  {
  }

  /** Adding a bidder: appends a bidder without bids whose id is the character with code
      65 plus the current length, leaving the others as they were. */
  function AddBidder(bidders: seq<Bidder>): (r: seq<Bidder>)
    ensures |r| == |bidders| + 1
    ensures r[..|bidders|] == bidders
    ensures r[|bidders|].bids == [] && r[|bidders|].id == FromCharCode(65 + |bidders|)
    ensures |bidders| < 26 ==> r[|bidders|].id == [65 + |bidders|]
    ensures Placed(r) == Placed(bidders)
    ensures AllBidsPositive(bidders) ==> AllBidsPositive(r)
  {
    var r := bidders + [Bidder(FromCharCode(65 + |bidders|), [])];
    assert forall i :: 0 <= i < |bidders| ==> r[i] == bidders[i];
    assert Placed(r) == Placed(bidders) by {
      forall b | b in Placed(r) ensures b in Placed(bidders) {
        var i, x :| 0 <= i < |r| && x in r[i].bids && b == Bid(x, r[i].id);
      }
      forall b | b in Placed(bidders) ensures b in Placed(r) {
        var i, x :| 0 <= i < |bidders| && x in bidders[i].bids && b == Bid(x, bidders[i].id);
        assert r[i] == bidders[i];
      }
    }
    r
  }

  /** Removing a bidder: keeps exactly the bidders whose id differs from `id`. */
  function RemoveBidder(bidders: seq<Bidder>, id: Id): (r: seq<Bidder>)
    ensures forall b :: b in r <==> b in bidders && b.id != id
    ensures |r| <= |bidders|
    ensures AllBidsPositive(bidders) ==> AllBidsPositive(r)
  {
    if |bidders| == 0 then []
    else
      var r := (if bidders[0].id != id then [bidders[0]] else []) + RemoveBidder(bidders[1..], id);
      assert forall b :: b in bidders <==> b == bidders[0] || b in bidders[1..] by {
        assert bidders == [bidders[0]] + bidders[1..];
      }
      assert AllBidsPositive(bidders) ==> AllBidsPositive(r) by {
        if AllBidsPositive(bidders) {
          forall i, x | 0 <= i < |r| && x in r[i].bids ensures x > 0.0 {
            assert r[i] in bidders;
            var k :| 0 <= k < |bidders| && bidders[k] == r[i];
          }
        }
      }
      r
  }

  /** Adding a bid once the draft text has been parsed (`None` is NaN): a missing
      or non-positive amount changes nothing; a positive one is appended to the bids of
      every bidder with that id, and the list keeps its length and its other bidders. */
  function AddBid(bidders: seq<Bidder>, bidderId: Id, parsed: Option<real>): (r: seq<Bidder>)
    ensures (parsed.None? || parsed.value <= 0.0) ==> r == bidders
    ensures |r| == |bidders|
    ensures forall i :: 0 <= i < |r| ==> r[i].id == bidders[i].id
    ensures forall i :: 0 <= i < |r| && bidders[i].id != bidderId ==> r[i] == bidders[i]
    ensures parsed.Some? && parsed.value > 0.0 ==>
      forall i :: 0 <= i < |r| && bidders[i].id == bidderId ==> r[i].bids == bidders[i].bids + [parsed.value]
    ensures AllBidsPositive(bidders) ==> AllBidsPositive(r)
  {
    if parsed.None? then bidders
    else if parsed.value <= 0.0 then bidders
    else
      var amount := parsed.value;
      var r := seq(|bidders|, i requires 0 <= i < |bidders| =>
                 if bidders[i].id == bidderId then Bidder(bidders[i].id, bidders[i].bids + [amount])
                 else bidders[i]);
      assert AllBidsPositive(bidders) ==> AllBidsPositive(r) by {
        if AllBidsPositive(bidders) {
          forall i, x | 0 <= i < |r| && x in r[i].bids ensures x > 0.0 {
            assert x in bidders[i].bids || x == amount;
          }
        }
      }
      r
  }

  /** Running the auction: constructs the copied engine with the current reserve and evaluates
      the current list; a negative reserve makes the constructor throw. */
  function RunAuction(reservePrice: real, bidders: seq<Bidder>): (r: Result<AuctionResult, string>)
    ensures r.Failure? <==> reservePrice < 0.0
    ensures r.Success? ==>
      VickreyAuction.IsVickreyOutcome(QualifyingBids(bidders, reservePrice), reservePrice, r.value)
  {
    match NewAuction(reservePrice)
    case Failure(e) => Failure(e)
    case Success(a) =>
      EmbeddedEngineMeetsContract(a, bidders);
      Success(DetermineWinner(a, bidders))
  }

  // ---------------------------------------------------------------------------
  // Properties of the list updates.

  /** The starting list is what adding two bidders to an empty list produces. */
  lemma InitialBiddersFromAddBidder()
    ensures AddBidder(AddBidder([])) == InitialBidders
  {
  }

  /** Removal keeps the survivors in their order: it works piece by piece. */
  lemma {:induction false} RemoveBidderConcat(x: seq<Bidder>, y: seq<Bidder>, id: Id)
    ensures RemoveBidder(x + y, id) == RemoveBidder(x, id) + RemoveBidder(y, id)
  {
    if |x| == 0 {
      assert x + y == y;
    } else {
      assert (x + y)[0] == x[0] && (x + y)[1..] == x[1..] + y;
      RemoveBidderConcat(x[1..], y, id);
    }
  }

  /** Removing an id nobody has changes nothing. */
  lemma {:induction false} RemoveAbsentBidder(bidders: seq<Bidder>, id: Id)
    requires forall i :: 0 <= i < |bidders| ==> bidders[i].id != id
    ensures RemoveBidder(bidders, id) == bidders
  {
    if |bidders| > 0 {
      RemoveAbsentBidder(bidders[1..], id);
      assert bidders == [bidders[0]] + bidders[1..];
    }
  }

  /** Removing the bidder just added restores the list, provided its id was new. */
  lemma RemoveBidderUndoesAddBidder(bidders: seq<Bidder>)
    requires forall i :: 0 <= i < |bidders| ==> bidders[i].id != FromCharCode(65 + |bidders|)
    ensures RemoveBidder(AddBidder(bidders), FromCharCode(65 + |bidders|)) == bidders
  {
    var id := FromCharCode(65 + |bidders|);
    var added := AddBidder(bidders);
    assert added == bidders + [Bidder(id, [])];
    RemoveBidderConcat(bidders, [Bidder(id, [])], id);
    RemoveAbsentBidder(bidders, id);
    assert RemoveBidder([Bidder(id, [])], id) == [];
  }

  /** Ids are not unique: remove bidder A from the starting list, add a bidder, and
      two bidders are called B. */
  lemma DuplicateIdAfterRemove()
    ensures AddBidder(RemoveBidder(InitialBidders, [65])) == [Bidder([66], []), Bidder([66], [])]
  {
    assert RemoveBidder(InitialBidders, [65]) == [Bidder([66], [])] by {
      assert InitialBidders[1..] == [Bidder([66], [])];
      assert InitialBidders[1..][1..] == [];
    }
  }

  /** Adding a bidder, who has no bids, does not change the outcome of the auction. */
  lemma AddBidderKeepsOutcome(a: VickreyAuction.Auction, bidders: seq<Bidder>)
    ensures VickreyAuction.DetermineWinner(a, AddBidder(bidders)) == VickreyAuction.DetermineWinner(a, bidders)
  {
    var newcomer := Bidder(FromCharCode(65 + |bidders|), []);
    assert AddBidder(bidders) == bidders + [newcomer];
    FlattenConcat(bidders, [newcomer]);
    assert Flatten([newcomer]) == TagBids(newcomer) + Flatten([]);
    assert Flatten(bidders + [newcomer]) == Flatten(bidders);
  }

  /** An accepted bid adds exactly one placed bid, when its bidder is on the list; a
      rejected one adds none. */
  lemma AddBidPlaced(bidders: seq<Bidder>, bidderId: Id, parsed: Option<real>)
    ensures var accepted := parsed.Some? && parsed.value > 0.0
                            && exists i :: 0 <= i < |bidders| && bidders[i].id == bidderId;
      Placed(AddBid(bidders, bidderId, parsed))
        == Placed(bidders) + (if accepted then {Bid(parsed.value, bidderId)} else {})
  {
    var r := AddBid(bidders, bidderId, parsed);
    if parsed.Some? && parsed.value > 0.0 {
      var amount := parsed.value;
      forall b | b in Placed(r)
        ensures b in Placed(bidders) || b == Bid(amount, bidderId)
      {
        var i, x :| 0 <= i < |r| && x in r[i].bids && b == Bid(x, r[i].id);
        if x !in bidders[i].bids {
          assert bidders[i].id == bidderId;
        }
      }
      forall b | b in Placed(bidders)
        ensures b in Placed(r)
      {
        var i, x :| 0 <= i < |bidders| && x in bidders[i].bids && b == Bid(x, bidders[i].id);
        assert x in r[i].bids;
      }
      if exists i :: 0 <= i < |bidders| && bidders[i].id == bidderId {
        var i :| 0 <= i < |bidders| && bidders[i].id == bidderId;
        assert amount in r[i].bids;
        assert Bid(amount, bidderId) in Placed(r);
      } else {
        assert Bid(amount, bidderId) !in Placed(r);
      }
    }
  }

  // ---------------------------------------------------------------------------
  // Sessions: the list after any sequence of clicks.

  /** One click that changes the bidder list; `parsed` is the draft text read as a
      number, `None` when it is not one. */
  datatype Action = AddBidderClick | RemoveBidderClick(id: Id) | AddBidClick(bidderId: Id, parsed: Option<real>)

  function Apply(bidders: seq<Bidder>, action: Action): seq<Bidder> {
    match action
    case AddBidderClick => AddBidder(bidders)
    case RemoveBidderClick(id) => RemoveBidder(bidders, id)
    case AddBidClick(id, parsed) => AddBid(bidders, id, parsed)
  }

  /** The list after the given clicks, starting from the initial list. */
  function Replay(actions: seq<Action>): seq<Bidder> {
    if |actions| == 0 then InitialBidders
    else Apply(Replay(actions[..|actions| - 1]), actions[|actions| - 1])
  }

  /** Every amount the component ever hands to the engine is strictly positive. */
  lemma {:induction false} SessionBidsArePositive(actions: seq<Action>)
    ensures forall b :: b in Placed(Replay(actions)) ==> b.amount > 0.0
  {
    SessionKeepsBidsPositive(actions);
    var bidders := Replay(actions);
    forall b | b in Placed(bidders) ensures b.amount > 0.0 {
      var i, x :| 0 <= i < |bidders| && x in bidders[i].bids && b == Bid(x, bidders[i].id);
    }
  }

  /** Every list update keeps all bids positive, starting from a list without bids. */
  lemma {:induction false} SessionKeepsBidsPositive(actions: seq<Action>)
    ensures AllBidsPositive(Replay(actions))
  {
    if |actions| > 0 {
      SessionKeepsBidsPositive(actions[..|actions| - 1]);
    }
  }
}
