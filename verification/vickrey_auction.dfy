/** The sealed-bid second-price allocation rule (src/domain/VickreyAuction.ts). */
module VickreyAuction {
  import opened Wrappers
  import opened Types
  import opened Bids
  import opened Ranking

  /** An engine instance: the reserve price fixed at construction. */
  datatype Auction = Auction(reservePrice: real)

  /** The message of the error the constructor throws. */
  const NegativeReserve := "Reserve price cannot be negative"

  /** The constructor: a negative reserve is rejected, any other is kept as given. */
  function NewAuction(reservePrice: real): (r: Result<Auction, string>)
    ensures r.Success? <==> reservePrice >= 0.0
    ensures r.Success? ==> r.value.reservePrice == reservePrice
    ensures r.Failure? ==> r.error == NegativeReserve
  {
    if reservePrice < 0.0 then Failure(NegativeReserve) else Success(Auction(reservePrice))
  }

  // ---------------------------------------------------------------------------
  // What a second-price outcome is, stated over the pool of qualifying bids
  // without reference to any ranking.

  /** `b` is a highest bid of `pool`. */
  ghost predicate IsTop(pool: set<Bid>, b: Bid) {
    b in pool && forall c :: c in pool ==> c.amount <= b.amount
  }

  /** Someone other than `w` has a bid in `pool`. */
  ghost predicate HasRival(pool: set<Bid>, w: Id) {
    exists c :: c in pool && c.bidderId != w
  }

  /** `p` is the highest amount bid in `pool` by anyone other than `w`. */
  ghost predicate IsTopRivalAmount(pool: set<Bid>, w: Id, p: real) {
    && (exists c :: c in pool && c.bidderId != w && c.amount == p)
    && (forall d :: d in pool && d.bidderId != w ==> d.amount <= p)
  }

  /** The price `w` pays: the best rival bid, or the reserve when there is none. */
  ghost predicate IsSecondPrice(pool: set<Bid>, reserve: real, w: Id, p: real) {
    if HasRival(pool, w) then IsTopRivalAmount(pool, w, p) else p == reserve
  }

  /** `r` is a correct outcome for the qualifying bids `pool`: winner and price are both
      present exactly when some bid qualifies; the winner owns a highest bid; the price
      is the best bid of anyone else, or the reserve. */
  ghost predicate IsVickreyOutcome(pool: set<Bid>, reserve: real, r: AuctionResult) {
    && (r.winningBidder.Some? <==> r.winningPrice.Some?)
    && (r.winningBidder.None? <==> pool == {})
    && (r.winningBidder.Some? ==> exists b :: IsTop(pool, b) && b.bidderId == r.winningBidder.value)
    && (r.winningBidder.Some? && r.winningPrice.Some? ==>
          IsSecondPrice(pool, reserve, r.winningBidder.value, r.winningPrice.value))
  }

  // ---------------------------------------------------------------------------
  // The rule as the source computes it.

  /** The qualifying bids, flattened in list order and stably ranked highest first. */
  function Ranked(bidders: seq<Bidder>, reserve: real): (r: seq<Bid>)
    ensures SortedDesc(r)
    ensures Elements(r) == QualifyingBids(bidders, reserve)
  {
    var q := Qualifying(Flatten(bidders), reserve);
    var r := SortByAmountDesc(q);
    assert forall b :: b in r <==> b in q by {
      forall b ensures b in r <==> b in q {
        assert b in r <==> b in multiset(r);
        assert b in q <==> b in multiset(q);
      }
    }
    r
  }

  /** Winner and price read off a ranking: none when it is empty; otherwise the owner
      of the first bid wins and pays the first bid placed by anyone else, or the
      reserve. */
  function Resolve(ranked: seq<Bid>, reserve: real): (r: AuctionResult)
    requires SortedDesc(ranked)
    ensures IsVickreyOutcome(Elements(ranked), reserve, r)
  {
    if |ranked| == 0 then NoWinner
    else
      var winner := ranked[0].bidderId;
      var second := FirstNotOwnedBy(ranked, winner);
      var r := AuctionResult(Some(winner), Some(if second.Some? then second.value.amount else reserve));
      ResolveIsSecondPrice(ranked, reserve, winner, second);
      r
  }

  /** The proof obligations of `Resolve` for a non-empty ranking. */
  lemma ResolveIsSecondPrice(ranked: seq<Bid>, reserve: real, winner: Id, second: Option<Bid>)
    requires SortedDesc(ranked) && |ranked| > 0
    requires winner == ranked[0].bidderId
    requires second == FirstNotOwnedBy(ranked, winner)
    ensures IsTop(Elements(ranked), ranked[0])
    ensures IsSecondPrice(Elements(ranked), reserve, winner,
                          if second.Some? then second.value.amount else reserve)
  {
    RankedHeadIsTop(ranked);
    if second.Some? {
      FirstRivalIsTopRival(ranked, winner, second.value);
    } else {
      var pool := Elements(ranked);
      forall c | c in pool
        ensures c.bidderId == winner
      {
        var j :| 0 <= j < |ranked| && ranked[j] == c;
      }
    }
  }

  /** The head of a ranking is a highest bid. */
  lemma RankedHeadIsTop(ranked: seq<Bid>)
    requires SortedDesc(ranked) && |ranked| > 0
    ensures IsTop(Elements(ranked), ranked[0])
  {
    forall c | c in Elements(ranked)
      ensures c.amount <= ranked[0].amount
    {
      var j :| 0 <= j < |ranked| && ranked[j] == c;
    }
  }

  /** In a ranking, the first bid not owned by `w` is the best bid of anyone but `w`. */
  lemma FirstRivalIsTopRival(ranked: seq<Bid>, w: Id, rival: Bid)
    requires SortedDesc(ranked)
    requires FirstNotOwnedBy(ranked, w) == Some(rival)
    ensures IsTopRivalAmount(Elements(ranked), w, rival.amount)
  {
    var pool := Elements(ranked);
    var k :| 0 <= k < |ranked| && ranked[k] == rival && rival.bidderId != w
             && forall j :: 0 <= j < k ==> ranked[j].bidderId == w;
    assert ranked[k] in pool;
    forall d | d in pool && d.bidderId != w
      ensures d.amount <= rival.amount
    {
      var j :| 0 <= j < |ranked| && ranked[j] == d;
      assert k <= j;
    }
  }

  /** The allocation rule: no bidders means no winner; otherwise the qualifying bids are
      ranked and the second-price rule applied. */
  function DetermineWinner(a: Auction, bidders: seq<Bidder>): (r: AuctionResult)
    ensures IsVickreyOutcome(QualifyingBids(bidders, a.reservePrice), a.reservePrice, r)
  {
    if |bidders| == 0 then NoWinner
    else Resolve(Ranked(bidders, a.reservePrice), a.reservePrice)
  }

  /** The allocation rule when the bidder list may be absent (`None`). */
  function DetermineWinnerNullable(a: Auction, bidders: Option<seq<Bidder>>): (r: AuctionResult)
    ensures bidders.None? ==> r == NoWinner
    ensures bidders.Some? ==> IsVickreyOutcome(QualifyingBids(bidders.value, a.reservePrice), a.reservePrice, r)
  {
    match bidders
    case None => NoWinner
    case Some(bs) => DetermineWinner(a, bs)
  }

  // ---------------------------------------------------------------------------
  // Consequences of the contract.

  /** There is no winner exactly when every placed bid falls strictly below the reserve;
      this covers an empty bidder list and bidders without bids. */
  lemma NoWinnerIffAllBelowReserve(a: Auction, bidders: seq<Bidder>)
    ensures DetermineWinner(a, bidders) == NoWinner <==>
      forall i, x :: 0 <= i < |bidders| && x in bidders[i].bids ==> x < a.reservePrice
  {
    var q := QualifyingBids(bidders, a.reservePrice);
    if forall i, x :: 0 <= i < |bidders| && x in bidders[i].bids ==> x < a.reservePrice {
      assert q == {};
    } else {
      var i, x :| 0 <= i < |bidders| && x in bidders[i].bids && x >= a.reservePrice;
      assert Bid(x, bidders[i].id) in Placed(bidders);
      assert Bid(x, bidders[i].id) in q;
    }
  }

  /** A bid exactly at the reserve qualifies: whoever places it, there is a winner. */
  lemma BidAtReserveQualifies(a: Auction, bidders: seq<Bidder>, i: nat)
    requires i < |bidders| && a.reservePrice in bidders[i].bids
    ensures DetermineWinner(a, bidders).winningBidder.Some?
    ensures DetermineWinner(a, bidders).winningPrice.Some?
  {
    NoWinnerIffAllBelowReserve(a, bidders);
  }

  /** The winner pays at least the reserve and at most the top qualifying bid, which
      is theirs. */
  lemma PriceBounds(a: Auction, bidders: seq<Bidder>)
    ensures var r := DetermineWinner(a, bidders);
      r.winningBidder.Some? ==>
        && r.winningPrice.Some?
        && a.reservePrice <= r.winningPrice.value
        && exists b :: b in QualifyingBids(bidders, a.reservePrice)
                       && b.bidderId == r.winningBidder.value && r.winningPrice.value <= b.amount
  {
    var r := DetermineWinner(a, bidders);
    if r.winningBidder.Some? {
      var q := QualifyingBids(bidders, a.reservePrice);
      var w := r.winningBidder.value;
      var b :| IsTop(q, b) && b.bidderId == w;
      if HasRival(q, w) {
        var c :| c in q && c.bidderId != w && c.amount == r.winningPrice.value;
        assert c.amount <= b.amount;
      }
    }
  }

  /** Ties at the top go to the bidder listed first: the winner is the earliest bidder
      in the list holding a bid of the top qualifying amount. */
  lemma TieGoesToFirstListedBidder(a: Auction, bidders: seq<Bidder>)
    ensures var r := DetermineWinner(a, bidders);
      r.winningBidder.Some? ==>
        exists i, m :: 0 <= i < |bidders| && m in bidders[i].bids && m >= a.reservePrice
                       && bidders[i].id == r.winningBidder.value
                       && (forall b :: b in QualifyingBids(bidders, a.reservePrice) ==> b.amount <= m)
                       && (forall j :: 0 <= j < i ==> m !in bidders[j].bids)
  {
    var ranked := Ranked(bidders, a.reservePrice);
    if |bidders| > 0 && |ranked| > 0 {
      assert DetermineWinner(a, bidders).winningBidder.value == ranked[0].bidderId;
      var i := RankedHeadOwner(bidders, a.reservePrice);
      RankedHeadIsTop(ranked);
    }
  }

  /** The head of the ranking belongs to the first listed bidder holding its amount;
      returns that bidder's index. */
  lemma RankedHeadOwner(bidders: seq<Bidder>, reserve: real) returns (i: nat)
    requires |Ranked(bidders, reserve)| > 0
    ensures var head := Ranked(bidders, reserve)[0];
      && i < |bidders| && head.amount in bidders[i].bids && head.amount >= reserve
      && bidders[i].id == head.bidderId
      && forall j :: 0 <= j < i ==> head.amount !in bidders[j].bids
  {
    var flat := Flatten(bidders);
    var q := Qualifying(flat, reserve);
    var ranked := SortByAmountDesc(q);
    var m := ranked[0].amount;
    assert ranked[0] == WithAmount(q, m)[0] && m >= reserve by {
      SortedHeadIsEarliestTop(q);
    }
    assert WithAmount(q, m) == WithAmount(flat, m) by {
      QualifyingWithAmount(flat, reserve, m);
    }
    FirstOwnerOfAmount(bidders, m);
    i :| 0 <= i < |bidders| && m in bidders[i].bids
         && (forall j :: 0 <= j < i ==> m !in bidders[j].bids)
         && WithAmount(flat, m)[0].bidderId == bidders[i].id;
  }


}
