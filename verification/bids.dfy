/** The array steps the engine applies to the bidders before and after ranking them:
    flattening into tagged bids, keeping the bids that reach the reserve, and finding
    the first bid of another owner. */
module Bids {
  import opened Wrappers
  import opened Types
  import Ranking

  /** Every bid the bidders have placed, as (amount, owner) pairs. */
  ghost function Placed(bidders: seq<Bidder>): set<Bid> {
    set i, x | 0 <= i < |bidders| && x in bidders[i].bids :: Bid(x, bidders[i].id)
  }

  /** The placed bids whose amount reaches the reserve (a bid equal to it qualifies). */
  ghost function QualifyingBids(bidders: seq<Bidder>, reserve: real): set<Bid> {
    set b | b in Placed(bidders) && b.amount >= reserve
  }

  /** The bids occurring in `s`. */
  ghost function Elements(s: seq<Bid>): set<Bid> {
    set b | b in s
  }

  /** The bidder's bids, each tagged with the bidder's id, in bid order. */
  function TagBids(bidder: Bidder): (r: seq<Bid>)
    ensures |r| == |bidder.bids|
    ensures forall k :: 0 <= k < |r| ==> r[k] == Bid(bidder.bids[k], bidder.id)
    decreases |bidder.bids|
  {
    if |bidder.bids| == 0 then []
    else [Bid(bidder.bids[0], bidder.id)] + TagBids(Bidder(bidder.id, bidder.bids[1..]))
  }

  /** Every bidder's tagged bids, bidder after bidder in list order. */
  function Flatten(bidders: seq<Bidder>): (r: seq<Bid>)
    ensures forall b :: b in r <==> b in Placed(bidders)
  {
    if |bidders| == 0 then []
    else
      var r := TagBids(bidders[0]) + Flatten(bidders[1..]);
      PlacedCons(bidders);
      r
  }

  /** The bids of the first bidder, then those of the rest. */
  lemma PlacedCons(bidders: seq<Bidder>)
    requires |bidders| > 0
    ensures forall b :: b in Placed(bidders) <==>
      (b.bidderId == bidders[0].id && b.amount in bidders[0].bids) || b in Placed(bidders[1..])
  {
    forall b | b in Placed(bidders[1..])
      ensures b in Placed(bidders)
    {
      var i, x :| 0 <= i < |bidders[1..]| && x in bidders[1..][i].bids && b == Bid(x, bidders[1..][i].id);
      assert bidders[i + 1] == bidders[1..][i];
    }
    forall b | b in Placed(bidders) && !(b.bidderId == bidders[0].id && b.amount in bidders[0].bids)
      ensures b in Placed(bidders[1..])
    {
      var i, x :| 0 <= i < |bidders| && x in bidders[i].bids && b == Bid(x, bidders[i].id);
      assert i != 0;
      assert bidders[1..][i - 1] == bidders[i];
    }
  }

  /** Flattening distributes over concatenation of bidder lists. */
  lemma {:induction false} FlattenConcat(a: seq<Bidder>, b: seq<Bidder>)
    ensures Flatten(a + b) == Flatten(a) + Flatten(b)
  {
    if |a| == 0 {
      assert a + b == b;
    } else {
      assert (a + b)[1..] == a[1..] + b;
      FlattenConcat(a[1..], b);
    }
  }

  /** The bids whose amount is at least the reserve, in their original order. */
  function Qualifying(bids: seq<Bid>, reserve: real): (r: seq<Bid>)
    ensures forall b :: b in r <==> b in bids && b.amount >= reserve
    ensures |r| <= |bids|
  {
    if |bids| == 0 then []
    else (if bids[0].amount >= reserve then [bids[0]] else []) + Qualifying(bids[1..], reserve)
  }

  /** Filtering against the reserve keeps every bid of a qualifying amount. */
  lemma {:induction false} QualifyingWithAmount(s: seq<Bid>, reserve: real, v: real)
    requires v >= reserve
    ensures Ranking.WithAmount(Qualifying(s, reserve), v) == Ranking.WithAmount(s, v)
  {
    if |s| > 0 {
      var head := if s[0].amount >= reserve then [s[0]] else [];
      QualifyingWithAmount(s[1..], reserve, v);
      Ranking.WithAmountConcat(head, Qualifying(s[1..], reserve), v);
      assert Ranking.WithAmount(head, v) == (if s[0].amount == v then [s[0]] else []) by {
        if |head| > 0 { assert head[1..] == []; }
      }
    }
  }

  /** The first bid of amount `m` in flatten order belongs to the first listed bidder
      who bid `m`. */
  lemma {:induction false} FirstOwnerOfAmount(bidders: seq<Bidder>, m: real)
    requires |Ranking.WithAmount(Flatten(bidders), m)| > 0
    ensures exists i :: 0 <= i < |bidders| && m in bidders[i].bids
                        && (forall j :: 0 <= j < i ==> m !in bidders[j].bids)
                        && Ranking.WithAmount(Flatten(bidders), m)[0].bidderId == bidders[i].id
  {
    if |bidders| == 0 {
    } else {
      var tagged := TagBids(bidders[0]);
      Ranking.WithAmountConcat(tagged, Flatten(bidders[1..]), m);
      Ranking.WithAmountOfOwned(tagged, bidders[0].id, m);
      if m in bidders[0].bids {
        var k :| 0 <= k < |bidders[0].bids| && bidders[0].bids[k] == m;
        assert tagged[k].amount == m;
      } else {
        assert Ranking.WithAmount(tagged, m) == [];
        FirstOwnerOfAmount(bidders[1..], m);
        var i :| 0 <= i < |bidders[1..]| && m in bidders[1..][i].bids
                 && (forall j :: 0 <= j < i ==> m !in bidders[1..][j].bids)
                 && Ranking.WithAmount(Flatten(bidders[1..]), m)[0].bidderId == bidders[1..][i].id;
        assert forall j :: 0 < j < i + 1 ==> bidders[j] == bidders[1..][j - 1];
      }
    }
  }

  /** The first bid owned by someone other than `id`, if there is one. */
  function FirstNotOwnedBy(bids: seq<Bid>, id: Id): (r: Option<Bid>)
    ensures r.None? <==> forall k :: 0 <= k < |bids| ==> bids[k].bidderId == id
    ensures r.Some? ==> exists k :: 0 <= k < |bids| && bids[k] == r.value && r.value.bidderId != id
                                    && forall j :: 0 <= j < k ==> bids[j].bidderId == id
  {
    if |bids| == 0 then None
    else if bids[0].bidderId != id then Some(bids[0])
    else
      var r := FirstNotOwnedBy(bids[1..], id);
      if r.Some? then
        var k :| 0 <= k < |bids[1..]| && bids[1..][k] == r.value && r.value.bidderId != id
                 && forall j :: 0 <= j < k ==> bids[1..][j].bidderId == id;
        assert bids[k + 1] == r.value;
        r
      else r
  }
}
