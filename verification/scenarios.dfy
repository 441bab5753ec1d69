/** Worked auctions: the outcomes the rule gives on small inputs. Ids are the
    one-letter strings "A" (code 65) and "B" (code 66). */
module Scenarios {
  import opened Wrappers
  import opened Types
  import opened VickreyAuction
  import Bids
  import Ranking

  const A: Id := [65]
  const B: Id := [66]

  /** A negative reserve is refused at construction; zero is accepted. */
  lemma ConstructorScenarios()
    ensures NewAuction(-0.01) == Failure("Reserve price cannot be negative")
    ensures NewAuction(0.0) == Success(Auction(0.0))
  {
  }

  /** A lone qualifying bid pays the reserve. */
  lemma SingleQualifyingBid()
    ensures DetermineWinner(Auction(100.0), [Bidder(A, [150.0])]) == AuctionResult(Some(A), Some(100.0))
  {
  }

  /** Two bidders: the higher wins and pays the lower bid. */
  lemma TwoBidders()
    ensures DetermineWinner(Auction(100.0), [Bidder(A, [150.0]), Bidder(B, [120.0])])
            == AuctionResult(Some(A), Some(120.0))
  {
    var bidders := [Bidder(A, [150.0]), Bidder(B, [120.0])];
    var x, y := Bid(150.0, A), Bid(120.0, B);
    RankedPair(bidders[0], bidders[1], 100.0);
    assert Bids.FirstNotOwnedBy([x, y], A) == Some(y) by {
      assert [x, y][1..] == [y];
    }
    assert DetermineWinner(Auction(100.0), bidders) == Resolve([x, y], 100.0);
  }

  /** The winner's own second bid does not set the price; a bid under the reserve does
      not either, so the reserve is paid. */
  lemma SameBidderDominates()
    ensures DetermineWinner(Auction(50.0), [Bidder(A, [200.0, 180.0]), Bidder(B, [40.0])])
            == AuctionResult(Some(A), Some(50.0))
  {
    var x, y := Bid(200.0, A), Bid(180.0, A);
    SameBidderRanking();
    assert Bids.FirstNotOwnedBy([x, y], A) == None by {
      assert forall k :: 0 <= k < |[x, y]| ==> [x, y][k].bidderId == A;
    }
    assert DetermineWinner(Auction(50.0), [Bidder(A, [200.0, 180.0]), Bidder(B, [40.0])])
           == Resolve([x, y], 50.0);
  }

  /** The ranking in `SameBidderDominates`: B's bid is dropped, A's two stay in order. */
  lemma SameBidderRanking()
    ensures Ranked([Bidder(A, [200.0, 180.0]), Bidder(B, [40.0])], 50.0) == [Bid(200.0, A), Bid(180.0, A)]
  {
    var x, y, z := Bid(200.0, A), Bid(180.0, A), Bid(40.0, B);
    FlattenPair(Bidder(A, [200.0, 180.0]), Bidder(B, [40.0]));
    assert Bids.Flatten([Bidder(A, [200.0, 180.0]), Bidder(B, [40.0])]) == [x, y, z] by {
      assert Bids.TagBids(Bidder(A, [200.0, 180.0])) == [x, y];
      assert Bids.TagBids(Bidder(B, [40.0])) == [z];
    }
    QualifyingDropsLast(x, y, z, 50.0);
    SortPair(x, y);
  }

  /** A bid equal to the reserve qualifies. */
  lemma BidAtReserve()
    ensures DetermineWinner(Auction(100.0), [Bidder(A, [100.0])]) == AuctionResult(Some(A), Some(100.0))
  {
  }

  /** Nothing reaches the reserve: no winner, no price. */
  lemma AllBelowReserve()
    ensures DetermineWinner(Auction(100.0), [Bidder(A, [99.0]), Bidder(B, [])]) == NoWinner
  {
  }

  /** An exact tie goes to the bidder listed first, who pays the tied amount. */
  lemma TieAtTheTop()
    ensures DetermineWinner(Auction(50.0), [Bidder(B, [80.0]), Bidder(A, [80.0])])
            == AuctionResult(Some(B), Some(80.0))
  {
    var bidders := [Bidder(B, [80.0]), Bidder(A, [80.0])];
    var x, y := Bid(80.0, B), Bid(80.0, A);
    RankedPair(bidders[0], bidders[1], 50.0);
    assert Bids.FirstNotOwnedBy([x, y], B) == Some(y) by {
      assert [x, y][1..] == [y];
    }
    assert DetermineWinner(Auction(50.0), bidders) == Resolve([x, y], 50.0);
  }

  // Evaluation steps shared by the scenarios.

  /** Two bidders with one qualifying bid each, the first at least the second, are
      ranked in list order. */
  lemma RankedPair(u: Bidder, v: Bidder, reserve: real)
    requires |u.bids| == 1 && |v.bids| == 1
    requires u.bids[0] >= v.bids[0] >= reserve
    ensures Ranked([u, v], reserve) == [Bid(u.bids[0], u.id), Bid(v.bids[0], v.id)]
  {
    var x, y := Bid(u.bids[0], u.id), Bid(v.bids[0], v.id);
    FlattenPair(u, v);
    assert Bids.TagBids(u) == [x] && Bids.TagBids(v) == [y];
    QualifyingPair(x, y, reserve);
    SortPair(x, y);
  }

  lemma FlattenPair(u: Bidder, v: Bidder)
    ensures Bids.Flatten([u, v]) == Bids.TagBids(u) + Bids.TagBids(v)
  {
    assert [u, v][1..] == [v] && [v][1..] == [];
    assert Bids.Flatten([v]) == Bids.TagBids(v) + [];
    assert Bids.TagBids(v) + [] == Bids.TagBids(v);
  }

  lemma QualifyingPair(x: Bid, y: Bid, reserve: real)
    requires x.amount >= reserve && y.amount >= reserve
    ensures Bids.Qualifying([x, y], reserve) == [x, y]
  {
    assert [x, y][1..] == [y];
    assert [y][1..] == [];
  }

  lemma QualifyingDropsLast(x: Bid, y: Bid, z: Bid, reserve: real)
    requires x.amount >= reserve && y.amount >= reserve && z.amount < reserve
    ensures Bids.Qualifying([x, y, z], reserve) == [x, y]
  {
    assert [x, y, z][1..] == [y, z] && [y, z][1..] == [z] && [z][1..] == [];
    assert Bids.Qualifying([z], reserve) == [];
    assert Bids.Qualifying([y, z], reserve) == [y];
  }

  /** Two bids already in order stay in order, ties included. */
  lemma SortPair(x: Bid, y: Bid)
    requires x.amount >= y.amount
    ensures Ranking.SortByAmountDesc([x, y]) == [x, y]
  {
    assert [x, y][1..] == [y];
    assert [y][1..] == [];
  }
}
