/** The ranking step: a stable sort of bids, highest amount first. The engine's
    comparator subtracts amounts, and only the sign of that difference matters, so the
    sort is modelled on amount comparisons. Stability is what ECMAScript 2019 and later
    require of `Array.prototype.sort`. */
module Ranking {
  import opened Types

  /** Amounts never increase along `s`. */
  ghost predicate SortedDesc(s: seq<Bid>) {
    forall i, j :: 0 <= i < j < |s| ==> s[i].amount >= s[j].amount
  }

  /** The bids of `s` whose amount is exactly `v`, in their order in `s`. A sort is
      stable when it keeps every one of these subsequences. */
  function WithAmount(s: seq<Bid>, v: real): seq<Bid> {
    if |s| == 0 then []
    else (if s[0].amount == v then [s[0]] else []) + WithAmount(s[1..], v)
  }

  /** Selecting one amount distributes over concatenation. */
  lemma {:induction false} WithAmountConcat(a: seq<Bid>, b: seq<Bid>, v: real)
    ensures WithAmount(a + b, v) == WithAmount(a, v) + WithAmount(b, v)
  {
    if |a| == 0 {
      assert a + b == b;
    } else {
      var head := if a[0].amount == v then [a[0]] else [];
      calc {
        WithAmount(a + b, v);
        { assert (a + b)[0] == a[0]; assert (a + b)[1..] == a[1..] + b; }
        head + WithAmount(a[1..] + b, v);
        { WithAmountConcat(a[1..], b, v); }
        head + (WithAmount(a[1..], v) + WithAmount(b, v));
      }
    }
  }

  /** Puts `x` into the sorted `t` in front of every bid it does not fall below, so that
      `x` precedes the bids of equal amount in `t`. */
  function Insert(x: Bid, t: seq<Bid>): (r: seq<Bid>)
    requires SortedDesc(t)
    ensures SortedDesc(r)
    ensures multiset(r) == multiset(t) + multiset{x}
    ensures r[0] == x || (|t| > 0 && r[0] == t[0])
  {
    if |t| == 0 || x.amount >= t[0].amount then [x] + t
    else
      var rest := Insert(x, t[1..]);
      var r := [t[0]] + rest;
      assert t[0].amount >= rest[0].amount;
      assert SortedDesc(r) by {
        forall i, j | 0 <= i < j < |r|
          ensures r[i].amount >= r[j].amount
        {
          assert r[j] == rest[j - 1];
          if i == 0 {
            assert rest[0].amount >= rest[j - 1].amount;
          } else {
            assert r[i] == rest[i - 1];
          }
        }
      }
      assert multiset(r) == multiset(t) + multiset{x} by {
        assert t == [t[0]] + t[1..];
      }
      r
  }

  /** Insertion is stable: among the bids of `x`'s amount, `x` comes first and the
      others keep their order. */
  lemma {:induction false} InsertStable(x: Bid, t: seq<Bid>, v: real)
    requires SortedDesc(t)
    ensures WithAmount(Insert(x, t), v) == (if x.amount == v then [x] else []) + WithAmount(t, v)
  {
    var r := Insert(x, t);
    if |t| == 0 || x.amount >= t[0].amount {
      assert r[0] == x && r[1..] == t;
    } else {
      var rest := Insert(x, t[1..]);
      assert r[0] == t[0] && r[1..] == rest;
      InsertStable(x, t[1..], v);
      assert WithAmount(t, v) == (if t[0].amount == v then [t[0]] else []) + WithAmount(t[1..], v);
    }
  }

  /** The stable descending sort: insertion of each bid, front to back, into the sorted
      remainder. */
  function SortByAmountDesc(s: seq<Bid>): (r: seq<Bid>)
    ensures SortedDesc(r)
    ensures multiset(r) == multiset(s)
    ensures forall v :: WithAmount(r, v) == WithAmount(s, v)
  {
    if |s| == 0 then []
    else
      assert s == [s[0]] + s[1..];
      var rest := SortByAmountDesc(s[1..]);
      forall v ensures WithAmount(Insert(s[0], rest), v) == WithAmount(s, v) {
        InsertStable(s[0], rest, v);
      }
      Insert(s[0], rest)
  }

  /** The head of the ranking is the earliest bid of `s` that carries the top amount:
      a tie at the top goes to the bid that came first. */
  lemma SortedHeadIsEarliestTop(s: seq<Bid>)
    requires |s| > 0
    ensures var r := SortByAmountDesc(s);
      && r[0] in s
      && (forall b :: b in s ==> b.amount <= r[0].amount)
      && |WithAmount(s, r[0].amount)| > 0
      && r[0] == WithAmount(s, r[0].amount)[0]
  {
    var r := SortByAmountDesc(s);
    assert r[0] in multiset(r);
    forall b | b in s
      ensures b.amount <= r[0].amount
    {
      assert b in multiset(s);
      var k :| 0 <= k < |r| && r[k] == b;
    }
    assert WithAmount(r, r[0].amount) == [r[0]] + WithAmount(r[1..], r[0].amount);
  }

  /** In a run of bids all owned by `id`, the bids of amount `m` are owned by `id`, and
      there is one exactly when some bid of the run has amount `m`. */
  lemma {:induction false} WithAmountOfOwned(s: seq<Bid>, id: Id, m: real)
    requires forall k :: 0 <= k < |s| ==> s[k].bidderId == id
    ensures forall k :: 0 <= k < |WithAmount(s, m)| ==> WithAmount(s, m)[k].bidderId == id
    ensures |WithAmount(s, m)| > 0 <==> exists k :: 0 <= k < |s| && s[k].amount == m
  {
    if |s| > 0 {
      WithAmountOfOwned(s[1..], id, m);
      if s[0].amount != m {
        forall k | 0 <= k < |s| && s[k].amount == m
          ensures s[1..][k - 1].amount == m
        {
        }
      }
    }
  }
}
