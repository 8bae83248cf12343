/**
 First-come-first-served insertion of id pairs, as mathematics: what a list of pairs leaves in a
 table that refuses every pair sharing an id with one it already holds.
 */
module Matching {
  import opened Common
  import opened Sets

  /** A Matter id and an LwM2M id. */
  type Pair = (int32, int32)

  predicate Conflict(p: Pair, q: Pair) {
    p.0 == q.0 || p.1 == q.1
  }

  /** No id occurs in two pairs: the pairs form a partial bijection. */
  ghost predicate IsMatching(m: set<Pair>) {
    forall p, q :: p in m && q in m && Conflict(p, q) ==> p == q
  }

  ghost function Accept(m: set<Pair>, p: Pair): set<Pair> {
    if exists q :: q in m && Conflict(p, q) then m else m + {p}
  }

  /** What is left of a list of pairs after inserting them in order. */
  ghost function Greedy(ps: seq<Pair>): set<Pair> {
    if ps == [] then {} else Accept(Greedy(ps[..|ps| - 1]), ps[|ps| - 1])
  }

  ghost function Elements(ps: seq<Pair>): set<Pair> {
    set p | p in ps
  }

  // ----- Which pairs survive -----

  /**
   An independent description: the survivors are a matching, and each pair that is refused conflicts
   with a survivor before it.
   */
  ghost predicate FirstComeFirstServed(ps: seq<Pair>, m: set<Pair>) {
    && m <= Elements(ps)
    && IsMatching(m)
    && forall k :: 0 <= k < |ps| && ps[k] !in m ==> exists j :: 0 <= j < k && ps[j] in m && Conflict(ps[j], ps[k])
  }

  lemma {:induction false} GreedyServes(ps: seq<Pair>)
    ensures FirstComeFirstServed(ps, Greedy(ps))
  {
    if ps != [] {
      var qs, p := ps[..|ps| - 1], ps[|ps| - 1];
      GreedyServes(qs);
      assert ps == qs + [p];
      ServesOneMore(qs, Greedy(qs), p);
    }
  }

  /** One more pair is served by accepting it or not. */
  lemma ServesOneMore(qs: seq<Pair>, g: set<Pair>, p: Pair)
    requires FirstComeFirstServed(qs, g)
    ensures FirstComeFirstServed(qs + [p], Accept(g, p))
  {
    var ps, g' := qs + [p], Accept(g, p);
    InElements(qs, [p]);
    AcceptKeepsMatching(g, p);
    forall k | 0 <= k < |ps| && ps[k] !in g'
      ensures exists j :: 0 <= j < k && ps[j] in g' && Conflict(ps[j], ps[k])
    {
      if k < |qs| {
        var j :| 0 <= j < k && qs[j] in g && Conflict(qs[j], qs[k]);
        assert ps[j] == qs[j] && ps[j] in g';
      } else {
        var q :| q in g && Conflict(p, q);
        assert q in Elements(qs);
        var j :| 0 <= j < |qs| && qs[j] == q;
        assert ps[j] in g' && Conflict(ps[j], ps[k]);
      }
    }
  }

  lemma AcceptKeepsMatching(g: set<Pair>, p: Pair)
    requires IsMatching(g)
    ensures IsMatching(Accept(g, p)) && g <= Accept(g, p)
  {
  }

  /** A pair refused by one such table is refused by every other that agrees on the pairs before it. */
  lemma RefusedAlike(ps: seq<Pair>, m: set<Pair>, m': set<Pair>, k: nat)
    requires FirstComeFirstServed(ps, m) && IsMatching(m') && k < |ps|
    requires forall j :: 0 <= j < k ==> (ps[j] in m <==> ps[j] in m')
    ensures ps[k] !in m ==> ps[k] !in m'
  {
    if ps[k] !in m {
      var j :| 0 <= j < k && ps[j] in m && Conflict(ps[j], ps[k]);
      assert ps[j] in m' && ps[j] != ps[k];
    }
  }

  /** There is only one way to serve a list first come, first served. */
  lemma {:induction false} ServesUniquely(ps: seq<Pair>, m: set<Pair>, m': set<Pair>, n: nat)
    requires FirstComeFirstServed(ps, m) && FirstComeFirstServed(ps, m') && n <= |ps|
    ensures forall k :: 0 <= k < n ==> (ps[k] in m <==> ps[k] in m')
  {
    if n > 0 {
      ServesUniquely(ps, m, m', n - 1);
      RefusedAlike(ps, m, m', n - 1);
      RefusedAlike(ps, m', m, n - 1);
    }
  }

  lemma GreedyIsFirstComeFirstServed(ps: seq<Pair>, m: set<Pair>)
    ensures m == Greedy(ps) <==> FirstComeFirstServed(ps, m)
  {
    GreedyServes(ps);
    if FirstComeFirstServed(ps, m) {
      ServesUniquely(ps, m, Greedy(ps), |ps|);
      assert forall p :: p in m ==> p in Elements(ps);
      assert m == Greedy(ps);
    }
  }

  /** A pair once accepted is never dropped or altered by the insertions after it. */
  lemma {:induction false} AcceptedStays(ps: seq<Pair>, qs: seq<Pair>)
    ensures Greedy(ps) <= Greedy(ps + qs)
  {
    if qs == [] {
      assert ps + qs == ps;
    } else {
      assert (ps + qs)[..|ps + qs| - 1] == ps + qs[..|qs| - 1];
      AcceptedStays(ps, qs[..|qs| - 1]);
    }
  }

  // ----- How many pairs survive -----

  ghost function Lefts(m: set<Pair>): set<int32> {
    set p | p in m :: p.0
  }

  ghost function Rights(m: set<Pair>): set<int32> {
    set p | p in m :: p.1
  }

  lemma {:induction false} MatchingSize(m: set<Pair>)
    requires IsMatching(m)
    ensures |Lefts(m)| == |m| == |Rights(m)|
  {
    if m != {} {
      var p :| p in m;
      MatchingSize(m - {p});
      LeftsWithout(m, p);
      RightsWithout(m, p);
    }
  }

  lemma LeftsWithout(m: set<Pair>, p: Pair)
    requires IsMatching(m) && p in m
    ensures Lefts(m) == Lefts(m - {p}) + {p.0} && p.0 !in Lefts(m - {p})
  {
    forall q | q in m - {p} ensures q.0 != p.0 {
      assert q in m && (q.0 == p.0 ==> Conflict(p, q));
    }
    assert forall q :: q in m ==> q == p || q in m - {p};
  }

  lemma RightsWithout(m: set<Pair>, p: Pair)
    requires IsMatching(m) && p in m
    ensures Rights(m) == Rights(m - {p}) + {p.1} && p.1 !in Rights(m - {p})
  {
    forall q | q in m - {p} ensures q.1 != p.1 {
      assert q in m && (q.1 == p.1 ==> Conflict(p, q));
    }
    assert forall q :: q in m ==> q == p || q in m - {p};
  }

  /** The table is maximal: every offered pair shares an id with an accepted one, so none could be added. */
  lemma GreedyIsMaximal(ps: seq<Pair>, p: Pair)
    requires p in ps
    ensures p.0 in Lefts(Greedy(ps)) || p.1 in Rights(Greedy(ps))
    ensures p !in Greedy(ps) ==> !IsMatching(Greedy(ps) + {p})
  {
    var g := Greedy(ps);
    GreedyServes(ps);
    var k :| 0 <= k < |ps| && ps[k] == p;
    if p in g {
    } else {
      var j :| 0 <= j < k && ps[j] in g && Conflict(ps[j], p);
      assert ps[j] in g + {p} && p in g + {p};
    }
  }

  /** No matching among the offered pairs is more than twice as large as the table. */
  lemma GreedyIsHalfOptimal(ps: seq<Pair>, m: set<Pair>)
    requires m <= Elements(ps) && IsMatching(m)
    ensures |m| <= 2 * |Greedy(ps)|
  {
    var g := Greedy(ps);
    GreedyServes(ps);
    forall p | p in m ensures p.0 in Lefts(g) || p.1 in Rights(g) {
      assert p in Elements(ps);
      GreedyIsMaximal(ps, p);
    }
    Covered(m, g);
  }

  lemma Covered(m: set<Pair>, g: set<Pair>)
    requires IsMatching(m) && IsMatching(g)
    requires forall p :: p in m ==> p.0 in Lefts(g) || p.1 in Rights(g)
    ensures |m| <= 2 * |g|
  {
    var a := set p | p in m && p.0 in Lefts(g);
    var b := m - a;
    assert |a| <= |g| by {
      MatchingSize(a);
      MatchingSize(g);
      SubsetSize(Lefts(a), Lefts(g));
    }
    assert |b| <= |g| by {
      MatchingSize(b);
      MatchingSize(g);
      SubsetSize(Rights(b), Rights(g));
    }
    assert m == a + b;
  }

  /** The factor two is reached, at every size: n bad pairs can each keep out two good ones. */
  lemma {:induction false} HalfIsReached(n: nat)
    requires 2 * n < 0x8000_0000
    ensures exists ps: seq<Pair>, m: set<Pair> ::
              m <= Elements(ps) && IsMatching(m) && |Greedy(ps)| == n && |m| == 2 * n
  {
    var ps, m, g := WorstCase(n);
    GreedyIsFirstComeFirstServed(ps, g);
  }

  ghost predicate Below(m: set<Pair>, n: int) {
    forall p :: p in m ==> p.0 < n && p.1 < n
  }

  lemma {:induction false} WorstCase(n: nat) returns (ps: seq<Pair>, m: set<Pair>, g: set<Pair>)
    requires 2 * n < 0x8000_0000
    ensures m <= Elements(ps) && IsMatching(m) && |m| == 2 * n && Below(m, 2 * n)
    ensures FirstComeFirstServed(ps, g) && |g| == n && Below(g, 2 * n)
  {
    if n == 0 {
      ps, m, g := [], {}, {};
    } else {
      ps, m, g := WorstCase(n - 1);
      var x: int32 := 2 * n - 2;
      ExtendMatching(ps, m, x);
      ExtendGreedy(ps, g, x);
      ps, m, g := ps + BadFirst(x), m + {(x, x + 1), (x + 1, x)}, g + {(x, x)};
    }
  }

  /** A pair that keeps out the two after it. */
  function BadFirst(x: int32): seq<Pair>
    requires x < 0x7FFF_FFFF
  {
    [(x, x), (x, x + 1), (x + 1, x)]
  }

  lemma ExtendMatching(ps: seq<Pair>, m: set<Pair>, x: int32)
    requires m <= Elements(ps) && IsMatching(m) && Below(m, x) && x < 0x7FFF_FFFF
    ensures m + {(x, x + 1), (x + 1, x)} <= Elements(ps + BadFirst(x))
    ensures IsMatching(m + {(x, x + 1), (x + 1, x)}) && |m + {(x, x + 1), (x + 1, x)}| == |m| + 2
    ensures Below(m + {(x, x + 1), (x + 1, x)}, x + 2)
  {
    var one, two: Pair := (x, x + 1), (x + 1, x);
    InElements(ps, BadFirst(x));
    assert BadFirst(x)[1] == one && BadFirst(x)[2] == two;
    TwoMore(m, one, two);
    StillMatching(m, x);
  }

  lemma TwoMore(m: set<Pair>, one: Pair, two: Pair)
    requires one !in m && two !in m && one != two
    ensures |m + {one, two}| == |m| + 2
  {
    assert m + {one, two} == m + {one} + {two};
  }

  lemma StillMatching(m: set<Pair>, x: int32)
    requires IsMatching(m) && Below(m, x) && x < 0x7FFF_FFFF
    ensures IsMatching(m + {(x, x + 1), (x + 1, x)})
  {
    var m' := m + {(x, x + 1), (x + 1, x)};
    forall p, q | p in m' && q in m' && Conflict(p, q) ensures p == q {
      if p in m && q in m {
        assert p == q;
      }
    }
  }

  lemma InElements(ps: seq<Pair>, qs: seq<Pair>)
    ensures Elements(ps + qs) == Elements(ps) + Elements(qs)
  {
  }

  /** The first of the three is accepted and keeps the other two out. */
  lemma ExtendGreedy(ps: seq<Pair>, g: set<Pair>, x: int32)
    requires FirstComeFirstServed(ps, g) && Below(g, x) && x < 0x7FFF_FFFF
    ensures FirstComeFirstServed(ps + BadFirst(x), g + {(x, x)})
    ensures |g + {(x, x)}| == |g| + 1 && Below(g + {(x, x)}, x + 2)
  {
    var ps', g' := ps + BadFirst(x), g + {(x, x)};
    InElements(ps, BadFirst(x));
    assert BadFirst(x)[0] == (x, x) && (x, x) !in g;
    forall k | 0 <= k < |ps'| && ps'[k] !in g'
      ensures exists j :: 0 <= j < k && ps'[j] in g' && Conflict(ps'[j], ps'[k])
    {
      if k < |ps| {
        assert ps[k] !in g;
        var j :| 0 <= j < k && ps[j] in g && Conflict(ps[j], ps[k]);
        assert ps'[j] in g' && Conflict(ps'[j], ps'[k]);
      } else {
        assert ps'[|ps|] == (x, x) && Conflict(ps'[|ps|], ps'[k]);
      }
    }
  }

  // ----- When the order of the pairs matters -----

  /** Nothing is refused exactly when the offered pairs are a partial bijection already. */
  lemma NothingRefused(ps: seq<Pair>)
    ensures Greedy(ps) == Elements(ps) <==> IsMatching(Elements(ps))
  {
    GreedyServes(ps);
    if IsMatching(Elements(ps)) {
      assert forall i :: 0 <= i < |ps| ==> ps[i] in Elements(ps);
      assert Elements(ps) <= Greedy(ps);
    }
  }

  /** Offered first, a pair is always accepted. */
  lemma FirstIsAccepted(p: Pair, qs: seq<Pair>)
    ensures p in Greedy([p] + qs)
  {
    AcceptedStays([p], qs);
    assert Greedy([p]) == {p} by {
      assert [p][..0] == [];
    }
  }

  /**
   Every rearrangement of the offered pairs leaves the same table exactly when they are a partial
   bijection; and then repeating pairs makes no difference either.
   */
  lemma OrderIrrelevant(ps: seq<Pair>)
    ensures (forall qs :: multiset(qs) == multiset(ps) ==> Greedy(qs) == Greedy(ps)) <==> IsMatching(Elements(ps))
    ensures IsMatching(Elements(ps)) ==> forall qs :: Elements(qs) == Elements(ps) ==> Greedy(qs) == Elements(ps)
  {
    if IsMatching(Elements(ps)) {
      forall qs | Elements(qs) == Elements(ps) ensures Greedy(qs) == Elements(ps) {
        NothingRefused(qs);
      }
      NothingRefused(ps);
      forall qs | multiset(qs) == multiset(ps) ensures Greedy(qs) == Greedy(ps) {
        assert forall p :: p in qs <==> p in multiset(qs);
        assert forall p :: p in ps <==> p in multiset(ps);
        assert Elements(qs) == Elements(ps);
      }
    } else {
      var p, q :| p in Elements(ps) && q in Elements(ps) && Conflict(p, q) && p != q;
      var ps' := MoveToFront(ps, p);
      var ps'' := MoveToFront(ps, q);
      GreedyServes(ps');
      GreedyServes(ps'');
      assert p in Greedy(ps') && q !in Greedy(ps') && q in Greedy(ps'');
    }
  }

  lemma MoveToFront(ps: seq<Pair>, p: Pair) returns (qs: seq<Pair>)
    requires p in ps
    ensures multiset(qs) == multiset(ps)
    ensures p in Greedy(qs)
  {
    var k :| 0 <= k < |ps| && ps[k] == p;
    qs := [p] + (ps[..k] + ps[k + 1..]);
    assert ps == ps[..k] + [p] + ps[k + 1..];
    FirstIsAccepted(p, ps[..k] + ps[k + 1..]);
  }
}
