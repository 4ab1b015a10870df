/**
 What the planner's order is and is not, src/ir/mem2reg/phi_eliminate.rs: the rounds determine
 it, and it is the lexicographically smallest order exactly when no copy is overtaken.
 */
module PhiOrder {
  import opened Options
  import opened PhiGraph
  import opened PhiRounds

  // ---- the order is determined ----

  lemma {:induction false} SortedUnique(s: seq<nat>, t: seq<nat>, rd: seq<nat>)
    requires Sorted(s, rd) && Sorted(t, rd) && forall i: nat :: i in s <==> i in t
    ensures s == t
    decreases |s|
  {
    NonEmpty(s);
    NonEmpty(t);
    if s != [] {
      var m, n := |s| - 1, |t| - 1;
      assert s[m] in s && t[n] in t;
      SortedLast(s, rd);
      SortedLast(t, rd);
      var a :| 0 <= a < |t| && t[a] == s[m];
      var b :| 0 <= b < |s| && s[b] == t[n];
      assert s[m] == t[n];
      SortedUnique(s[..m], t[..n], rd);
      assert s == s[..m] + [s[m]] && t == t[..n] + [t[n]];
    }
  }

  lemma NonEmpty(s: seq<nat>)
    ensures s != [] ==> exists i: nat :: i in s
  {
    if s != [] { assert s[0] in s; }
  }

  lemma SortedLast(s: seq<nat>, rd: seq<nat>)
    requires Sorted(s, rd) && s != []
    ensures var m := |s| - 1;
            && Sorted(s[..m], rd)
            && (forall i: nat :: i in s[..m] <==> i in s && i != s[m])
  {
    var m := |s| - 1;
    var front := s[..m];
    assert forall k :: 0 <= k < m ==> front[k] == s[k];
    forall i: nat | i in s && i != s[m]
      ensures i in front
    {
      var k :| 0 <= k < |s| && s[k] == i;
      assert front[k] == i;
    }
  }

  /** Two orders of the same copies by round and index are the same order. */
  lemma OrderDetermined(copies: seq<EdgeCopy>, guards: seq<set<nat>>, s: seq<nat>, t: seq<nat>)
    requires |guards| == |copies| && InRounds(copies, guards, s) && InRounds(copies, guards, t) && forall i: nat :: i in s <==> i in t
    ensures s == t
  {
    hide HasRound;
    var rd: seq<nat> :| RoundsOf(copies, guards, s, rd) && Sorted(s, rd);
    var rd': seq<nat> :| RoundsOf(copies, guards, t, rd') && Sorted(t, rd');
    forall a | 0 <= a < |t|
      ensures t[a] < |rd| && rd[t[a]] == rd'[t[a]]
    {
      assert t[a] in t;
      var b :| 0 <= b < |s| && s[b] == t[a];
      RoundUnique(copies, guards, t[a], rd[t[a]], rd'[t[a]]);
    }
    SortedUnique(s, t, rd);
  }

  /** Planning is deterministic. */
  lemma PlanDetermined(copies: seq<EdgeCopy>, guards: seq<set<nat>>, p: EdgePlan, q: EdgePlan)
    requires |guards| == |copies| && Exact(copies, p) && Exact(copies, q)
    requires InRounds(copies, guards, p.ordered) && InRounds(copies, guards, q.ordered)
    ensures p == q
  {
    hide InRounds, OnCycle, Sound;
    OrderDetermined(copies, guards, p.ordered, q.ordered);
    assert p.cyclic == q.cyclic;
  }

  // ---- the round of a copy from the rounds of its predecessors ----

  ghost function RoundOf(copies: seq<EdgeCopy>, guards: seq<set<nat>>, i: nat): nat
    requires |guards| == |copies|
  {
    if exists r: nat :: HasRound(copies, guards, i, r) then var r: nat :| HasRound(copies, guards, i, r); r else 0
  }

  lemma RoundOfIs(copies: seq<EdgeCopy>, guards: seq<set<nat>>, i: nat, r: nat)
    requires |guards| == |copies| && HasRound(copies, guards, i, r)
    ensures RoundOf(copies, guards, i) == r
  {
    RoundUnique(copies, guards, i, r, RoundOf(copies, guards, i));
  }

  lemma RoundAtLeast(copies: seq<EdgeCopy>, guards: seq<set<nat>>, p: nat, r: nat, i: nat, s: nat)
    requires |guards| == |copies| && HasRound(copies, guards, p, r) && HasRound(copies, guards, i, s) && Dep(copies, guards, p, i)
    ensures r + Drop(p, i) <= s
  {
    hide Dep;
    var c: seq<nat> :| ChainTo(copies, guards, c, p) && Drops(c) == r;
    ChainPush(copies, guards, c, i);
    assert (c + [i])[..|c|] == c;
  }

  lemma RoundReached(copies: seq<EdgeCopy>, guards: seq<set<nat>>, i: nat, s: nat) returns (p: nat)
    requires |guards| == |copies| && HasRound(copies, guards, i, s) && s > 0
    ensures Dep(copies, guards, p, i)
    ensures forall r: nat :: HasRound(copies, guards, p, r) ==> s <= r + Drop(p, i)
  {
    hide Dep;
    var c: seq<nat> :| ChainTo(copies, guards, c, i) && Drops(c) == s;
    assert |c| >= 2;
    p := c[|c| - 2];
    assert Dep(copies, guards, c[|c| - 2], c[|c| - 2 + 1]);
    var front := c[..|c| - 1];
    assert forall k :: 0 <= k < |front| ==> front[k] == c[k];
    assert ChainTo(copies, guards, front, p);
  }

  // ---- greedy orders ----

  /** At position `a` copy `i` could have come out. */
  ghost predicate Available(copies: seq<EdgeCopy>, guards: seq<set<nat>>, s: seq<nat>, a: nat, i: nat)
    requires |guards| == |copies| && a <= |s|
  {
    i in s && i !in s[..a] && forall p: nat :: Dep(copies, guards, p, i) ==> p in s[..a]
  }

  lemma InPrefix(s: seq<nat>, a: nat)
    requires a <= |s|
    ensures forall b :: 0 <= b < a ==> s[b] in s[..a]
  {
    forall b | 0 <= b < a
      ensures s[b] in s[..a]
    {
      assert s[..a][b] == s[b];
    }
  }

  /** Always the lowest index that can come out. */
  ghost predicate Greedy(copies: seq<EdgeCopy>, guards: seq<set<nat>>, s: seq<nat>)
    requires |guards| == |copies|
  {
    forall a, i: nat :: 0 <= a < |s| && Available(copies, guards, s, a, i) ==> s[a] <= i
  }

  ghost predicate Rearranges(s: seq<nat>, t: seq<nat>) {
    |s| == |t| && Distinct(s) && Distinct(t) && forall i: nat :: i in s <==> i in t
  }

  predicate LexLess(s: seq<nat>, t: seq<nat>) {
    exists k :: 0 <= k < |s| && k < |t| && s[..k] == t[..k] && s[k] < t[k]
  }

  /** Smaller than every other valid order of the same copies. */
  ghost predicate LexSmallest(copies: seq<EdgeCopy>, guards: seq<set<nat>>, s: seq<nat>)
    requires |guards| == |copies|
  {
    forall t: seq<nat> :: Rearranges(s, t) && Meets(copies, guards, t) && t != s ==> LexLess(s, t)
  }

  lemma {:induction false} FirstDifference(s: seq<nat>, t: seq<nat>) returns (k: nat)
    requires |s| == |t| && s != t
    ensures k < |s| && s[..k] == t[..k] && s[k] != t[k]
  {
    var n := |s| - 1;
    if s[..n] == t[..n] {
      k := n;
      assert s == s[..n] + [s[n]] && t == t[..n] + [t[n]];
    } else {
      k := FirstDifference(s[..n], t[..n]);
      assert s[..n][..k] == s[..k] && t[..n][..k] == t[..k];
    }
  }

  lemma GreedyIsSmallest(copies: seq<EdgeCopy>, guards: seq<set<nat>>, s: seq<nat>)
    requires |guards| == |copies| && Greedy(copies, guards, s)
    ensures LexSmallest(copies, guards, s)
  {
    hide Dep;
    forall t: seq<nat> | Rearranges(s, t) && Meets(copies, guards, t) && t != s
      ensures LexLess(s, t)
    {
      var k := FirstDifference(s, t);
      assert t[k] in t;
      assert forall j :: 0 <= j < k ==> t[..k][j] == t[j];
      assert t[k] !in t[..k];
      assert Available(copies, guards, s, k, t[k]);
    }
  }

  /** The copy at `b` moved up to `a`. */
  function MovedUp(s: seq<nat>, a: nat, b: nat): seq<nat>
    requires a <= b < |s|
  {
    s[..a] + [s[b]] + s[a..b] + s[b + 1..]
  }

  /** Where the copy at `e` ends up. */
  function Shifted(a: nat, b: nat, e: nat): nat {
    if e < a || e > b then e else if e == b then a else e + 1
  }

  lemma MovedUpAt(s: seq<nat>, a: nat, b: nat, e: nat)
    requires a <= b < |s| && e < |s|
    ensures Shifted(a, b, e) < |s| && |MovedUp(s, a, b)| == |s| && MovedUp(s, a, b)[Shifted(a, b, e)] == s[e]
  {
  }

  /** Where the copy at `c` came from. */
  function Origin(a: nat, b: nat, c: nat): nat {
    if c < a || c > b then c else if c == a then b else c - 1
  }

  lemma MovedUpFrom(s: seq<nat>, a: nat, b: nat, c: nat)
    requires a <= b < |s| && c < |s|
    ensures Origin(a, b, c) < |s| && |MovedUp(s, a, b)| == |s| && MovedUp(s, a, b)[c] == s[Origin(a, b, c)]
  {
  }

  lemma MovedUpRearranges(s: seq<nat>, a: nat, b: nat)
    requires a <= b < |s| && Distinct(s)
    ensures Rearranges(s, MovedUp(s, a, b))
  {
    var t := MovedUp(s, a, b);
    MovedUpFrom(s, a, b, 0);
    forall c, d | 0 <= c < d < |t|
      ensures t[c] != t[d]
    {
      MovedUpFrom(s, a, b, c);
      MovedUpFrom(s, a, b, d);
      var e, f := Origin(a, b, c), Origin(a, b, d);
      assert e < f || f < e;
    }
    forall i: nat
      ensures i in s <==> i in t
    {
      if i in s {
        var e :| 0 <= e < |s| && s[e] == i;
        MovedUpAt(s, a, b, e);
      }
      if i in t {
        var c :| 0 <= c < |t| && t[c] == i;
        MovedUpFrom(s, a, b, c);
      }
    }
  }

  lemma MovedUpMeets(copies: seq<EdgeCopy>, guards: seq<set<nat>>, s: seq<nat>, a: nat, b: nat)
    requires |guards| == |copies| && Meets(copies, guards, s) && a <= b < |s| && Available(copies, guards, s, a, s[b])
    ensures Meets(copies, guards, MovedUp(s, a, b))
  {
    hide Dep;
    var t := MovedUp(s, a, b);
    MovedUpFrom(s, a, b, 0);
    forall c, p: nat | 0 <= c < |t| && Dep(copies, guards, p, t[c])
      ensures p in t[..c]
    {
      MovedUpFrom(s, a, b, c);
      var o := Origin(a, b, c);
      assert p in s[..if c == a then a else o];
      var e :| 0 <= e < |s[..if c == a then a else o]| && s[e] == p;
      MovedUpAt(s, a, b, e);
      assert t[..c][Shifted(a, b, e)] == p;
    }
  }

  lemma SmallestIsGreedy(copies: seq<EdgeCopy>, guards: seq<set<nat>>, s: seq<nat>)
    requires |guards| == |copies| && Distinct(s) && Meets(copies, guards, s) && LexSmallest(copies, guards, s)
    ensures Greedy(copies, guards, s)
  {
    hide Dep;
    forall a, i: nat | 0 <= a < |s| && Available(copies, guards, s, a, i)
      ensures s[a] <= i
    {
      var b :| 0 <= b < |s| && s[b] == i;
      InPrefix(s, a);
      if i < s[a] {
        NotSmallest(copies, guards, s, a, b);
      }
    }
  }

  lemma NotSmallest(copies: seq<EdgeCopy>, guards: seq<set<nat>>, s: seq<nat>, a: nat, b: nat)
    requires |guards| == |copies| && Distinct(s) && Meets(copies, guards, s) && a <= b < |s|
    requires Available(copies, guards, s, a, s[b]) && s[b] < s[a]
    ensures !LexSmallest(copies, guards, s)
  {
    hide Dep;
    var t := MovedUp(s, a, b);
    MovedUpRearranges(s, a, b);
    MovedUpMeets(copies, guards, s, a, b);
    MovedUpFrom(s, a, b, a);
    forall k | a < k < |s|
      ensures s[..k] != t[..k]
    {
      assert s[..k][a] == s[a] && t[..k][a] == t[a];
    }
    forall k | 0 <= k < a
      ensures s[k] == t[k]
    {
      MovedUpFrom(s, a, b, k);
    }
    assert !LexLess(s, t);
  }

  // ---- overtaking ----

  /** `p` is the last of the copies that must precede `i`, by round and index. */
  ghost predicate Latest(copies: seq<EdgeCopy>, guards: seq<set<nat>>, p: nat, i: nat)
    requires |guards| == |copies|
  {
    Dep(copies, guards, p, i) &&
    forall q: nat :: Dep(copies, guards, q, i) && q != p ==> Earlier(RoundOf(copies, guards, q), q, RoundOf(copies, guards, p), p)
  }

  /** `i` waits a round for the higher-numbered `p`, and the still higher `k` of that round comes out in between. */
  ghost predicate Overtakes(copies: seq<EdgeCopy>, guards: seq<set<nat>>, i: nat, p: nat, k: nat)
    requires |guards| == |copies|
  {
    i < p < k && Latest(copies, guards, p, i) && RoundOf(copies, guards, k) == RoundOf(copies, guards, p)
  }

  ghost predicate Overtaken(copies: seq<EdgeCopy>, guards: seq<set<nat>>, s: seq<nat>)
    requires |guards| == |copies|
  {
    exists i: nat, p: nat, k: nat :: i in s && k in s && Overtakes(copies, guards, i, p, k)
  }

  /** Everything known of an order by rounds, with the rounds as a function. */
  ghost predicate Rounded(copies: seq<EdgeCopy>, guards: seq<set<nat>>, s: seq<nat>)
    requires |guards| == |copies|
  {
    && Meets(copies, guards, s)
    && (forall i: nat :: i in s ==> HasRound(copies, guards, i, RoundOf(copies, guards, i)))
    && (forall a, b :: 0 <= a < b < |s| ==> Earlier(RoundOf(copies, guards, s[a]), s[a], RoundOf(copies, guards, s[b]), s[b]))
  }

  lemma IsRounded(copies: seq<EdgeCopy>, guards: seq<set<nat>>, s: seq<nat>)
    requires |guards| == |copies| && InRounds(copies, guards, s) && Meets(copies, guards, s)
    ensures Rounded(copies, guards, s) && Distinct(s)
  {
    hide HasRound, RoundOf, Meets;
    var rd: seq<nat> :| RoundsOf(copies, guards, s, rd) && Sorted(s, rd);
    forall a | 0 <= a < |s|
      ensures RoundOf(copies, guards, s[a]) == rd[s[a]]
    {
      RoundOfIs(copies, guards, s[a], rd[s[a]]);
    }
  }

  /** The last predecessor, found from the back of the order. */
  lemma {:induction false} FindLatest(copies: seq<EdgeCopy>, guards: seq<set<nat>>, s: seq<nat>, i: nat, b: nat) returns (p: nat)
    requires |guards| == |copies| && Rounded(copies, guards, s) && b <= |s|
    requires forall q: nat :: Dep(copies, guards, q, i) ==> q in s[..b]
    requires exists q: nat :: Dep(copies, guards, q, i)
    ensures Latest(copies, guards, p, i) && p in s[..b]
    decreases b
  {
    hide Dep, RoundOf, HasRound;
    var q: nat :| Dep(copies, guards, q, i);
    var e :| 0 <= e < |s[..b]| && s[..b][e] == q;
    if Dep(copies, guards, s[b - 1], i) {
      p := s[b - 1];
      forall q': nat | Dep(copies, guards, q', i) && q' != p
        ensures Earlier(RoundOf(copies, guards, q'), q', RoundOf(copies, guards, p), p)
      {
        var f :| 0 <= f < |s[..b]| && s[..b][f] == q';
        assert s[f] == q' && f < b - 1;
      }
      assert s[..b][b - 1] == p;
    } else {
      forall q': nat | Dep(copies, guards, q', i)
        ensures q' in s[..b - 1]
      {
        var f :| 0 <= f < |s[..b]| && s[..b][f] == q';
        assert s[..b - 1][f] == q';
      }
      p := FindLatest(copies, guards, s, i, b - 1);
      var f :| 0 <= f < |s[..b - 1]| && s[..b - 1][f] == p;
      assert s[..b][f] == p;
    }
  }

  /** The round of a copy is that of its latest predecessor, plus one if that one's index is higher. */
  lemma RoundFromLatest(copies: seq<EdgeCopy>, guards: seq<set<nat>>, s: seq<nat>, p: nat, i: nat)
    requires |guards| == |copies| && Rounded(copies, guards, s) && i in s && p in s && Latest(copies, guards, p, i)
    ensures RoundOf(copies, guards, i) == RoundOf(copies, guards, p) + Drop(p, i)
  {
    hide RoundOf, HasRound, Dep;
    var ri, rp := RoundOf(copies, guards, i), RoundOf(copies, guards, p);
    RoundAtLeast(copies, guards, p, rp, i, ri);
    if ri > 0 {
      var q := RoundReached(copies, guards, i, ri);
      var a :| 0 <= a < |s| && s[a] == i;
      assert q in s[..a];
      assert q in s;
    }
  }

  lemma OvertakenFromGap(copies: seq<EdgeCopy>, guards: seq<set<nat>>, s: seq<nat>, a: nat, i: nat)
    requires |guards| == |copies| && Rounded(copies, guards, s) && a < |s| && Available(copies, guards, s, a, i) && i < s[a]
    ensures Overtaken(copies, guards, s)
  {
    hide RoundOf, HasRound, Dep;
    var k := s[a];
    var b :| 0 <= b < |s| && s[b] == i;
    InPrefix(s, a);
    assert a < b;
    var ri := RoundOf(copies, guards, i);
    var q := RoundReached(copies, guards, i, ri);
    var p := FindLatest(copies, guards, s, i, a);
    var e :| 0 <= e < |s[..a]| && s[..a][e] == p;
    assert s[e] == p && p in s && k in s;
    RoundFromLatest(copies, guards, s, p, i);
    assert Overtakes(copies, guards, i, p, k);
  }

  lemma GapFromOvertaken(copies: seq<EdgeCopy>, guards: seq<set<nat>>, s: seq<nat>, i: nat, p: nat, k: nat)
    requires |guards| == |copies| && Rounded(copies, guards, s) && i in s && k in s && Overtakes(copies, guards, i, p, k)
    ensures !Greedy(copies, guards, s)
  {
    hide RoundOf, HasRound, Dep;
    var a :| 0 <= a < |s| && s[a] == k;
    var b :| 0 <= b < |s| && s[b] == i;
    assert p in s[..b];
    var c :| 0 <= c < |s[..b]| && s[..b][c] == p;
    assert s[c] == p && p in s;
    RoundFromLatest(copies, guards, s, p, i);
    assert a < b;
    forall q: nat | Dep(copies, guards, q, i)
      ensures q in s[..a]
    {
      assert q in s[..b];
      var d :| 0 <= d < |s[..b]| && s[..b][d] == q;
      assert s[d] == q && d < a;
      assert s[..a][d] == q;
    }
    assert forall d :: 0 <= d < a ==> s[..a][d] == s[d] && s[d] != i;
    assert Available(copies, guards, s, a, i);
  }

  /** The planner's order is the lexicographically smallest one if and only if no copy is overtaken. */
  lemma SmallestExactly(copies: seq<EdgeCopy>, guards: seq<set<nat>>, s: seq<nat>)
    requires |guards| == |copies| && InRounds(copies, guards, s) && Meets(copies, guards, s)
    ensures LexSmallest(copies, guards, s) <==> !Overtaken(copies, guards, s)
  {
    hide InRounds, Meets, Rounded, Overtakes, Available;
    IsRounded(copies, guards, s);
    if Greedy(copies, guards, s) {
      GreedyIsSmallest(copies, guards, s);
    } else {
      var a, i: nat :| 0 <= a < |s| && Available(copies, guards, s, a, i) && s[a] > i;
      OvertakenFromGap(copies, guards, s, a, i);
      if LexSmallest(copies, guards, s) { SmallestIsGreedy(copies, guards, s); }
    }
    if Overtaken(copies, guards, s) {
      var i: nat, p: nat, k: nat :| i in s && k in s && Overtakes(copies, guards, i, p, k);
      GapFromOvertaken(copies, guards, s, i, p, k);
    }
  }

  // ---- an overtaken copy ----

  /** Copy 1 reads what copy 0 overwrites; copy 2 is free. */
  function ThreeCopies(): seq<EdgeCopy> {
    [EdgeCopy(10, None), EdgeCopy(11, Some(10)), EdgeCopy(12, None)]
  }

  function ThreeGuards(): seq<set<nat>> {
    [{}, {}, {}]
  }

  lemma ThreeDeps(p: nat, i: nat)
    ensures Dep(ThreeCopies(), ThreeGuards(), p, i) <==> p == 1 && i == 0
    ensures p < 3 ==> !Skips(ThreeCopies()[p])
  {
    var c := ThreeCopies();
    assert WriterOf(c, 10) == Some(0) by {
      assert c[..2][..1][..0] == [] && c[..2][..1][0] == c[0] && c[..2][0] == c[0];
    }
    if p < 3 && i < 3 {
      assert ThreeGuards()[p] == {};
    }
  }

  lemma ThreeRounds()
    ensures HasRound(ThreeCopies(), ThreeGuards(), 0, 1)
    ensures HasRound(ThreeCopies(), ThreeGuards(), 1, 0)
    ensures HasRound(ThreeCopies(), ThreeGuards(), 2, 0)
  {
    hide Dep, ThreeCopies, ThreeGuards;
    var c, g := ThreeCopies(), ThreeGuards();
    ThreeLengths();
    forall d: seq<nat>, i: nat | ChainTo(c, g, d, i)
      ensures i != 0 ==> d == [i]
      ensures i == 0 ==> d == [0] || d == [1, 0]
    {
      ThreeChains(d, i);
    }
    assert ChainTo(c, g, [1], 1) && ChainTo(c, g, [2], 2);
    ThreeDeps(1, 0);
    assert ChainTo(c, g, [1, 0], 0);
    assert [1, 0][..1] == [1];
    assert Drops([1, 0]) == 1 && Drops([0]) == 0 && Drops([1]) == 0 && Drops([2]) == 0;
  }

  lemma ThreeLengths()
    ensures |ThreeGuards()| == |ThreeCopies()| == 3
  {
  }

  lemma ThreeChains(d: seq<nat>, i: nat)
    requires |ThreeGuards()| == |ThreeCopies()| && ChainTo(ThreeCopies(), ThreeGuards(), d, i)
    ensures i != 0 ==> d == [i]
    ensures i == 0 ==> d == [0] || d == [1, 0]
  {
    hide Dep, ThreeCopies, ThreeGuards;
    if |d| >= 2 {
      assert Dep(ThreeCopies(), ThreeGuards(), d[|d| - 2], d[|d| - 2 + 1]);
      ThreeDeps(d[|d| - 2], i);
      if |d| >= 3 {
        assert Dep(ThreeCopies(), ThreeGuards(), d[|d| - 3], d[|d| - 3 + 1]);
        ThreeDeps(d[|d| - 3], 1);
      }
    }
  }

  lemma ThreeOrder(s: seq<nat>)
    requires |ThreeGuards()| == |ThreeCopies()|
    requires InRounds(ThreeCopies(), ThreeGuards(), s) && forall i: nat :: i in s <==> i < 3
    ensures s == [1, 2, 0]
  {
    hide ThreeCopies, ThreeGuards, HasRound, Dep;
    var c, g := ThreeCopies(), ThreeGuards();
    ThreeLengths();
    ThreeRounds();
    var t: seq<nat> := [1, 2, 0];
    var rd: seq<nat> := [1, 0, 0];
    assert RoundsOf(c, g, t, rd) && Sorted(t, rd);
    hide RoundsOf, Sorted;
    assert InRounds(c, g, t);
    OrderDetermined(c, g, s, t);
  }

  lemma ThreeMeets()
    requires |ThreeGuards()| == |ThreeCopies()|
    ensures Meets(ThreeCopies(), ThreeGuards(), [1, 0, 2])
  {
    hide ThreeCopies, ThreeGuards, Dep;
    var t: seq<nat> := [1, 0, 2];
    assert t[..1] == [1];
    forall a, p: nat | 0 <= a < |t| && Dep(ThreeCopies(), ThreeGuards(), p, t[a])
      ensures p in t[..a]
    {
      ThreeDeps(p, t[a]);
    }
  }

  lemma ThreeCompare()
    ensures Rearranges([1, 2, 0], [1, 0, 2]) && LexLess([1, 0, 2], [1, 2, 0]) && !LexLess([1, 2, 0], [1, 0, 2])
  {
    var s: seq<nat>, t: seq<nat> := [1, 2, 0], [1, 0, 2];
    assert t[..1] == s[..1];
    assert s[..2][1] != t[..2][1];
  }

  /** What the planner returns for them, and the smaller valid order it passes over. */
  lemma SmallestIsMissed(s: seq<nat>)
    requires |ThreeGuards()| == |ThreeCopies()|
    requires InRounds(ThreeCopies(), ThreeGuards(), s) && forall i: nat :: i in s <==> i < 3
    ensures s == [1, 2, 0]
    ensures Rearranges(s, [1, 0, 2]) && Meets(ThreeCopies(), ThreeGuards(), [1, 0, 2]) && LexLess([1, 0, 2], s)
    ensures !LexSmallest(ThreeCopies(), ThreeGuards(), s)
  {
    hide ThreeCopies, ThreeGuards, Meets, InRounds, Rearranges, LexLess;
    ThreeOrder(s);
    ThreeMeets();
    ThreeCompare();
  }
}
