/**
 The parallel copies of one control-flow edge, src/ir/mem2reg/phi_eliminate.rs: which copy must
 run before which, and which ones sit on a dependency cycle.
 */
module PhiGraph {
  import opened Options

  /** `dest <- src`; no source register means a constant, or no source on this edge. */
  datatype EdgeCopy = EdgeCopy(dest: nat, src: Option<nat>)

  datatype EdgePlan = EdgePlan(cyclic: set<nat>, ordered: seq<nat>)

  /** `dest <- dest` does nothing and is never emitted. */
  predicate Skips(c: EdgeCopy) {
    c.src == Some(c.dest)
  }

  /** The first copy that writes `v`. */
  function WriterOf(copies: seq<EdgeCopy>, v: nat): (w: Option<nat>)
    ensures w.Some? ==> w.value < |copies| && copies[w.value].dest == v
    ensures w.None? <==> forall k :: 0 <= k < |copies| ==> copies[k].dest != v
  {
    if copies == [] then None
    else
      var n := |copies| - 1;
      var w := WriterOf(copies[..n], v);
      if w.Some? then w
      else if copies[n].dest == v then Some(n)
      else
        assert forall k :: 0 <= k < |copies| ==> k == n || copies[k] == copies[..n][k];
        None
  }

  /** The copy that copy `i` must precede, because it overwrites what `i` reads. */
  function NextOf(copies: seq<EdgeCopy>, i: nat): (j: Option<nat>)
    requires i < |copies|
    ensures j.Some? ==> j.value < |copies| && j.value != i
  {
    var c := copies[i];
    if c.src.None? || Skips(c) then None
    else
      var w := WriterOf(copies, c.src.value);
      if w.Some? && w.value != i then w else None
  }

  predicate Before(copies: seq<EdgeCopy>, i: nat, j: nat) {
    i < |copies| && NextOf(copies, i) == Some(j)
  }

  /** One copy must precede another exactly when it reads what the other, the first such copy, overwrites. */
  lemma BeforeExactly(copies: seq<EdgeCopy>, i: nat, j: nat)
    requires i < |copies| && j < |copies|
    ensures Before(copies, i, j) <==>
            && i != j && copies[i].src == Some(copies[j].dest) && copies[i].dest != copies[j].dest
            && forall k :: 0 <= k < j ==> copies[k].dest != copies[j].dest
  {
    FirstWriter(copies, copies[j].dest);
  }

  lemma {:induction false} FirstWriter(copies: seq<EdgeCopy>, v: nat)
    ensures var w := WriterOf(copies, v); w.Some? ==> forall k :: 0 <= k < w.value ==> copies[k].dest != v
  {
    if copies != [] {
      var front := copies[..|copies| - 1];
      assert forall k :: 0 <= k < |front| ==> front[k] == copies[k];
      FirstWriter(front, v);
    }
  }

  /** Following `NextOf` `k` times. */
  function Follow(copies: seq<EdgeCopy>, i: nat, k: nat): (j: Option<nat>)
    requires i < |copies|
    ensures j.Some? ==> j.value < |copies|
    decreases k
  {
    if k == 0 then Some(i)
    else
      var j := NextOf(copies, i);
      if j.None? then None else Follow(copies, j.value, k - 1)
  }

  ghost predicate OnCycle(copies: seq<EdgeCopy>, i: nat) {
    i < |copies| && exists k: nat :: k > 0 && Follow(copies, i, k) == Some(i)
  }

  // ---- what the planner promises ----

  predicate Distinct(s: seq<nat>) {
    forall a, b :: 0 <= a < b < |s| ==> s[a] != s[b]
  }

  /** Every copy comes after all copies that read what it writes. */
  ghost predicate Topological(copies: seq<EdgeCopy>, ordered: seq<nat>) {
    forall a, p :: 0 <= a < |ordered| && Before(copies, p, ordered[a]) ==> p in ordered[..a]
  }

  ghost predicate Sound(copies: seq<EdgeCopy>, ordered: seq<nat>) {
    && Distinct(ordered)
    && (forall a :: 0 <= a < |ordered| ==> ordered[a] < |copies| && !Skips(copies[ordered[a]]))
    && Topological(copies, ordered)
  }

  /** No copy is lost, and the ones needing a temporary are exactly the ones on a cycle. */
  ghost predicate Exact(copies: seq<EdgeCopy>, plan: EdgePlan) {
    && Sound(copies, plan.ordered)
    && (forall i: nat :: i in plan.cyclic <==> OnCycle(copies, i))
    && (forall i: nat :: i in plan.ordered <==> i < |copies| && !Skips(copies[i]) && !OnCycle(copies, i))
  }

  // ---- cycles ----

  /** Whoever leads to an ordered copy in `k` steps stands at least `k` places before it. */
  lemma {:induction false} LeadsEarlier(copies: seq<EdgeCopy>, ordered: seq<nat>, i: nat, k: nat, a: nat) returns (b: nat)
    requires Sound(copies, ordered) && i < |copies| && a < |ordered| && Follow(copies, i, k) == Some(ordered[a])
    ensures b + k <= a && ordered[b] == i
    decreases k
  {
    if k == 0 {
      b := a;
    } else {
      var j := NextOf(copies, i).value;
      var c := LeadsEarlier(copies, ordered, j, k - 1, a);
      assert Before(copies, i, ordered[c]);
      b :| 0 <= b < c && ordered[..c][b] == i;
    }
  }

  lemma CycleNotOrdered(copies: seq<EdgeCopy>, ordered: seq<nat>, i: nat)
    requires Sound(copies, ordered) && OnCycle(copies, i)
    ensures i !in ordered
  {
    if i in ordered {
      var a :| 0 <= a < |ordered| && ordered[a] == i;
      var k: nat :| k > 0 && Follow(copies, i, k) == Some(i);
      var b := LeadsEarlier(copies, ordered, i, k, a);
      assert false;
    }
  }

  /** Every member is preceded by a member: nothing in the set can run first. */
  ghost predicate Stuck(copies: seq<EdgeCopy>, r: set<nat>) {
    && (forall i: nat :: i in r ==> i < |copies|)
    && (forall i: nat {:trigger Blocked(copies, r, i)} :: i in r ==> Blocked(copies, r, i))
  }

  ghost predicate Blocked(copies: seq<EdgeCopy>, r: set<nat>, i: nat) {
    exists p: nat :: p in r && Before(copies, p, i)
  }

  /** A walk backwards inside a stuck set, as long as wanted. */
  lemma {:induction false} WalkBack(copies: seq<EdgeCopy>, r: set<nat>, i: nat, n: nat) returns (walk: seq<nat>)
    requires Stuck(copies, r) && i in r
    ensures |walk| == n + 1 && walk[0] == i
    ensures forall a :: 0 <= a <= n ==> walk[a] in r
    ensures forall a :: 0 <= a < n ==> Before(copies, walk[a + 1], walk[a])
  {
    if n == 0 {
      walk := [i];
    } else {
      var front := WalkBack(copies, r, i, n - 1);
      hide Before;
      assert Blocked(copies, r, front[n - 1]);
      var p: nat :| p in r && Before(copies, p, front[n - 1]);
      walk := front + [p];
    }
  }

  lemma {:induction false} WalkForward(copies: seq<EdgeCopy>, walk: seq<nat>, a: nat, k: nat)
    requires k <= a < |walk| && (forall b :: 0 <= b < |walk| ==> walk[b] < |copies|)
    requires forall b :: 0 <= b < |walk| - 1 ==> Before(copies, walk[b + 1], walk[b])
    ensures Follow(copies, walk[a], k) == Some(walk[a - k])
  {
    if k > 0 {
      assert Before(copies, walk[a - 1 + 1], walk[a - 1]);
      WalkForward(copies, walk, a - 1, k - 1);
    }
  }

  /** A list without repetition drawn from a set is no longer than the set is large. */
  lemma {:induction false} Pigeonhole(s: seq<nat>, r: set<nat>)
    requires Distinct(s) && forall a :: 0 <= a < |s| ==> s[a] in r
    ensures |s| <= |r|
  {
    if s != [] {
      var n := |s| - 1;
      var rest := r - {s[n]};
      Pigeonhole(s[..n], rest);
    }
  }

  /** Every copy that can never run is on a cycle: nothing is merely downstream of one. */
  lemma StuckIsCycle(copies: seq<EdgeCopy>, r: set<nat>, i: nat)
    requires Stuck(copies, r) && i in r
    ensures OnCycle(copies, i)
  {
    hide Before, Follow;
    var walk := WalkBack(copies, r, i, |r|);
    if Distinct(walk) {
      Pigeonhole(walk, r);
      assert false;
    }
    var a, b :| 0 <= a < b < |walk| && walk[a] == walk[b];
    WalkForward(copies, walk, a, a);
    WalkForward(copies, walk, b, a);
    WalkForward(copies, walk, b - a, b - a);
    assert Follow(copies, i, b - a) == Some(i);
  }

  /** The copy before `i` on its cycle. */
  lemma CyclePredecessor(copies: seq<EdgeCopy>, i: nat) returns (p: nat)
    requires OnCycle(copies, i)
    ensures Before(copies, p, i) && OnCycle(copies, p)
  {
    var k: nat :| k > 0 && Follow(copies, i, k) == Some(i);
    FollowPush(copies, i, k - 1);
    p := Follow(copies, i, k - 1).value;
    assert Follow(copies, p, 1) == Some(i);
    assert Follow(copies, p, k) == Follow(copies, i, k - 1);
  }

  /** One step more at the end. */
  lemma {:induction false} FollowPush(copies: seq<EdgeCopy>, i: nat, k: nat)
    requires i < |copies|
    ensures Follow(copies, i, k + 1) ==
            if Follow(copies, i, k).None? then None else NextOf(copies, Follow(copies, i, k).value)
    decreases k
  {
    if k > 0 {
      var j := NextOf(copies, i);
      if j.Some? { FollowPush(copies, j.value, k - 1); }
    }
  }

  lemma CycleNotSkipped(copies: seq<EdgeCopy>, i: nat)
    requires OnCycle(copies, i)
    ensures !Skips(copies[i])
  {
    var k: nat :| k > 0 && Follow(copies, i, k) == Some(i);
  }

  // ---- guards ----

  /** The computation behind copy `k` reads what copy `i` overwrites. */
  ghost predicate Guards(copies: seq<EdgeCopy>, guards: seq<set<nat>>, k: nat, i: nat)
    requires i < |copies| == |guards|
  {
    k < |copies| && k != i && !Skips(copies[k]) && copies[i].dest in guards[k]
  }

  /** Copy `p` is to run before copy `i`: it reads what `i` overwrites, itself or through its computation. */
  ghost predicate Dep(copies: seq<EdgeCopy>, guards: seq<set<nat>>, p: nat, i: nat)
    requires |guards| == |copies|
  {
    p < |copies| && i < |copies| && (Before(copies, p, i) || Guards(copies, guards, p, i))
  }

  lemma DepReads(copies: seq<EdgeCopy>, guards: seq<set<nat>>, p: nat, i: nat)
    requires |guards| == |copies| && Dep(copies, guards, p, i)
    ensures p != i && !Skips(copies[p])
  {
  }

  /** Every copy comes after everything that is to run before it. */
  ghost predicate Meets(copies: seq<EdgeCopy>, guards: seq<set<nat>>, ordered: seq<nat>)
    requires |guards| == |copies|
  {
    forall a, p: nat :: 0 <= a < |ordered| && Dep(copies, guards, p, ordered[a]) ==> p in ordered[..a]
  }

  /** An order exists that meets precedences and guards alike on everything off the cycles. */
  ghost predicate Settled(copies: seq<EdgeCopy>, guards: seq<set<nat>>)
    requires |guards| == |copies|
  {
    exists rank: seq<nat> :: SettledBy(copies, guards, rank)
  }

  ghost predicate SettledBy(copies: seq<EdgeCopy>, guards: seq<set<nat>>, rank: seq<nat>)
    requires |guards| == |copies|
  {
    && |rank| == |copies|
    && forall p: nat, i: nat :: Dep(copies, guards, p, i) && !OnCycle(copies, i) && !Skips(copies[i]) ==>
         !OnCycle(copies, p) && rank[p] < rank[i]
  }

  predicate NoGuards(guards: seq<set<nat>>) {
    forall k :: 0 <= k < |guards| ==> guards[k] == {}
  }

  /** The guards never have to be overridden. */
  ghost predicate Calm(copies: seq<EdgeCopy>, guards: seq<set<nat>>)
    requires |guards| == |copies|
  {
    Settled(copies, guards) || NoGuards(guards)
  }
}
