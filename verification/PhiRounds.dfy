/**
 The order in which the copies of one edge come out, src/ir/mem2reg/phi_eliminate.rs: the scan
 goes round by round in index order, so a copy waits one more round whenever a copy with a higher
 index must precede it.
 */
module PhiRounds {
  import opened PhiGraph

  function Drop(p: nat, i: nat): nat {
    if p > i then 1 else 0
  }

  predicate Ascending(s: seq<nat>) {
    forall a, b :: 0 <= a < b < |s| ==> s[a] < s[b]
  }

  /** Round first, index second. */
  predicate Earlier(r: nat, i: nat, s: nat, j: nat) {
    r < s || (r == s && i < j)
  }

  // ---- what the scan maintains ----

  ghost predicate Tight(copies: seq<EdgeCopy>, guards: seq<set<nat>>, ordered: seq<nat>, rd: seq<nat>, i: nat)
    requires |guards| == |copies| == |rd| && i < |copies|
  {
    exists p: nat :: Dep(copies, guards, p, i) && p in ordered && rd[p] + Drop(p, i) == rd[i]
  }

  /** All of a copy's predecessors are out, none of them in too late a round. */
  ghost predicate Fed(copies: seq<EdgeCopy>, guards: seq<set<nat>>, ordered: seq<nat>, rd: seq<nat>, i: nat)
    requires |guards| == |copies| == |rd| && i < |copies|
  {
    forall p: nat :: Dep(copies, guards, p, i) ==> p in ordered && rd[p] + Drop(p, i) <= rd[i]
  }

  /** `rd` gives each emitted copy its round. */
  ghost predicate Timed(copies: seq<EdgeCopy>, guards: seq<set<nat>>, ordered: seq<nat>, rd: seq<nat>) {
    && |guards| == |copies| == |rd|
    && (forall a :: 0 <= a < |ordered| ==> ordered[a] < |copies|)
    && (forall a :: 0 <= a < |ordered| ==> Fed(copies, guards, ordered, rd, ordered[a]))
    && (forall a :: 0 <= a < |ordered| ==> rd[ordered[a]] == 0 || Tight(copies, guards, ordered, rd, ordered[a]))
    && (forall a, b :: 0 <= a < b < |ordered| ==> Earlier(rd[ordered[a]], ordered[a], rd[ordered[b]], ordered[b]))
  }

  /** What keeps a copy from running before round `r`. */
  ghost predicate Waits(copies: seq<EdgeCopy>, guards: seq<set<nat>>, ordered: seq<nat>, rd: seq<nat>, r: nat, i: nat)
    requires |guards| == |copies| == |rd|
  {
    exists p: nat :: Dep(copies, guards, p, i) && (p !in ordered || rd[p] + Drop(p, i) == r)
  }

  /** In round `r`: `blocked` has been looked at and held back, `rest` is still to be looked at. */
  ghost predicate Scanning(copies: seq<EdgeCopy>, guards: seq<set<nat>>, ordered: seq<nat>, rd: seq<nat>, r: nat, blocked: seq<nat>, rest: seq<nat>) {
    && Timed(copies, guards, ordered, rd)
    && Ascending(blocked + rest)
    && (forall a :: 0 <= a < |ordered| ==> rd[ordered[a]] <= r)
    && (forall a, k :: 0 <= a < |ordered| && 0 <= k < |rest| && rd[ordered[a]] == r ==> ordered[a] < rest[k])
    && (forall k :: 0 <= k < |blocked| ==> Waits(copies, guards, ordered, rd, r + 1, blocked[k]))
    && (forall k :: 0 <= k < |rest| ==> r == 0 || Waits(copies, guards, ordered, rd, r, rest[k]))
  }

  lemma TimedEmit(copies: seq<EdgeCopy>, guards: seq<set<nat>>, ordered: seq<nat>, rd: seq<nat>, r: nat, i: nat)
    requires Timed(copies, guards, ordered, rd) && i < |copies| && i !in ordered
    requires forall a :: 0 <= a < |ordered| ==> rd[ordered[a]] < r || (rd[ordered[a]] == r && ordered[a] < i)
    requires r == 0 || Waits(copies, guards, ordered, rd, r, i)
    requires forall p: nat :: Dep(copies, guards, p, i) ==> p in ordered
    ensures Timed(copies, guards, ordered + [i], rd[i := r])
  {
    hide Fed, Tight, Waits, Dep;
    var more, rd' := ordered + [i], rd[i := r];
    assert forall a :: 0 <= a < |ordered| ==> more[a] == ordered[a] && ordered[a] != i;
    EmittedFed(copies, guards, ordered, rd, r, i);
    forall a | 0 <= a < |ordered|
      ensures Fed(copies, guards, more, rd', ordered[a])
      ensures rd'[ordered[a]] == 0 || Tight(copies, guards, more, rd', ordered[a])
    {
      FedStays(copies, guards, ordered, rd, r, i, ordered[a]);
    }
  }

  lemma FedStays(copies: seq<EdgeCopy>, guards: seq<set<nat>>, ordered: seq<nat>, rd: seq<nat>, r: nat, i: nat, j: nat)
    requires |guards| == |copies| == |rd| && i < |copies| && j < |copies| && i !in ordered && i != j
    requires Fed(copies, guards, ordered, rd, j) && (rd[j] == 0 || Tight(copies, guards, ordered, rd, j))
    ensures Fed(copies, guards, ordered + [i], rd[i := r], j)
    ensures rd[j] == 0 || Tight(copies, guards, ordered + [i], rd[i := r], j)
  {
    if rd[j] != 0 {
      var p: nat :| Dep(copies, guards, p, j) && p in ordered && rd[p] + Drop(p, j) == rd[j];
      assert p in ordered + [i];
    }
  }

  lemma EmittedFed(copies: seq<EdgeCopy>, guards: seq<set<nat>>, ordered: seq<nat>, rd: seq<nat>, r: nat, i: nat)
    requires |guards| == |copies| == |rd| && i < |copies| && i !in ordered && (forall a :: 0 <= a < |ordered| ==> ordered[a] < |copies|)
    requires forall a :: 0 <= a < |ordered| ==> rd[ordered[a]] < r || (rd[ordered[a]] == r && ordered[a] < i)
    requires r == 0 || Waits(copies, guards, ordered, rd, r, i)
    requires forall p: nat :: Dep(copies, guards, p, i) ==> p in ordered
    ensures Fed(copies, guards, ordered + [i], rd[i := r], i)
    ensures r == 0 || Tight(copies, guards, ordered + [i], rd[i := r], i)
  {
    hide Dep;
    var rd' := rd[i := r];
    forall p: nat | Dep(copies, guards, p, i)
      ensures p in ordered && p != i && rd'[p] + Drop(p, i) <= r
    {
      var a :| 0 <= a < |ordered| && ordered[a] == p;
    }
    if r != 0 {
      var p: nat :| Dep(copies, guards, p, i) && (p !in ordered || rd[p] + Drop(p, i) == r);
      assert p in ordered + [i];
    }
  }

  lemma WaitsEmit(copies: seq<EdgeCopy>, guards: seq<set<nat>>, ordered: seq<nat>, rd: seq<nat>, r: nat, s: nat, i: nat, j: nat)
    requires |guards| == |copies| == |rd| && i < |copies| && i !in ordered && Waits(copies, guards, ordered, rd, s, j)
    requires r + Drop(i, j) == s
    ensures Waits(copies, guards, ordered + [i], rd[i := r], s, j)
  {
    var p: nat :| Dep(copies, guards, p, j) && (p !in ordered || rd[p] + Drop(p, j) == s);
    assert p != i ==> (p in ordered + [i] <==> p in ordered);
  }

  /** Emitting the copy looked at. */
  lemma ScanEmit(copies: seq<EdgeCopy>, guards: seq<set<nat>>, ordered: seq<nat>, rd: seq<nat>, r: nat, blocked: seq<nat>, i: nat, rest: seq<nat>)
    requires Scanning(copies, guards, ordered, rd, r, blocked, [i] + rest) && i < |copies| && i !in ordered
    requires forall p: nat :: Dep(copies, guards, p, i) ==> p in ordered
    ensures Scanning(copies, guards, ordered + [i], rd[i := r], r, blocked, rest)
  {
    hide Dep, Timed, Waits;
    var all := blocked + ([i] + rest);
    TimedIndices(copies, guards, ordered, rd);
    AscendingAround(blocked, i, rest);
    assert ([i] + rest)[0] == i;
    assert forall k :: 0 <= k < |rest| ==> ([i] + rest)[k + 1] == rest[k];
    TimedEmit(copies, guards, ordered, rd, r, i);
    forall k | 0 <= k < |blocked|
      ensures Waits(copies, guards, ordered + [i], rd[i := r], r + 1, blocked[k])
    {
      WaitsEmit(copies, guards, ordered, rd, r, r + 1, i, blocked[k]);
    }
    forall k | 0 <= k < |rest|
      ensures r == 0 || Waits(copies, guards, ordered + [i], rd[i := r], r, rest[k])
    {
      assert ([i] + rest)[k + 1] == rest[k];
      if r != 0 { WaitsEmit(copies, guards, ordered, rd, r, r, i, rest[k]); }
    }
  }

  lemma TimedIndices(copies: seq<EdgeCopy>, guards: seq<set<nat>>, ordered: seq<nat>, rd: seq<nat>)
    requires Timed(copies, guards, ordered, rd)
    ensures |guards| == |copies| == |rd| && forall a :: 0 <= a < |ordered| ==> ordered[a] < |copies|
  {
  }

  lemma AscendingAround(a: seq<nat>, x: nat, b: seq<nat>)
    requires Ascending(a + ([x] + b))
    ensures Ascending(a + b)
    ensures forall k :: 0 <= k < |a| ==> a[k] < x
    ensures forall k :: 0 <= k < |b| ==> x < b[k]
  {
    var all, left := a + ([x] + b), a + b;
    assert all[|a|] == x;
    assert forall k :: 0 <= k < |a| ==> all[k] == a[k];
    forall k | 0 <= k < |b|
      ensures x < b[k]
    {
      assert all[|a| + 1 + k] == b[k];
    }
    forall k, l | 0 <= k < l < |left|
      ensures left[k] < left[l]
    {
      assert left[k] == all[if k < |a| then k else k + 1] && left[l] == all[if l < |a| then l else l + 1];
    }
  }

  /** Holding it back. */
  lemma ScanBlock(copies: seq<EdgeCopy>, guards: seq<set<nat>>, ordered: seq<nat>, rd: seq<nat>, r: nat, blocked: seq<nat>, i: nat, rest: seq<nat>, p: nat)
    requires Scanning(copies, guards, ordered, rd, r, blocked, [i] + rest)
    requires |guards| == |copies| && Dep(copies, guards, p, i) && p !in ordered
    ensures Scanning(copies, guards, ordered, rd, r, blocked + [i], rest)
  {
    hide Dep, Timed;
    TimedIndices(copies, guards, ordered, rd);
    assert (blocked + [i]) + rest == blocked + ([i] + rest);
    assert forall k :: 0 <= k < |rest| ==> ([i] + rest)[k + 1] == rest[k];
    assert Waits(copies, guards, ordered, rd, r + 1, i);
    hide Waits;
  }

  /** The end of one round is the start of the next. */
  lemma NextRound(copies: seq<EdgeCopy>, guards: seq<set<nat>>, ordered: seq<nat>, rd: seq<nat>, r: nat, blocked: seq<nat>)
    requires Scanning(copies, guards, ordered, rd, r, blocked, [])
    ensures Scanning(copies, guards, ordered, rd, r + 1, [], blocked)
  {
    hide Timed, Waits;
    TimedIndices(copies, guards, ordered, rd);
    assert blocked + [] == blocked && [] + blocked == blocked;
  }

  lemma ScanStart(copies: seq<EdgeCopy>, guards: seq<set<nat>>, rd: seq<nat>, rest: seq<nat>)
    requires |guards| == |copies| == |rd| && Ascending(rest)
    ensures Scanning(copies, guards, [], rd, 0, [], rest)
  {
    assert [] + rest == rest;
  }

  // ---- the rounds, read off the copies ----

  /** Each copy of the chain must precede the next. */
  ghost predicate IsChain(copies: seq<EdgeCopy>, guards: seq<set<nat>>, c: seq<nat>)
    requires |guards| == |copies|
  {
    c != [] && forall k :: 0 <= k < |c| - 1 ==> Dep(copies, guards, c[k], c[k + 1])
  }

  /** How often the index drops along a chain. */
  function Drops(c: seq<nat>): nat {
    if |c| < 2 then 0 else Drops(c[..|c| - 1]) + Drop(c[|c| - 2], c[|c| - 1])
  }

  ghost predicate ChainTo(copies: seq<EdgeCopy>, guards: seq<set<nat>>, c: seq<nat>, i: nat)
    requires |guards| == |copies|
  {
    IsChain(copies, guards, c) && c[|c| - 1] == i
  }

  /** The round of a copy: the most index drops on any chain of copies that must precede it. */
  ghost predicate HasRound(copies: seq<EdgeCopy>, guards: seq<set<nat>>, i: nat, r: nat)
    requires |guards| == |copies|
  {
    && (exists c: seq<nat> :: ChainTo(copies, guards, c, i) && Drops(c) == r)
    && (forall c: seq<nat> :: ChainTo(copies, guards, c, i) ==> Drops(c) <= r)
  }

  lemma RoundUnique(copies: seq<EdgeCopy>, guards: seq<set<nat>>, i: nat, r: nat, s: nat)
    requires |guards| == |copies| && HasRound(copies, guards, i, r) && HasRound(copies, guards, i, s)
    ensures r == s
  {
  }

  /** `rd` lists the rounds of the given copies. */
  ghost predicate RoundsOf(copies: seq<EdgeCopy>, guards: seq<set<nat>>, ordered: seq<nat>, rd: seq<nat>)
    requires |guards| == |copies|
  {
    |rd| == |copies| && forall a :: 0 <= a < |ordered| ==> ordered[a] < |copies| && HasRound(copies, guards, ordered[a], rd[ordered[a]])
  }

  /** Strictly increasing by round, then by index. */
  predicate Sorted(ordered: seq<nat>, rd: seq<nat>) {
    && (forall a :: 0 <= a < |ordered| ==> ordered[a] < |rd|)
    && (forall a, b :: 0 <= a < b < |ordered| ==> Earlier(rd[ordered[a]], ordered[a], rd[ordered[b]], ordered[b]))
  }

  /** The order is by round and then by index. */
  ghost predicate InRounds(copies: seq<EdgeCopy>, guards: seq<set<nat>>, ordered: seq<nat>)
    requires |guards| == |copies|
  {
    exists rd: seq<nat> :: RoundsOf(copies, guards, ordered, rd) && Sorted(ordered, rd)
  }

  lemma {:induction false} ChainBounded(copies: seq<EdgeCopy>, guards: seq<set<nat>>, ordered: seq<nat>, rd: seq<nat>, c: seq<nat>, i: nat)
    requires Timed(copies, guards, ordered, rd) && i in ordered && ChainTo(copies, guards, c, i)
    ensures Drops(c) <= rd[i]
    decreases |c|
  {
    hide Dep;
    if |c| >= 2 {
      var front := c[..|c| - 1];
      var p := c[|c| - 2];
      assert Dep(copies, guards, c[|c| - 2], c[|c| - 2 + 1]);
      var a :| 0 <= a < |ordered| && ordered[a] == i;
      assert Fed(copies, guards, ordered, rd, ordered[a]);
      assert forall k :: 0 <= k < |front| ==> front[k] == c[k];
      ChainBounded(copies, guards, ordered, rd, front, p);
    }
  }

  /** Some chain has as many drops as the round says. */
  lemma {:induction false} ChainReached(copies: seq<EdgeCopy>, guards: seq<set<nat>>, ordered: seq<nat>, rd: seq<nat>, a: nat) returns (c: seq<nat>)
    requires Timed(copies, guards, ordered, rd) && a < |ordered|
    ensures ChainTo(copies, guards, c, ordered[a]) && Drops(c) == rd[ordered[a]]
    decreases a
  {
    hide Dep;
    var i := ordered[a];
    if rd[i] == 0 {
      c := [i];
    } else {
      assert Tight(copies, guards, ordered, rd, i);
      var p: nat :| Dep(copies, guards, p, i) && p in ordered && rd[p] + Drop(p, i) == rd[i];
      var b := PositionBefore(copies, guards, ordered, rd, p, a);
      var front := ChainReached(copies, guards, ordered, rd, b);
      c := front + [i];
      assert c[..|c| - 1] == front;
      ChainPush(copies, guards, front, i);
    }
  }

  lemma ChainPush(copies: seq<EdgeCopy>, guards: seq<set<nat>>, front: seq<nat>, i: nat)
    requires |guards| == |copies| && IsChain(copies, guards, front) && Dep(copies, guards, front[|front| - 1], i)
    ensures ChainTo(copies, guards, front + [i], i)
  {
    hide Dep;
    var c := front + [i];
    forall k | 0 <= k < |c| - 1
      ensures Dep(copies, guards, c[k], c[k + 1])
    {
      if k < |front| - 1 { assert Dep(copies, guards, front[k], front[k + 1]); }
    }
  }

  /** A predecessor stands before its copy. */
  lemma PositionBefore(copies: seq<EdgeCopy>, guards: seq<set<nat>>, ordered: seq<nat>, rd: seq<nat>, p: nat, a: nat) returns (b: nat)
    requires Timed(copies, guards, ordered, rd) && a < |ordered| && Dep(copies, guards, p, ordered[a])
    ensures b < a && ordered[b] == p
  {
    DepReads(copies, guards, p, ordered[a]);
    hide Dep, Tight;
    assert Fed(copies, guards, ordered, rd, ordered[a]);
    b :| 0 <= b < |ordered| && ordered[b] == p;
  }

  lemma TimedInRounds(copies: seq<EdgeCopy>, guards: seq<set<nat>>, ordered: seq<nat>, rd: seq<nat>)
    requires Timed(copies, guards, ordered, rd)
    ensures InRounds(copies, guards, ordered)
  {
    forall a | 0 <= a < |ordered|
      ensures HasRound(copies, guards, ordered[a], rd[ordered[a]])
    {
      var c := ChainReached(copies, guards, ordered, rd, a);
      forall d: seq<nat> | ChainTo(copies, guards, d, ordered[a])
        ensures Drops(d) <= rd[ordered[a]]
      {
        ChainBounded(copies, guards, ordered, rd, d, ordered[a]);
      }
    }
    hide HasRound;
    assert RoundsOf(copies, guards, ordered, rd) && Sorted(ordered, rd);
  }

  lemma TimedMeets(copies: seq<EdgeCopy>, guards: seq<set<nat>>, ordered: seq<nat>, rd: seq<nat>)
    requires Timed(copies, guards, ordered, rd)
    ensures Meets(copies, guards, ordered)
  {
    forall a, p: nat | 0 <= a < |ordered| && Dep(copies, guards, p, ordered[a])
      ensures p in ordered[..a]
    {
      var b := PositionBefore(copies, guards, ordered, rd, p, a);
      assert ordered[..a][b] == p;
    }
  }
}
