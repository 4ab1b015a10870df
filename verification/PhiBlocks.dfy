/**
 Phi elimination over all blocks of a function, src/ir/mem2reg/phi_eliminate.rs: blocks with one phi
 need no temporaries, the others draw theirs from one counter.
 */
module PhiBlocks {
  import opened Options
  import opened WordIr
  import opened PhiGraph
  import opened PhiPlan
  import opened PhiCopies

  datatype PhiBlock = PhiBlock(phis: seq<Phi>, preds: seq<nat>, guards: seq<seq<set<nat>>>)

  /** The copies of one block; its temporaries are numbered from `first` up to `last`. */
  datatype Emitted = Emitted(target: seq<Inst>, edges: seq<seq<Inst>>, temps: seq<Option<nat>>, first: nat, last: nat)

  predicate ValidBlock(b: PhiBlock, next: nat) {
    WellFormed(b.phis, next) && |b.guards| == |b.preds| && forall e :: 0 <= e < |b.preds| ==> |b.guards[e]| == |b.phis|
  }

  /** The copies mean the phis of their block, keep every value below `first`, and write no other new value. */
  ghost predicate Eliminates(b: PhiBlock, m: Emitted) {
    && |m.edges| == |b.preds| && |m.temps| == |b.phis|
    && (forall e, env: Env :: 0 <= e < |b.preds| ==> Simultaneous(b.phis, b.preds[e], m.first, env, Run(m.edges[e] + m.target, env)))
    && Numbered(m.temps, m.first, m.last)
    && CopiesInto(m.target, b.phis, m.first, m.last)
    && (forall e :: 0 <= e < |b.preds| ==> CopiesInto(m.edges[e], b.phis, m.first, m.last))
  }

  /** `emit_single_phi_copies`: one copy per edge, unless the phi keeps its own value. */
  method EmitSinglePhi(phi: Phi, preds: seq<nat>) returns (edges: seq<seq<Inst>>)
    ensures |edges| == |preds|
    ensures forall e :: 0 <= e < |preds| ==>
              edges[e] == if preds[e] in phi.incoming && phi.incoming[preds[e]] != Val(phi.dest)
                          then [Copy(phi.dest, phi.incoming[preds[e]])] else []
  {
    edges := [];
    for e := 0 to |preds|
      invariant |edges| == e
      invariant forall k :: 0 <= k < e ==>
                  edges[k] == if preds[k] in phi.incoming && phi.incoming[preds[k]] != Val(phi.dest)
                              then [Copy(phi.dest, phi.incoming[preds[k]])] else []
    {
      if preds[e] in phi.incoming && phi.incoming[preds[e]] != Val(phi.dest) {
        edges := edges + [[Copy(phi.dest, phi.incoming[preds[e]])]];
      } else {
        edges := edges + [[]];
      }
    }
  }

  /** One phi is one assignment: its copy alone has the meaning of the block's phis. */
  lemma SingleIsSimultaneous(phis: seq<Phi>, pred: nat, next: nat, code: seq<Inst>, env: Env)
    requires |phis| == 1
    requires code == if pred in phis[0].incoming && phis[0].incoming[pred] != Val(phis[0].dest)
                     then [Copy(phis[0].dest, phis[0].incoming[pred])] else []
    ensures Simultaneous(phis, pred, next, env, Run(code + [], env)) && CopiesInto(code, phis, next, next)
  {
    assert code + [] == code;
    if code != [] {
      RunOne(code[0], env);
    }
  }

  /** One block. */
  method EmitBlock(b: PhiBlock, policy: Policy, next: nat) returns (m: Emitted)
    requires ValidBlock(b, next)
    ensures Eliminates(b, m) && m.first == next <= m.last
    ensures |b.phis| <= 1 ==> m.last == next
  {
    hide Simultaneous, Run, CopiesInto, WellFormed;
    if b.phis == [] {
      m := Emitted([], seq(|b.preds|, _ => []), [], next, next);
      assert forall e :: 0 <= e < |b.preds| ==> m.edges[e] == [];
      forall e, env: Env | 0 <= e < |b.preds|
        ensures Simultaneous(b.phis, b.preds[e], next, env, Run(m.edges[e] + m.target, env))
      {
        NothingToDo(b.preds[e], next, env);
      }
      EmptyInto(b.phis, next);
      assert Eliminates(b, m);
    } else if |b.phis| == 1 {
      var edges := EmitSinglePhi(b.phis[0], b.preds);
      m := Emitted([], edges, [None], next, next);
      forall e, env: Env | 0 <= e < |b.preds|
        ensures Simultaneous(b.phis, b.preds[e], next, env, Run(m.edges[e] + m.target, env))
      {
        SingleIsSimultaneous(b.phis, b.preds[e], next, edges[e], env);
      }
      forall e | 0 <= e < |b.preds|
        ensures CopiesInto(m.edges[e], b.phis, next, next)
      {
        SingleIsSimultaneous(b.phis, b.preds[e], next, edges[e], map[]);
      }
      EmptyInto(b.phis, next);
      assert Eliminates(b, m);
    } else {
      var target, edges, temps, last := EmitMultiPhi(b.phis, b.preds, b.guards, policy, next);
      m := Emitted(target, edges, temps, next, last);
      assert Eliminates(b, m);
    }
  }

  lemma NothingToDo(pred: nat, next: nat, env: Env)
    ensures Simultaneous([], pred, next, env, Run([] + [], env))
  {
    var none: seq<Inst> := [];
    assert none + none == none;
  }

  lemma EmptyInto(phis: seq<Phi>, next: nat)
    ensures CopiesInto([], phis, next, next)
  {
  }

  lemma NextGrows(b: PhiBlock, next: nat, next': nat)
    requires ValidBlock(b, next) && next <= next'
    ensures ValidBlock(b, next')
  {
  }

  /** Where the blocks before the `k`-th stop numbering. */
  function StartAt(out: seq<Emitted>, k: nat, next: nat): nat
    requires k <= |out|
  {
    if k == 0 then next else out[k - 1].last
  }

  /** Each block starts numbering where the one before it stopped. */
  ghost predicate Chained(out: seq<Emitted>, next: nat, next': nat) {
    && (forall k :: 0 <= k < |out| ==> out[k].first <= out[k].last)
    && (forall k :: 0 <= k < |out| ==> out[k].first == StartAt(out, k, next))
    && next' == StartAt(out, |out|, next)
  }

  lemma {:induction false} ChainedBounds(out: seq<Emitted>, next: nat, next': nat, a: nat, b: nat)
    requires Chained(out, next, next') && a < b < |out|
    ensures out[a].last <= out[b].first
    decreases b
  {
    if a < b - 1 { ChainedBounds(out, next, next', a, b - 1); }
  }

  lemma ChainedNone(next: nat)
    ensures Chained([], next, next)
  {
  }

  lemma ChainedPush(out: seq<Emitted>, next: nat, next': nat, m: Emitted)
    requires Chained(out, next, next') && m.first == next' <= m.last
    ensures Chained(out + [m], next, m.last)
  {
    var all := out + [m];
    assert forall k :: 0 <= k < |out| ==> all[k] == out[k];
    forall k | 0 <= k < |all|
      ensures all[k].first == StartAt(all, k, next)
    {
      if k < |out| { assert out[k].first == StartAt(out, k, next); }
    }
  }

  /** No copy of one block writes a temporary of another. */
  ghost predicate Apart(blocks: seq<PhiBlock>, out: seq<Emitted>) {
    |out| == |blocks| && forall a, b :: 0 <= a < |out| && 0 <= b < |out| && a != b ==> LeavesAlone(out[a], out[b])
  }

  ghost predicate LeavesAlone(m: Emitted, n: Emitted) {
    forall i :: 0 <= i < |n.temps| && n.temps[i].Some? ==>
      && (forall k :: 0 <= k < |m.target| ==> m.target[k].dest != n.temps[i].value)
      && (forall e, k :: 0 <= e < |m.edges| && 0 <= k < |m.edges[e]| ==> m.edges[e][k].dest != n.temps[i].value)
  }

  lemma ApartPair(b: PhiBlock, m: Emitted, n: Emitted, next: nat)
    requires Eliminates(b, m) && Numbered(n.temps, n.first, n.last) && next <= n.first && (forall i :: 0 <= i < |b.phis| ==> b.phis[i].dest < next)
    requires m.last <= n.first || n.last <= m.first
    ensures LeavesAlone(m, n)
  {
  }

  /** The loop over the blocks. */
  method EliminatePhis(blocks: seq<PhiBlock>, policy: Policy, next: nat) returns (out: seq<Emitted>, next': nat)
    requires forall k :: 0 <= k < |blocks| ==> ValidBlock(blocks[k], next)
    ensures |out| == |blocks| && forall k :: 0 <= k < |blocks| ==> Eliminates(blocks[k], out[k]) && next <= out[k].first
    ensures Chained(out, next, next') && Apart(blocks, out)
  {
    hide Eliminates, ValidBlock, Chained, LeavesAlone;
    out, next' := [], next;
    ChainedNone(next);
    for k := 0 to |blocks|
      invariant |out| == k && forall j :: 0 <= j < k ==> Eliminates(blocks[j], out[j]) && next <= out[j].first
      invariant Chained(out, next, next') && next <= next'
    {
      NextGrows(blocks[k], next, next');
      var m := EmitBlock(blocks[k], policy, next');
      ChainedPush(out, next, next', m);
      assert forall j :: 0 <= j < k ==> (out + [m])[j] == out[j];
      out := out + [m];
      next' := m.last;
    }
    forall a, b | 0 <= a < |out| && 0 <= b < |out| && a != b
      ensures LeavesAlone(out[a], out[b])
    {
      if a < b { ChainedBounds(out, next, next', a, b); } else { ChainedBounds(out, next, next', b, a); }
      assert ValidBlock(blocks[a], next) && Eliminates(blocks[b], out[b]);
      DestsBelow(blocks[a], next);
      NumberedOf(blocks[b], out[b]);
      ApartPair(blocks[a], out[a], out[b], next);
    }
  }

  lemma DestsBelow(b: PhiBlock, next: nat)
    requires ValidBlock(b, next)
    ensures forall i :: 0 <= i < |b.phis| ==> b.phis[i].dest < next
  {
  }

  lemma NumberedOf(b: PhiBlock, m: Emitted)
    requires Eliminates(b, m)
    ensures Numbered(m.temps, m.first, m.last)
  {
  }
}
