/**
 Replacing the phis of a block by copies, `emit_multi_phi_copies` of
 src/ir/mem2reg/phi_eliminate.rs: temporaries saved on each incoming edge, direct copies in the
 planned order, and the copies out of the temporaries at the head of the block.
 */
module PhiCopies {
  import opened Options
  import opened PhiGraph
  import opened WordIr
  import opened PhiPlan

  /** A phi and its incoming operand for each predecessor label. */
  datatype Phi = Phi(dest: nat, incoming: map<nat, Operand>)

  datatype Policy = Acyclic | Legacy

  /** Distinct destinations, and every value of the block numbered below `next`. */
  predicate WellFormed(phis: seq<Phi>, next: nat) {
    && (forall i, j :: 0 <= i < j < |phis| ==> phis[i].dest != phis[j].dest)
    && (forall i :: 0 <= i < |phis| ==> phis[i].dest < next)
    && (forall i, p :: 0 <= i < |phis| && p in phis[i].incoming && phis[i].incoming[p].Val? ==> phis[i].incoming[p].id < next)
  }

  /** The meaning of the phis on one edge: all of them take their incoming values at once. */
  ghost predicate Simultaneous(phis: seq<Phi>, pred: nat, next: nat, env: Env, after: Env) {
    && (forall i :: 0 <= i < |phis| && pred in phis[i].incoming ==> Reg(after, phis[i].dest) == Eval(env, phis[i].incoming[pred]))
    && (forall id: nat :: id < next && (forall i :: 0 <= i < |phis| ==> phis[i].dest != id) ==> Reg(after, id) == Reg(env, id))
  }

  /** `edge_copies_info`. */
  function InfoOf(phi: Phi, pred: nat): EdgeCopy {
    EdgeCopy(phi.dest, if pred in phi.incoming && phi.incoming[pred].Val? then Some(phi.incoming[pred].id) else None)
  }

  /** The planner sees a register as the source exactly when the incoming operand is that register. */
  lemma InfoReads(phi: Phi, pred: nat, v: nat)
    ensures InfoOf(phi, pred).dest == phi.dest
    ensures InfoOf(phi, pred).src == Some(v) <==> pred in phi.incoming && phi.incoming[pred] == Val(v)
  {
  }

  function EdgeInfo(phis: seq<Phi>, pred: nat): (info: seq<EdgeCopy>)
    ensures |info| == |phis| && forall i :: 0 <= i < |phis| ==> info[i] == InfoOf(phis[i], pred)
  {
    seq(|phis|, i requires 0 <= i < |phis| => InfoOf(phis[i], pred))
  }

  // ---- pass 1: save the sources of the temporary-backed phis ----

  /** Temporaries are fresh and pairwise different. */
  predicate Temps(temps: seq<Option<nat>>, next: nat) {
    && (forall i :: 0 <= i < |temps| && temps[i].Some? ==> temps[i].value >= next)
    && (forall i, j :: 0 <= i < j < |temps| && temps[i].Some? && temps[j].Some? ==> temps[i] != temps[j])
  }

  function Pass1(phis: seq<Phi>, temps: seq<Option<nat>>, pred: nat, n: nat): seq<Inst>
    requires n <= |phis| == |temps|
  {
    if n == 0 then []
    else
      Pass1(phis, temps, pred, n - 1) +
      if temps[n - 1].Some? && pred in phis[n - 1].incoming then [Copy(temps[n - 1].value, phis[n - 1].incoming[pred])] else []
  }

  ghost predicate Saved(phis: seq<Phi>, temps: seq<Option<nat>>, pred: nat, next: nat, n: nat, env: Env, after: Env)
    requires n <= |phis| == |temps|
  {
    && (forall id: nat :: id < next ==> Reg(after, id) == Reg(env, id))
    && (forall i :: 0 <= i < n && temps[i].Some? && pred in phis[i].incoming ==> Reg(after, temps[i].value) == Eval(env, phis[i].incoming[pred]))
  }

  lemma {:induction false} Pass1Saves(phis: seq<Phi>, temps: seq<Option<nat>>, pred: nat, next: nat, n: nat, env: Env)
    requires n <= |phis| == |temps| && WellFormed(phis, next) && Temps(temps, next)
    ensures Saved(phis, temps, pred, next, n, env, Run(Pass1(phis, temps, pred, n), env))
  {
    hide Run, WellFormed, Temps, Saved;
    if n == 0 {
      SavedNone(phis, temps, pred, next, env);
    } else {
      Pass1Saves(phis, temps, pred, next, n - 1, env);
      var front := Pass1(phis, temps, pred, n - 1);
      SavedStep(phis, temps, pred, next, n, env, Run(front, env));
      if temps[n - 1].Some? && pred in phis[n - 1].incoming {
        RunPush(front, Copy(temps[n - 1].value, phis[n - 1].incoming[pred]), env);
      } else {
        assert front + [] == front;
      }
    }
  }

  lemma SavedNone(phis: seq<Phi>, temps: seq<Option<nat>>, pred: nat, next: nat, env: Env)
    requires |phis| == |temps|
    ensures Saved(phis, temps, pred, next, 0, env, Run([], env))
  {
  }

  lemma SavedStep(phis: seq<Phi>, temps: seq<Option<nat>>, pred: nat, next: nat, n: nat, env: Env, before: Env)
    requires 0 < n <= |phis| == |temps| && WellFormed(phis, next) && Temps(temps, next) && Saved(phis, temps, pred, next, n - 1, env, before)
    ensures if temps[n - 1].Some? && pred in phis[n - 1].incoming
            then Saved(phis, temps, pred, next, n, env, before[temps[n - 1].value := Eval(before, phis[n - 1].incoming[pred])])
            else Saved(phis, temps, pred, next, n, env, before)
  {
    if temps[n - 1].Some? && pred in phis[n - 1].incoming {
      assert Eval(before, phis[n - 1].incoming[pred]) == Eval(env, phis[n - 1].incoming[pred]);
      hide WellFormed, Eval;
    }
  }

  // ---- pass 2: direct copies in the planned order ----

  /** Whether phi `i` gets a direct copy on this edge. */
  predicate Emits(phis: seq<Phi>, temps: seq<Option<nat>>, pred: nat, i: nat)
    requires i < |phis| == |temps|
  {
    temps[i].None? && pred in phis[i].incoming && phis[i].incoming[pred] != Val(phis[i].dest)
  }

  function Pass2(phis: seq<Phi>, temps: seq<Option<nat>>, pred: nat, order: seq<nat>): seq<Inst>
    requires |phis| == |temps| && forall a :: 0 <= a < |order| ==> order[a] < |phis|
  {
    if order == [] then []
    else
      var i := order[|order| - 1];
      Pass2(phis, temps, pred, order[..|order| - 1]) +
      if Emits(phis, temps, pred, i) then [Copy(phis[i].dest, phis[i].incoming[pred])] else []
  }

  /** After the direct copies of `order`: each has its value, and nothing else below `next` moved; temporaries never do. */
  ghost predicate Moved(phis: seq<Phi>, temps: seq<Option<nat>>, pred: nat, next: nat, order: seq<nat>, env: Env, after: Env)
    requires |phis| == |temps| && forall a :: 0 <= a < |order| ==> order[a] < |phis|
  {
    && (forall id: nat :: id >= next ==> Reg(after, id) == Reg(env, id))
    && (forall a :: 0 <= a < |order| && Emits(phis, temps, pred, order[a]) ==>
          Reg(after, phis[order[a]].dest) == Eval(env, phis[order[a]].incoming[pred]))
    && (forall id: nat :: id < next && (forall a :: 0 <= a < |order| && Emits(phis, temps, pred, order[a]) ==> phis[order[a]].dest != id) ==>
          Reg(after, id) == Reg(env, id))
  }

  /** No source of a later direct copy is the destination of an earlier one. */
  ghost predicate SerialPhis(phis: seq<Phi>, temps: seq<Option<nat>>, pred: nat, order: seq<nat>)
    requires |phis| == |temps|
  {
    && Distinct(order)
    && (forall a :: 0 <= a < |order| ==> order[a] < |phis|)
    && (forall a, b :: 0 <= a < b < |order| && Emits(phis, temps, pred, order[a]) && Emits(phis, temps, pred, order[b]) ==>
          phis[order[b]].incoming[pred] != Val(phis[order[a]].dest))
  }

  lemma MovedStep(phis: seq<Phi>, temps: seq<Option<nat>>, pred: nat, next: nat, order: seq<nat>, i: nat, env: Env, before: Env)
    requires |phis| == |temps| && WellFormed(phis, next) && SerialPhis(phis, temps, pred, order + [i])
    requires i < |phis| && Emits(phis, temps, pred, i)
    requires (forall a :: 0 <= a < |order| ==> order[a] < |phis|) && Moved(phis, temps, pred, next, order, env, before)
    ensures Moved(phis, temps, pred, next, order + [i], env, before[phis[i].dest := Eval(before, phis[i].incoming[pred])])
  {
    var more := order + [i];
    var src := phis[i].incoming[pred];
    assert more[|order|] == i;
    forall a | 0 <= a < |order|
      ensures more[a] == order[a] != i
    {
      assert more[a] != more[|order|];
    }
    if src.Val? {
      forall a | 0 <= a < |order| && Emits(phis, temps, pred, order[a])
        ensures phis[order[a]].dest != src.id
      {
        assert more[a] == order[a];
      }
    }
    assert Eval(before, src) == Eval(env, src);
    forall a | 0 <= a < |order|
      ensures phis[order[a]].dest != phis[i].dest
    {
      assert order[a] < i || i < order[a];
    }
  }

  lemma SerialFront(phis: seq<Phi>, temps: seq<Option<nat>>, pred: nat, order: seq<nat>)
    requires |phis| == |temps| && SerialPhis(phis, temps, pred, order) && order != []
    ensures var front := order[..|order| - 1];
            && SerialPhis(phis, temps, pred, front)
            && (forall a :: 0 <= a < |front| ==> front[a] < |phis|) && order[|order| - 1] < |phis|
  {
    var front := order[..|order| - 1];
    assert forall a :: 0 <= a < |front| ==> front[a] == order[a];
  }

  lemma {:induction false} Pass2Moves(phis: seq<Phi>, temps: seq<Option<nat>>, pred: nat, next: nat, order: seq<nat>, env: Env)
    requires |phis| == |temps| && WellFormed(phis, next) && SerialPhis(phis, temps, pred, order)
    ensures Moved(phis, temps, pred, next, order, env, Run(Pass2(phis, temps, pred, order), env))
  {
    if order != [] {
      var n := |order| - 1;
      var front, i := order[..n], order[n];
      assert order == front + [i];
      SerialFront(phis, temps, pred, order);
      hide Moved, SerialPhis, Run, WellFormed;
      Pass2Moves(phis, temps, pred, next, front, env);
      var code := Pass2(phis, temps, pred, front);
      var before := Run(code, env);
      if Emits(phis, temps, pred, i) {
        RunPush(code, Copy(phis[i].dest, phis[i].incoming[pred]), env);
        MovedStep(phis, temps, pred, next, front, i, env, before);
      } else {
        assert code + [] == code;
        MovedSkip(phis, temps, pred, next, front, i, env, before);
      }
    }
  }

  lemma MovedSkip(phis: seq<Phi>, temps: seq<Option<nat>>, pred: nat, next: nat, order: seq<nat>, i: nat, env: Env, after: Env)
    requires |phis| == |temps| && i < |phis| && !Emits(phis, temps, pred, i)
    requires (forall a :: 0 <= a < |order| ==> order[a] < |phis|) && Moved(phis, temps, pred, next, order, env, after)
    ensures Moved(phis, temps, pred, next, order + [i], env, after)
  {
    var more := order + [i];
    assert forall a :: 0 <= a < |order| ==> more[a] == order[a];
    assert more[|order|] == i;
  }

  // ---- the head of the block ----

  function TargetCopies(phis: seq<Phi>, temps: seq<Option<nat>>, n: nat): seq<Inst>
    requires n <= |phis| == |temps|
  {
    if n == 0 then []
    else TargetCopies(phis, temps, n - 1) + if temps[n - 1].Some? then [Copy(phis[n - 1].dest, Val(temps[n - 1].value))] else []
  }

  ghost predicate Restored(phis: seq<Phi>, temps: seq<Option<nat>>, n: nat, env: Env, after: Env)
    requires n <= |phis| == |temps|
  {
    && (forall i :: 0 <= i < n && temps[i].Some? ==> Reg(after, phis[i].dest) == Reg(env, temps[i].value))
    && (forall id: nat :: (forall i :: 0 <= i < n && temps[i].Some? ==> phis[i].dest != id) ==> Reg(after, id) == Reg(env, id))
  }

  lemma RestoredStep(phis: seq<Phi>, temps: seq<Option<nat>>, next: nat, n: nat, env: Env, before: Env)
    requires 0 < n <= |phis| == |temps| && WellFormed(phis, next) && Temps(temps, next) && temps[n - 1].Some?
    requires Restored(phis, temps, n - 1, env, before)
    ensures Restored(phis, temps, n, env, before[phis[n - 1].dest := Reg(before, temps[n - 1].value)])
  {
    assert forall i :: 0 <= i < n - 1 ==> phis[i].dest != temps[n - 1].value && phis[i].dest != phis[n - 1].dest;
    assert Reg(before, temps[n - 1].value) == Reg(env, temps[n - 1].value);
    hide WellFormed, Temps;
  }

  lemma {:induction false} TargetRestores(phis: seq<Phi>, temps: seq<Option<nat>>, next: nat, n: nat, env: Env)
    requires n <= |phis| == |temps| && WellFormed(phis, next) && Temps(temps, next)
    ensures Restored(phis, temps, n, env, Run(TargetCopies(phis, temps, n), env))
  {
    if n > 0 {
      hide WellFormed, Temps, Run;
      TargetRestores(phis, temps, next, n - 1, env);
      var front := TargetCopies(phis, temps, n - 1);
      if temps[n - 1].Some? {
        RunPush(front, Copy(phis[n - 1].dest, Val(temps[n - 1].value)), env);
        RestoredStep(phis, temps, next, n, env, Run(front, env));
      } else {
        assert front + [] == front;
      }
    }
  }

  // ---- one edge, end to end ----

  function EdgeCode(phis: seq<Phi>, temps: seq<Option<nat>>, pred: nat, order: seq<nat>): seq<Inst>
    requires |phis| == |temps| && forall a :: 0 <= a < |order| ==> order[a] < |phis|
  {
    Pass1(phis, temps, pred, |phis|) + Pass2(phis, temps, pred, order)
  }

  /** Every phi is served: by its temporary, by a direct copy, or because it keeps its own value. */
  ghost predicate Covers(phis: seq<Phi>, temps: seq<Option<nat>>, pred: nat, order: seq<nat>)
    requires |phis| == |temps|
  {
    forall i: nat :: i < |phis| && Emits(phis, temps, pred, i) ==> i in order
  }

  lemma PlanServes(phis: seq<Phi>, temps: seq<Option<nat>>, temp: set<nat>, pred: nat, order: seq<nat>)
    requires |phis| == |temps| && (forall i: nat :: i < |phis| ==> (temps[i].Some? <==> i in temp))
    requires Serial(EdgeInfo(phis, pred), temp, order)
    ensures SerialPhis(phis, temps, pred, order) && Covers(phis, temps, pred, order)
  {
    var info := EdgeInfo(phis, pred);
    assert forall i: nat :: i < |phis| && Emits(phis, temps, pred, i) ==> i !in temp && !Skips(info[i]);
    forall a, b | 0 <= a < b < |order| && Emits(phis, temps, pred, order[a]) && Emits(phis, temps, pred, order[b])
      ensures phis[order[b]].incoming[pred] != Val(phis[order[a]].dest)
    {
      assert info[order[b]].src != Some(info[order[a]].dest);
    }
  }

  lemma EdgeIsSimultaneous(phis: seq<Phi>, temps: seq<Option<nat>>, pred: nat, order: seq<nat>, next: nat, env: Env)
    requires |phis| == |temps| && WellFormed(phis, next) && Temps(temps, next)
    requires SerialPhis(phis, temps, pred, order) && Covers(phis, temps, pred, order)
    ensures Simultaneous(phis, pred, next, env, Run(EdgeCode(phis, temps, pred, order) + TargetCopies(phis, temps, |phis|), env))
  {
    var n := |phis|;
    var p1, p2, head := Pass1(phis, temps, pred, n), Pass2(phis, temps, pred, order), TargetCopies(phis, temps, n);
    RunAppend(p1 + p2, head, env);
    RunAppend(p1, p2, env);
    var e1 := Run(p1, env);
    var e2 := Run(p2, e1);
    var e3 := Run(head, e2);
    Pass1Saves(phis, temps, pred, next, n, env);
    Pass2Moves(phis, temps, pred, next, order, e1);
    TargetRestores(phis, temps, next, n, e2);
    hide Run, Pass1, Pass2, TargetCopies;
    forall i | 0 <= i < n && pred in phis[i].incoming
      ensures Reg(e3, phis[i].dest) == Eval(env, phis[i].incoming[pred])
    {
      OnePhi(phis, temps, pred, order, next, i, env, e1, e2, e3);
    }
    forall id: nat | id < next && forall i :: 0 <= i < n ==> phis[i].dest != id
      ensures Reg(e3, id) == Reg(env, id)
    {
    }
  }

  /** One phi through the three stages. */
  lemma OnePhi(phis: seq<Phi>, temps: seq<Option<nat>>, pred: nat, order: seq<nat>, next: nat, i: nat, env: Env, e1: Env, e2: Env, e3: Env)
    requires i < |phis| == |temps| && WellFormed(phis, next) && Temps(temps, next) && pred in phis[i].incoming
    requires SerialPhis(phis, temps, pred, order) && Covers(phis, temps, pred, order)
    requires Saved(phis, temps, pred, next, |phis|, env, e1) && Moved(phis, temps, pred, next, order, e1, e2)
    requires Restored(phis, temps, |phis|, e2, e3)
    ensures Reg(e3, phis[i].dest) == Eval(env, phis[i].incoming[pred])
  {
    var src := phis[i].incoming[pred];
    assert Eval(e1, src) == Eval(env, src);
    if temps[i].None? {
      assert forall k :: 0 <= k < |phis| && temps[k].Some? ==> phis[k].dest != phis[i].dest;
      if Emits(phis, temps, pred, i) {
        var a :| 0 <= a < |order| && order[a] == i;
        assert Reg(e2, phis[order[a]].dest) == Eval(e1, src);
      } else {
        Unmoved(phis, temps, pred, order, i);
      }
    }
  }

  lemma Unmoved(phis: seq<Phi>, temps: seq<Option<nat>>, pred: nat, order: seq<nat>, i: nat)
    requires i < |phis| == |temps| && (forall a :: 0 <= a < |order| ==> order[a] < |phis|) && !Emits(phis, temps, pred, i)
    requires forall i, j :: 0 <= i < j < |phis| ==> phis[i].dest != phis[j].dest
    ensures forall a :: 0 <= a < |order| && Emits(phis, temps, pred, order[a]) ==> phis[order[a]].dest != phis[i].dest
  {
    forall a | 0 <= a < |order| && Emits(phis, temps, pred, order[a])
      ensures phis[order[a]].dest != phis[i].dest
    {
      assert order[a] < i || i < order[a];
    }
  }

  // ---- the emitter ----

  /** `build_edge_copies`. */
  method BuildEdgeCopies(phis: seq<Phi>, temps: seq<Option<nat>>, pred: nat, order: seq<nat>) returns (copies: seq<Inst>)
    requires |phis| == |temps| && forall a :: 0 <= a < |order| ==> order[a] < |phis|
    ensures copies == EdgeCode(phis, temps, pred, order)
  {
    copies := [];
    for i := 0 to |phis|
      invariant copies == Pass1(phis, temps, pred, i)
    {
      if temps[i].Some? && pred in phis[i].incoming {
        copies := copies + [Copy(temps[i].value, phis[i].incoming[pred])];
      }
    }
    for a := 0 to |order|
      invariant copies == Pass1(phis, temps, pred, |phis|) + Pass2(phis, temps, pred, order[..a])
    {
      assert order[..a + 1][..a] == order[..a];
      var i := order[a];
      if temps[i].None? && pred in phis[i].incoming && phis[i].incoming[pred] != Val(phis[i].dest) {
        copies := copies + [Copy(phis[i].dest, phis[i].incoming[pred])];
      }
    }
    assert order[..|order|] == order;
  }

  /** What each policy makes of one edge. */
  ghost predicate PlanFor(policy: Policy, copies: seq<EdgeCopy>, plan: EdgePlan) {
    match policy case Acyclic => Exact(copies, plan) case Legacy => LegacyPlan(copies, plan)
  }

  /** `plan_all_edges`. */
  method PlanAllEdges(phis: seq<Phi>, preds: seq<nat>, guards: seq<seq<set<nat>>>, policy: Policy) returns (plans: seq<EdgePlan>)
    requires |guards| == |preds| && forall e :: 0 <= e < |preds| ==> |guards[e]| == |phis|
    ensures |plans| == |preds| && forall e :: 0 <= e < |preds| ==> PlanFor(policy, EdgeInfo(phis, preds[e]), plans[e])
  {
    hide Exact, LegacyPlan;
    plans := [];
    for e := 0 to |preds|
      invariant |plans| == e && forall k :: 0 <= k < e ==> PlanFor(policy, EdgeInfo(phis, preds[k]), plans[k])
    {
      var plan;
      if policy.Acyclic? {
        plan := PlanAcyclic(EdgeInfo(phis, preds[e]), guards[e]);
      } else {
        plan := PlanLegacy(EdgeInfo(phis, preds[e]));
      }
      plans := plans + [plan];
    }
  }

  lemma PlanIndices(policy: Policy, copies: seq<EdgeCopy>, plan: EdgePlan)
    requires PlanFor(policy, copies, plan)
    ensures forall i: nat :: i in plan.cyclic ==> i < |copies|
    ensures forall a :: 0 <= a < |plan.ordered| ==> plan.ordered[a] < |copies|
  {
    assert forall a :: 0 <= a < |plan.ordered| ==> plan.ordered[a] in plan.ordered;
  }

  /** The temporaries are numbered from `next` up to `next'`, all different. */
  predicate Numbered(temps: seq<Option<nat>>, next: nat, next': nat) {
    && next <= next'
    && (forall i :: 0 <= i < |temps| && temps[i].Some? ==> next <= temps[i].value < next')
    && (forall i, j :: 0 <= i < j < |temps| && temps[i].Some? && temps[j].Some? ==> temps[i].value != temps[j].value)
  }

  /** One temporary per phi that needs one on some edge, numbered from `next` in no particular order. */
  method AllocateTemps(n: nat, needs: set<nat>, next: nat) returns (temps: seq<Option<nat>>, next': nat)
    requires forall i :: i in needs ==> i < n
    ensures |temps| == n && Temps(temps, next) && next' == next + |needs| && Numbered(temps, next, next')
    ensures forall i: nat :: i < n ==> (temps[i].Some? <==> i in needs)
  {
    temps := seq(n, _ => None);
    next' := next;
    var todo := needs;
    while todo != {}
      invariant todo <= needs && |temps| == n && Temps(temps, next) && next' + |todo| == next + |needs|
      invariant forall i: nat :: i < n ==> (temps[i].Some? <==> i in needs && i !in todo)
      invariant Numbered(temps, next, next')
      decreases |todo|
    {
      var i :| i in todo;
      TempsPush(temps, next, next', i);
      temps := temps[i := Some(next')];
      next' := next' + 1;
      todo := todo - {i};
    }
  }

  lemma TempsPush(temps: seq<Option<nat>>, next: nat, next': nat, i: nat)
    requires Numbered(temps, next, next') && i < |temps| && temps[i].None?
    ensures Numbered(temps[i := Some(next')], next, next' + 1) && Temps(temps[i := Some(next')], next)
  {
  }

  // ---- what the copies write ----

  /** Every instruction copies one operand, into a phi's destination or one of the new temporaries. */
  predicate CopiesInto(code: seq<Inst>, phis: seq<Phi>, next: nat, next': nat) {
    forall k :: 0 <= k < |code| ==>
      && code[k].Copy?
      && (next <= code[k].dest < next' || exists i :: 0 <= i < |phis| && phis[i].dest == code[k].dest)
  }

  lemma IntoAppend(a: seq<Inst>, b: seq<Inst>, phis: seq<Phi>, next: nat, next': nat)
    requires CopiesInto(a, phis, next, next') && CopiesInto(b, phis, next, next')
    ensures CopiesInto(a + b, phis, next, next')
  {
    var all := a + b;
    forall k | 0 <= k < |all|
      ensures all[k].Copy? && (next <= all[k].dest < next' || exists i :: 0 <= i < |phis| && phis[i].dest == all[k].dest)
    {
      assert all[k] == if k < |a| then a[k] else b[k - |a|];
    }
  }

  lemma {:induction false} Pass1Into(phis: seq<Phi>, temps: seq<Option<nat>>, pred: nat, n: nat, next: nat, next': nat)
    requires n <= |phis| == |temps| && Numbered(temps, next, next')
    ensures CopiesInto(Pass1(phis, temps, pred, n), phis, next, next')
  {
    if n > 0 {
      Pass1Into(phis, temps, pred, n - 1, next, next');
      var last := if temps[n - 1].Some? && pred in phis[n - 1].incoming then [Copy(temps[n - 1].value, phis[n - 1].incoming[pred])] else [];
      IntoAppend(Pass1(phis, temps, pred, n - 1), last, phis, next, next');
    }
  }

  lemma {:induction false} Pass2Into(phis: seq<Phi>, temps: seq<Option<nat>>, pred: nat, order: seq<nat>, next: nat, next': nat)
    requires |phis| == |temps| && forall a :: 0 <= a < |order| ==> order[a] < |phis|
    ensures CopiesInto(Pass2(phis, temps, pred, order), phis, next, next')
  {
    if order != [] {
      var front, i := order[..|order| - 1], order[|order| - 1];
      Pass2Into(phis, temps, pred, front, next, next');
      var last := if Emits(phis, temps, pred, i) then [Copy(phis[i].dest, phis[i].incoming[pred])] else [];
      IntoAppend(Pass2(phis, temps, pred, front), last, phis, next, next');
    }
  }

  lemma EdgeInto(phis: seq<Phi>, temps: seq<Option<nat>>, pred: nat, order: seq<nat>, next: nat, next': nat)
    requires |phis| == |temps| && (forall a :: 0 <= a < |order| ==> order[a] < |phis|) && Numbered(temps, next, next')
    ensures CopiesInto(EdgeCode(phis, temps, pred, order), phis, next, next')
  {
    Pass1Into(phis, temps, pred, |phis|, next, next');
    Pass2Into(phis, temps, pred, order, next, next');
    IntoAppend(Pass1(phis, temps, pred, |phis|), Pass2(phis, temps, pred, order), phis, next, next');
  }

  lemma {:induction false} TargetInto(phis: seq<Phi>, temps: seq<Option<nat>>, n: nat, next: nat, next': nat)
    requires n <= |phis| == |temps|
    ensures CopiesInto(TargetCopies(phis, temps, n), phis, next, next')
  {
    if n > 0 {
      TargetInto(phis, temps, n - 1, next, next');
      var last := if temps[n - 1].Some? then [Copy(phis[n - 1].dest, Val(temps[n - 1].value))] else [];
      IntoAppend(TargetCopies(phis, temps, n - 1), last, phis, next, next');
    }
  }

  /** Both policies hand the emitter an order in which no source is overwritten early. */
  lemma PlansAreSerial(phis: seq<Phi>, next: nat, pred: nat, policy: Policy, plan: EdgePlan, temp: set<nat>)
    requires WellFormed(phis, next) && PlanFor(policy, EdgeInfo(phis, pred), plan) && plan.cyclic <= temp
    ensures Serial(EdgeInfo(phis, pred), temp, plan.ordered)
  {
    hide Exact, LegacyPlan, Serial;
    var info := EdgeInfo(phis, pred);
    assert DistinctDests(info);
    if policy.Acyclic? {
      ExactIsSerial(info, plan, temp);
    } else {
      LegacyIsSerial(info, plan, temp);
    }
  }

  /** The phis that some edge wants a temporary for. */
  ghost predicate Wanted(phis: seq<Phi>, preds: seq<nat>, policy: Policy, i: nat) {
    match policy
    case Acyclic => exists e :: 0 <= e < |preds| && OnCycle(EdgeInfo(phis, preds[e]), i)
    case Legacy => exists e :: 0 <= e < |preds| && i < |phis| && Marked(EdgeInfo(phis, preds[e]), i)
  }

  /** The union of the plans' cyclic sets. */
  method CollectNeeds(phis: seq<Phi>, preds: seq<nat>, policy: Policy, plans: seq<EdgePlan>) returns (needs: set<nat>)
    requires |plans| == |preds| && forall e :: 0 <= e < |preds| ==> PlanFor(policy, EdgeInfo(phis, preds[e]), plans[e])
    ensures forall i: nat :: i in needs <==> Wanted(phis, preds, policy, i)
    ensures (forall i: nat :: i in needs ==> i < |phis|) && forall e :: 0 <= e < |preds| ==> plans[e].cyclic <= needs
  {
    hide OnCycle, Marked, Sound;
    needs := {};
    for e := 0 to |plans|
      invariant forall i: nat :: i in needs <==> exists k :: 0 <= k < e && i in plans[k].cyclic
    {
      needs := needs + plans[e].cyclic;
    }
    forall e | 0 <= e < |preds|
      ensures forall i: nat :: i in plans[e].cyclic ==> i < |phis|
    {
      PlanIndices(policy, EdgeInfo(phis, preds[e]), plans[e]);
    }
  }

  /**
   `emit_multi_phi_copies`: on every edge, the edge's copies and then the block's have the meaning of the
   phis. The values from `next` to `next'` are spent on temporaries, one for each phi that some edge wants
   one for, and nothing but them and the phis' destinations is written.
   */
  method EmitMultiPhi(phis: seq<Phi>, preds: seq<nat>, guards: seq<seq<set<nat>>>, policy: Policy, next: nat)
    returns (target: seq<Inst>, edges: seq<seq<Inst>>, temps: seq<Option<nat>>, next': nat)
    requires WellFormed(phis, next) && |guards| == |preds| && forall e :: 0 <= e < |preds| ==> |guards[e]| == |phis|
    ensures |edges| == |preds| && |temps| == |phis|
    ensures forall e, env: Env :: 0 <= e < |preds| ==> Simultaneous(phis, preds[e], next, env, Run(edges[e] + target, env))
    ensures forall i: nat :: i < |phis| ==> (temps[i].Some? <==> Wanted(phis, preds, policy, i))
    ensures next' == next + |set i: nat | i < |temps| && temps[i].Some?|
    ensures forall i :: 0 <= i < |temps| && temps[i].Some? ==> next <= temps[i].value < next'
    ensures forall i, j :: 0 <= i < j < |temps| && temps[i].Some? && temps[j].Some? ==> temps[i].value != temps[j].value
    ensures CopiesInto(target, phis, next, next') && forall e :: 0 <= e < |preds| ==> CopiesInto(edges[e], phis, next, next')
  {
    hide Simultaneous, Run, WellFormed, Serial, EdgeCode, TargetCopies, Temps, Wanted, CopiesInto, PlanFor;
    var plans := PlanAllEdges(phis, preds, guards, policy);
    var needs := CollectNeeds(phis, preds, policy, plans);
    temps, next' := AllocateTemps(|phis|, needs, next);
    assert (set i: nat | i < |temps| && temps[i].Some?) == needs;
    target := BuildTarget(phis, temps);
    TargetInto(phis, temps, |phis|, next, next');
    edges := [];
    for e := 0 to |preds|
      invariant |edges| == e
      invariant forall k :: 0 <= k < e ==> CopiesInto(edges[k], phis, next, next')
      invariant forall k, env: Env :: 0 <= k < e ==> Simultaneous(phis, preds[k], next, env, Run(edges[k] + target, env))
    {
      PlanIndices(policy, EdgeInfo(phis, preds[e]), plans[e]);
      var code := BuildEdgeCopies(phis, temps, preds[e], plans[e].ordered);
      EdgeInto(phis, temps, preds[e], plans[e].ordered, next, next');
      PlansAreSerial(phis, next, preds[e], policy, plans[e], needs);
      PlanServes(phis, temps, needs, preds[e], plans[e].ordered);
      forall env: Env
        ensures Simultaneous(phis, preds[e], next, env, Run(code + target, env))
      {
        EdgeIsSimultaneous(phis, temps, preds[e], plans[e].ordered, next, env);
      }
      edges := edges + [code];
    }
  }

  method BuildTarget(phis: seq<Phi>, temps: seq<Option<nat>>) returns (target: seq<Inst>)
    requires |phis| == |temps|
    ensures target == TargetCopies(phis, temps, |phis|)
  {
    target := [];
    for i := 0 to |phis|
      invariant target == TargetCopies(phis, temps, i)
    {
      if temps[i].Some? {
        target := target + [Copy(phis[i].dest, Val(temps[i].value))];
      }
    }
  }
}
