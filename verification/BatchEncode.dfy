/**
 Two-run batching of scripts/aarch64_operand_legality_matrix.py: `_expand` deduplicates the rows,
 `batch_encode` derives every row's verdict from one assembler run that names the refused lines
 and a second run over the survivors, and `encode` is the one-row reference it must agree with.
 */
module BatchEncode {
  import opened Bytes
  import opened Options

  datatype Verdict = Reject | Ok(bytes: seq<Byte>)

  /** What one assembler process reports: exit status, blamed line numbers, section bytes. */
  datatype AsRun = AsRun(exit: int, blamed: set<int>, data: seq<Byte>)

  /** The process on the prologue followed by the given lines. */
  type Runner = seq<string> -> AsRun

  // ---- an assembler that judges each line on its own ----

  type LineAsm = string -> Option<seq<Byte>>

  function Concat(asm: LineAsm, lines: seq<string>): seq<Byte>
    requires forall k :: 0 <= k < |lines| ==> asm(lines[k]).Some?
  {
    if lines == [] then [] else Concat(asm, lines[..|lines| - 1]) + asm(lines[|lines| - 1]).value
  }

  /** Lines are numbered from 1 and follow `prologue` lines of set-up. */
  ghost predicate HonestRun(r: AsRun, asm: LineAsm, prologue: nat, lines: seq<string>) {
    && (forall n: int :: n in r.blamed <==> 0 <= n - prologue - 1 < |lines| && asm(lines[n - prologue - 1]).None?)
    && (r.exit == 0 <==> r.blamed == {})
    && (r.exit == 0 ==> (forall k :: 0 <= k < |lines| ==> asm(lines[k]).Some?) && r.data == Concat(asm, lines))
  }

  ghost predicate Honest(run: Runner, asm: LineAsm, prologue: nat) {
    forall lines: seq<string> :: HonestRun(run(lines), asm, prologue, lines)
  }

  /** `encode`: a file of one instruction. */
  function Encode(asm: LineAsm, insn: string): Verdict {
    var r := asm(insn);
    if r.None? then Reject else Ok(r.value)
  }

  predicate Distinct(lines: seq<string>) {
    forall i, j :: 0 <= i < j < |lines| ==> lines[i] != lines[j]
  }

  /** The accepted lines, in order. */
  function Survivors(asm: LineAsm, lines: seq<string>): (out: seq<string>)
    ensures forall k :: 0 <= k < |out| ==> asm(out[k]).Some?
  {
    if lines == [] then []
    else
      var last := lines[|lines| - 1];
      Survivors(asm, lines[..|lines| - 1]) + (if asm(last).Some? then [last] else [])
  }

  lemma {:induction false} SurvivorsMember(asm: LineAsm, lines: seq<string>, x: string)
    ensures x in Survivors(asm, lines) <==> x in lines && asm(x).Some?
  {
    if lines != [] {
      SurvivorsMember(asm, lines[..|lines| - 1], x);
      assert lines == lines[..|lines| - 1] + [lines[|lines| - 1]];
    }
  }

  predicate OneWordEach(asm: LineAsm, lines: seq<string>)
    requires forall k :: 0 <= k < |lines| ==> asm(lines[k]).Some?
  {
    forall k :: 0 <= k < |lines| ==> |asm(lines[k]).value| == 4
  }

  lemma {:induction false} WordAt(asm: LineAsm, lines: seq<string>, n: nat)
    requires forall k :: 0 <= k < |lines| ==> asm(lines[k]).Some?
    requires OneWordEach(asm, lines) && n < |lines|
    ensures |Concat(asm, lines)| == 4 * |lines|
    ensures Concat(asm, lines)[4 * n..4 * n + 4] == asm(lines[n]).value
  {
    var front := lines[..|lines| - 1];
    if n < |front| {
      WordAt(asm, front, n);
    } else if front != [] {
      WordAt(asm, front, 0);
    }
  }

  // ---- the batch ----

  /** The table built from the survivors and their bytes. */
  ghost predicate TableOf(out: map<string, Verdict>, insns: seq<string>, accepted: seq<string>, data: seq<Byte>)
    requires |data| == 4 * |accepted|
  {
    && (forall i :: i in out <==> i in insns)
    && (forall i :: i in insns && i !in accepted ==> out[i] == Reject)
    && (forall n :: 0 <= n < |accepted| ==> accepted[n] in out && out[accepted[n]] == Ok(data[4 * n..4 * n + 4]))
  }

  method FillTable(insns: seq<string>, accepted: seq<string>, data: seq<Byte>) returns (out: map<string, Verdict>)
    requires |data| == 4 * |accepted| && Distinct(accepted) && forall x :: x in accepted ==> x in insns
    ensures TableOf(out, insns, accepted, data)
  {
    out := map i | i in insns :: Reject;
    for n := 0 to |accepted|
      invariant forall i :: i in out <==> i in insns
      invariant forall i :: i in insns && i !in accepted ==> out[i] == Reject
      invariant forall k :: 0 <= k < n ==> accepted[k] in out && out[accepted[k]] == Ok(data[4 * k..4 * k + 4])
    {
      out := out[accepted[n] := Ok(data[4 * n..4 * n + 4])];
    }
  }

  /** Exit status and diagnostics agree, and only lines of the block are blamed. */
  ghost predicate Attributable(r: AsRun, prologue: nat, lines: nat) {
    && (forall n :: n in r.blamed ==> prologue + 1 <= n <= prologue + lines)
    && (r.exit == 0 <==> r.blamed == {})
  }

  /** The blamed lines as positions in the block. */
  function Rejected(r: AsRun, prologue: nat): set<int> {
    set n | n in r.blamed :: n - prologue - 1
  }

  lemma RejectedIs(r: AsRun, prologue: nat)
    ensures forall k: int :: k in Rejected(r, prologue) <==> prologue + 1 + k in r.blamed
    ensures Rejected(r, prologue) == {} <==> r.blamed == {}
  {
    forall k: int
      ensures k in Rejected(r, prologue) <==> prologue + 1 + k in r.blamed
    {
      if prologue + 1 + k in r.blamed {
        assert (prologue + 1 + k) - prologue - 1 in Rejected(r, prologue);
      }
    }
    if r.blamed != {} {
      var n := Member(r.blamed);
      assert n - prologue - 1 in Rejected(r, prologue);
    }
  }

  lemma BlockLines(r: AsRun, prologue: nat, lines: nat)
    ensures (forall n :: n in Rejected(r, prologue) ==> 0 <= n < lines) <==> forall n :: n in r.blamed ==> prologue + 1 <= n <= prologue + lines
  {
    RejectedIs(r, prologue);
    hide Rejected;
    if forall n :: n in Rejected(r, prologue) ==> 0 <= n < lines {
      forall n | n in r.blamed
        ensures prologue + 1 <= n <= prologue + lines
      {
        assert n - prologue - 1 in Rejected(r, prologue);
      }
    }
  }

  /** The lines of a block that a run did not blame, in order. */
  function Unblamed(r: AsRun, prologue: nat, insns: seq<string>): seq<string> {
    Kept(insns, Rejected(r, prologue), |insns|)
  }

  /** The run whose bytes count: the first one, or a second one on the lines the first did not blame. */
  function Deciding(run: Runner, prologue: nat, insns: seq<string>): AsRun {
    if run(insns).blamed == {} then run(insns) else run(Unblamed(run(insns), prologue, insns))
  }

  /** When `batch_encode` comes back at all, whatever the process does. */
  ghost predicate Trusted(run: Runner, prologue: nat, insns: seq<string>) {
    && Distinct(insns) && Attributable(run(insns), prologue, |insns|)
    && var accepted := Unblamed(run(insns), prologue, insns);
    accepted == [] || (Deciding(run, prologue, insns).exit == 0 && |Deciding(run, prologue, insns).data| == 4 * |accepted|)
  }

  /** Blamed lines are refused, and the others get consecutive words of the deciding run. */
  ghost predicate Attributed(run: Runner, prologue: nat, insns: seq<string>, out: map<string, Verdict>) {
    && (forall i :: i in out <==> i in insns)
    && (forall k :: 0 <= k < |insns| ==> insns[k] in out && (out[insns[k]] == Reject <==> prologue + 1 + k in run(insns).blamed))
    && var accepted, data := Unblamed(run(insns), prologue, insns), Deciding(run, prologue, insns).data;
    forall n :: 0 <= n < |accepted| ==> accepted[n] in out && 4 * n + 4 <= |data| && out[accepted[n]] == Ok(data[4 * n..4 * n + 4])
  }

  /**
   `batch_encode`; `None` is the fatal exit. The first two conditions hold of any process; `asm` is any
   per-line function it may be following.
   */
  method BatchEncode(insns: seq<string>, run: Runner, prologue: nat, ghost asm: LineAsm) returns (out: Option<map<string, Verdict>>)
    ensures out.Some? <==> Trusted(run, prologue, insns)
    ensures out.Some? ==> Attributed(run, prologue, insns, out.value)
    ensures Honest(run, asm, prologue) && Distinct(insns) ==> Returns(asm, insns, out)
  {
    hide Returns, Honest, Survivors, Concat, Kept, Rejected, Attributed, BatchOutput, TableOf, Trusted, Unblamed, Deciding;
    HonestReturns(run, asm, prologue, insns);
    Guards(run, prologue, insns);
    if !Distinct(insns) {
      return None;
    }
    var first := run(insns);
    var rejected := Rejected(first, prologue);
    if exists n :: n in rejected && (n < 0 || n >= |insns|) {
      return None;
    }
    if first.exit == 0 && rejected != {} {
      return None;
    }
    if first.exit != 0 && rejected == {} {
      return None;
    }
    var accepted := Keep(insns, rejected);
    hide Distinct;
    if accepted == [] {
      out := Some(map i | i in insns :: Reject);
      NoneAttributed(run, prologue, insns, out.value);
    } else {
      var data := first.data;
      if rejected != {} {
        var second := run(accepted);
        if second.exit != 0 {
          return None;
        }
        data := second.data;
      }
      if |data| != 4 * |accepted| {
        return None;
      }
      var table := FillTable(insns, accepted, data);
      TableAttributes(run, prologue, insns, accepted, data, table);
      out := Some(table);
    }
  }

  /** The guards of the method, one after the other. */
  lemma Guards(run: Runner, prologue: nat, insns: seq<string>)
    ensures var first, rejected, accepted := run(insns), Rejected(run(insns), prologue), Kept(insns, Rejected(run(insns), prologue), |insns|);
            && (!Distinct(insns) ==> !Trusted(run, prologue, insns))
            && ((exists n :: n in rejected && (n < 0 || n >= |insns|)) ==> !Trusted(run, prologue, insns))
            && ((first.exit == 0) != (rejected == {}) ==> !Trusted(run, prologue, insns))
            && accepted == Unblamed(first, prologue, insns)
            && Deciding(run, prologue, insns) == (if rejected == {} then first else run(accepted))
            && (Distinct(insns) && !(exists n :: n in rejected && (n < 0 || n >= |insns|)) && ((first.exit == 0) == (rejected == {})) ==>
                  (Trusted(run, prologue, insns) <==>
                   accepted == [] || (Deciding(run, prologue, insns).exit == 0 && |Deciding(run, prologue, insns).data| == 4 * |accepted|)))
  {
    hide Rejected, Kept, Distinct, Attributable;
    AttributableIs(run(insns), prologue, |insns|);
  }

  lemma AttributableIs(r: AsRun, prologue: nat, lines: nat)
    ensures Attributable(r, prologue, lines) <==>
            !(exists n :: n in Rejected(r, prologue) && (n < 0 || n >= lines)) && ((r.exit == 0) == (Rejected(r, prologue) == {}))
    ensures Rejected(r, prologue) == {} <==> r.blamed == {}
  {
    BlockLines(r, prologue, lines);
    SameEmptiness(r, prologue);
    hide Rejected;
  }

  lemma SameEmptiness(r: AsRun, prologue: nat)
    ensures Rejected(r, prologue) == {} <==> r.blamed == {}
  {
    RejectedIs(r, prologue);
  }

  lemma NoneAttributed(run: Runner, prologue: nat, insns: seq<string>, out: map<string, Verdict>)
    requires Distinct(insns) && Unblamed(run(insns), prologue, insns) == [] && out == map i | i in insns :: Reject
    ensures Attributed(run, prologue, insns, out)
  {
    hide Distinct, Unblamed, Deciding;
    forall k | 0 <= k < |insns|
      ensures insns[k] in out && (out[insns[k]] == Reject <==> prologue + 1 + k in run(insns).blamed)
    {
      UnblamedAt(run(insns), prologue, insns, k);
    }
  }

  lemma TableAttributes(run: Runner, prologue: nat, insns: seq<string>, accepted: seq<string>, data: seq<Byte>, out: map<string, Verdict>)
    requires Distinct(insns) && |data| == 4 * |accepted| && TableOf(out, insns, accepted, data)
    requires accepted == Unblamed(run(insns), prologue, insns) && data == Deciding(run, prologue, insns).data
    ensures Attributed(run, prologue, insns, out)
  {
    hide Unblamed, Deciding, Distinct;
    forall k | 0 <= k < |insns|
      ensures insns[k] in out && (out[insns[k]] == Reject <==> prologue + 1 + k in run(insns).blamed)
    {
      UnblamedAt(run(insns), prologue, insns, k);
      if insns[k] in accepted {
        var n :| 0 <= n < |accepted| && accepted[n] == insns[k];
      }
    }
  }

  /** When the instructions differ, line `k` is kept exactly when it was not blamed. */
  lemma UnblamedAt(r: AsRun, prologue: nat, insns: seq<string>, k: nat)
    requires Distinct(insns) && k < |insns|
    ensures insns[k] in Unblamed(r, prologue, insns) <==> prologue + 1 + k !in r.blamed
  {
    RejectedIs(r, prologue);
    KeptMember(insns, Rejected(r, prologue), |insns|);
    hide Kept, Rejected, Distinct;
  }

  /** With an honest process only the byte count can fail. */
  lemma HonestTrusted(run: Runner, asm: LineAsm, prologue: nat, insns: seq<string>)
    requires Honest(run, asm, prologue) && Distinct(insns)
    ensures Unblamed(run(insns), prologue, insns) == Survivors(asm, insns)
    ensures Survivors(asm, insns) != [] ==> Deciding(run, prologue, insns).data == Concat(asm, Survivors(asm, insns))
    ensures Trusted(run, prologue, insns) <==>
            Survivors(asm, insns) == [] || |Concat(asm, Survivors(asm, insns))| == 4 * |Survivors(asm, insns)|
  {
    hide Honest, Survivors, Concat, Kept, Distinct, Rejected;
    FirstRun(run, asm, prologue, insns);
    RejectedIs(run(insns), prologue);
    BlockLines(run(insns), prologue, |insns|);
    KeptSurvivors(run, asm, prologue, insns);
    SecondRun(run, asm, prologue, insns);
  }

  /** What an honest process makes of the batch: only the byte count can be fatal, and survivors get their words. */
  ghost predicate Returns(asm: LineAsm, insns: seq<string>, out: Option<map<string, Verdict>>) {
    && (out.Some? <==> Survivors(asm, insns) == [] || |Concat(asm, Survivors(asm, insns))| == 4 * |Survivors(asm, insns)|)
    && (out.Some? ==> BatchOutput(asm, insns, out.value))
  }

  lemma HonestReturns(run: Runner, asm: LineAsm, prologue: nat, insns: seq<string>)
    ensures Honest(run, asm, prologue) && Distinct(insns) && !Trusted(run, prologue, insns) ==> Returns(asm, insns, None)
    ensures Honest(run, asm, prologue) && Distinct(insns) && Trusted(run, prologue, insns) ==>
              forall out :: Attributed(run, prologue, insns, out) ==> Returns(asm, insns, Some(out))
  {
    hide Honest, Survivors, Concat, Distinct, Attributed, TableOf, Unblamed, Deciding, Attributable;
    if Honest(run, asm, prologue) && Distinct(insns) {
      HonestTrusted(run, asm, prologue, insns);
      if Trusted(run, prologue, insns) {
        forall out | Attributed(run, prologue, insns, out)
          ensures Returns(asm, insns, Some(out))
        {
          AttributedTable(run, prologue, insns, out);
        }
      }
    }
  }

  lemma AttributedTable(run: Runner, prologue: nat, insns: seq<string>, out: map<string, Verdict>)
    requires Distinct(insns) && Attributed(run, prologue, insns, out)
    ensures var accepted, data := Unblamed(run(insns), prologue, insns), Deciding(run, prologue, insns).data;
            && (accepted == [] ==> forall i :: (i in out <==> i in insns) && (i in insns ==> out[i] == Reject))
            && (|data| == 4 * |accepted| ==> TableOf(out, insns, accepted, data))
  {
    hide Distinct, Deciding, Unblamed;
    var accepted := Unblamed(run(insns), prologue, insns);
    forall x | x in insns && x !in accepted
      ensures out[x] == Reject
    {
      var k :| 0 <= k < |insns| && insns[k] == x;
      UnblamedAt(run(insns), prologue, insns, k);
    }
  }

  /** Which instructions are kept, when they all differ. */
  lemma {:induction false} KeptMember(insns: seq<string>, rejected: set<int>, n: nat)
    requires n <= |insns| && Distinct(insns)
    ensures forall x :: x in Kept(insns, rejected, n) ==> x in insns[..n]
    ensures forall k :: 0 <= k < n ==> (insns[k] in Kept(insns, rejected, n) <==> k !in rejected)
  {
    if n > 0 {
      KeptMember(insns, rejected, n - 1);
      assert insns[..n] == insns[..n - 1] + [insns[n - 1]];
      assert insns[n - 1] !in insns[..n - 1];
      assert forall k :: 0 <= k < n - 1 ==> insns[..n - 1][k] == insns[k] && insns[k] != insns[n - 1];
    }
  }

  function Kept(insns: seq<string>, rejected: set<int>, n: nat): seq<string>
    requires n <= |insns|
  {
    if n == 0 then [] else Kept(insns, rejected, n - 1) + (if n - 1 in rejected then [] else [insns[n - 1]])
  }

  /** `[i for n, i in enumerate(insns) if n not in rejected]`. */
  method Keep(insns: seq<string>, rejected: set<int>) returns (accepted: seq<string>)
    requires Distinct(insns)
    ensures accepted == Kept(insns, rejected, |insns|)
    ensures Distinct(accepted) && forall x :: x in accepted ==> x in insns
  {
    accepted := [];
    for n := 0 to |insns|
      invariant accepted == Kept(insns, rejected, n)
      invariant Distinct(accepted)
      invariant forall x :: x in accepted ==> x in insns[..n]
    {
      assert insns[n] !in insns[..n];
      if n !in rejected {
        accepted := accepted + [insns[n]];
      }
    }
  }

  ghost predicate Blames(asm: LineAsm, insns: seq<string>, rejected: set<int>) {
    forall n: int :: n in rejected <==> 0 <= n < |insns| && asm(insns[n]).None?
  }

  lemma {:induction false} KeptIsSurvivors(asm: LineAsm, insns: seq<string>, rejected: set<int>, n: nat)
    requires n <= |insns| && Blames(asm, insns, rejected)
    ensures Kept(insns, rejected, n) == Survivors(asm, insns[..n])
  {
    if n > 0 {
      KeptIsSurvivors(asm, insns, rejected, n - 1);
      assert insns[..n][..n - 1] == insns[..n - 1];
    }
  }

  lemma KeptSurvivors(run: Runner, asm: LineAsm, prologue: nat, insns: seq<string>)
    requires Honest(run, asm, prologue)
    ensures Unblamed(run(insns), prologue, insns) == Survivors(asm, insns)
  {
    hide Honest, Rejected;
    RejectedLines(run, asm, prologue, insns);
    KeptIsSurvivors(asm, insns, Rejected(run(insns), prologue), |insns|);
    assert insns[..|insns|] == insns;
  }

  /** None of the fatal mismatches can arise from an honest first run. */
  lemma FirstRun(run: Runner, asm: LineAsm, prologue: nat, insns: seq<string>)
    requires Honest(run, asm, prologue)
    ensures forall n :: n in Rejected(run(insns), prologue) ==> 0 <= n < |insns|
    ensures run(insns).exit == 0 <==> run(insns).blamed == {}
    ensures run(insns).blamed == {} ==> Survivors(asm, insns) == insns && run(insns).data == Concat(asm, insns)
  {
    assert HonestRun(run(insns), asm, prologue, insns);
    RejectedLines(run, asm, prologue, insns);
    hide Rejected;
    if run(insns).blamed == {} {
      AllSurvive(asm, insns);
    }
  }

  lemma Member(s: set<int>) returns (n: int)
    requires s != {}
    ensures n in s
  {
    if forall k: int :: k !in s {
      assert false;
    }
    n :| n in s;
  }

  /** The second run sees only accepted lines. */
  lemma SecondRun(run: Runner, asm: LineAsm, prologue: nat, insns: seq<string>)
    requires Honest(run, asm, prologue)
    ensures var kept := Survivors(asm, insns);
            run(kept).exit == 0 && run(kept).data == Concat(asm, kept)
  {
    var kept := Survivors(asm, insns);
    assert HonestRun(run(kept), asm, prologue, kept);
    assert forall n: int :: n !in run(kept).blamed;
  }

  /** What an honest run leaves in the table: survivors get consecutive words of the second file. */
  ghost predicate BatchOutput(asm: LineAsm, insns: seq<string>, out: map<string, Verdict>) {
    var accepted := Survivors(asm, insns);
    if accepted == [] then
      forall i :: (i in out <==> i in insns) && (i in insns ==> out[i] == Reject)
    else
      |Concat(asm, accepted)| == 4 * |accepted| && TableOf(out, insns, accepted, Concat(asm, accepted))
  }

  lemma RejectedLines(run: Runner, asm: LineAsm, prologue: nat, insns: seq<string>)
    requires Honest(run, asm, prologue)
    ensures Blames(asm, insns, Rejected(run(insns), prologue))
  {
    RejectedIs(run(insns), prologue);
    var rejected := Rejected(run(insns), prologue);
    hide Rejected;
    forall n: int
      ensures n in rejected <==> 0 <= n < |insns| && asm(insns[n]).None?
    {
      var m := n + prologue + 1;
      assert HonestRun(run(insns), asm, prologue, insns);
      assert m in run(insns).blamed <==> 0 <= n < |insns| && asm(insns[n]).None?;
    }
  }

  lemma {:induction false} AllSurvive(asm: LineAsm, lines: seq<string>)
    requires forall k :: 0 <= k < |lines| ==> asm(lines[k]).Some?
    ensures Survivors(asm, lines) == lines
  {
    if lines != [] {
      AllSurvive(asm, lines[..|lines| - 1]);
      assert lines == lines[..|lines| - 1] + [lines[|lines| - 1]];
    }
  }

  /**
   Batching agrees with one-at-a-time encoding exactly when every accepted line is one word. The
   byte count alone does not ensure that: a long line and a short one can cancel out.
   */
  lemma BatchRefinesSingle(asm: LineAsm, insns: seq<string>, out: map<string, Verdict>)
    requires Distinct(insns) && BatchOutput(asm, insns, out)
    ensures (forall i :: i in insns ==> i in out && out[i] == Encode(asm, i)) <==> OneWordEach(asm, Survivors(asm, insns))
  {
    var accepted := Survivors(asm, insns);
    forall x { SurvivorsMember(asm, insns, x); }
    if OneWordEach(asm, accepted) {
      forall i | i in insns
        ensures i in out && out[i] == Encode(asm, i)
      {
        if i in accepted {
          var n :| 0 <= n < |accepted| && accepted[n] == i;
          WordAt(asm, accepted, n);
        }
      }
    }
    if forall i :: i in insns ==> i in out && out[i] == Encode(asm, i) {
      forall k | 0 <= k < |accepted|
        ensures |asm(accepted[k]).value| == 4
      {
        assert accepted[k] in accepted && accepted[k] in insns;
        assert out[accepted[k]] == Ok(Concat(asm, accepted)[4 * k..4 * k + 4]);
      }
    }
  }

  /** A two-word line beside an empty one passes the byte count and shifts both verdicts. */
  lemma ByteCountIsNotEnough(w: seq<Byte>)
    requires |w| == 8
    ensures var asm := (s: string) => if s == "two" then Some(w) else if s == "none" then Some([]) else None;
            && |Concat(asm, Survivors(asm, ["two", "none"]))| == 4 * |Survivors(asm, ["two", "none"])|
            && forall out :: BatchOutput(asm, ["two", "none"], out) ==> out["two"] != Encode(asm, "two")
  {
    var asm := (s: string) => if s == "two" then Some(w) else if s == "none" then Some([]) else None;
    var lines := ["two", "none"];
    AllSurvive(asm, lines);
    assert lines[..1] == ["two"] && ["two"][..0] == [];
    assert Concat(asm, ["two"]) == [] + w;
    assert Concat(asm, lines) == Concat(asm, ["two"]) + [];
    forall out | BatchOutput(asm, lines, out)
      ensures out["two"] != Encode(asm, "two")
    {
      assert out[lines[0]] == Ok(Concat(asm, lines)[0..4]);
    }
  }

  // ---- deduplication ----

  datatype Row = Row(group: string, insn: string)

  predicate HasInsn(rows: seq<Row>, s: string) {
    exists k :: 0 <= k < |rows| && rows[k].insn == s
  }

  lemma NoInsns()
    ensures forall s :: !HasInsn([], s)
  {
  }

  lemma HasInsnSnoc(rows: seq<Row>, r: Row)
    ensures forall s :: HasInsn(rows + [r], s) <==> HasInsn(rows, s) || s == r.insn
  {
    var all := rows + [r];
    forall s
      ensures HasInsn(all, s) <==> HasInsn(rows, s) || s == r.insn
    {
      if HasInsn(rows, s) {
        var k :| 0 <= k < |rows| && rows[k].insn == s;
        assert all[k].insn == s;
      }
      if s == r.insn {
        assert all[|rows|].insn == s;
      }
    }
  }

  /** `_expand`: one row per instruction, the first occurrence, in order. */
  method Expand(raw: seq<Row>) returns (rows: seq<Row>, ghost at: seq<nat>)
    ensures |at| == |rows| && forall i, j :: 0 <= i < j < |at| ==> at[i] < at[j]
    ensures forall k :: 0 <= k < |at| ==> at[k] < |raw| && rows[k] == raw[at[k]]
    ensures forall k, p :: 0 <= k < |at| && 0 <= p < at[k] ==> raw[p].insn != rows[k].insn
    ensures forall p :: 0 <= p < |raw| ==> HasInsn(rows, raw[p].insn)
    ensures Distinct(Insns(rows))
  {
    hide HasInsn;
    rows, at := [], [];
    assert forall s :: !HasInsn([], s) by { NoInsns(); }
    var seen: set<string> := {};
    for n := 0 to |raw|
      invariant |at| == |rows| && forall i, j :: 0 <= i < j < |at| ==> at[i] < at[j]
      invariant forall k :: 0 <= k < |at| ==> at[k] < n && rows[k] == raw[at[k]]
      invariant forall k, p :: 0 <= k < |at| && 0 <= p < at[k] ==> raw[p].insn != rows[k].insn
      invariant forall s :: s in seen <==> HasInsn(rows, s)
      invariant forall p :: 0 <= p < n ==> raw[p].insn in seen
    {
      var r := raw[n];
      if r.insn in seen {
        continue;
      }
      HasInsnSnoc(rows, r);
      seen := seen + {r.insn};
      rows := rows + [r];
      at := at + [n];
    }
    forall i, j | 0 <= i < j < |rows|
      ensures Insns(rows)[i] != Insns(rows)[j]
    {
      assert raw[at[i]].insn != rows[j].insn;
    }
  }

  function Insns(rows: seq<Row>): seq<string> {
    seq(|rows|, i requires 0 <= i < |rows| => rows[i].insn)
  }
}
