/** `PassManager::apply_visitor`: a loop over passes that can jump back when a pass throws
    a trigger. The passes themselves are arbitrary: what the n-th run of a pass does, and
    what it answers when asked to backtrack, are functions of the history. */
module Backtracking {
  import opened Wrappers

  /** What running a pass on a program does; `exit` tells whether it asked for an early exit. */
  datatype RunResult<P, T> =
    | Success(after: Option<P>, errorCount: nat, exit: bool)
    | Trigger(trigger: T, exit: bool)

  datatype Event<P, T> =
    | Ran(pass: nat, input: P)
    | Asked(pass: nat, trigger: T, accepted: bool)

  datatype Outcome<P, T> = Finished(program: Option<P>) | Rethrown(trigger: T)

  /** Either the event that has to come next or the end. */
  datatype Next<P, T> = Event(event: Event<P, T>) | End(outcome: Outcome<P, T>)

  /** The passes and everything else that is fixed during one call. */
  datatype Setup<!P, !T> = Setup(
    capable: seq<bool>,              // which passes may catch a trigger
    stopOnError: bool,
    initialErrors: nat,
    program: P,                      // the program given
    run: (nat, nat, P) -> RunResult<P, T>,   // the result of the n-th run, of a pass on a program
    accept: (nat, nat, T) -> bool)           // the answer to the n-th question, to a pass about a trigger

  /** The nearest pass strictly before `j` that may catch a trigger. */
  function PrevCapable(capable: seq<bool>, j: nat): (r: Option<nat>)
    requires j <= |capable|
    ensures r.Some? ==> r.value < j && capable[r.value] && forall k | r.value < k < j :: !capable[k]
    ensures r.None? ==> forall k | 0 <= k < j :: !capable[k]
  {
    if j == 0 then None
    else if capable[j - 1] then Some(j - 1)
    else PrevCapable(capable, j - 1)
  }

  function Runs<P, T>(h: seq<Event<P, T>>): nat {
    if h == [] then 0 else Runs(h[..|h| - 1]) + if h[|h| - 1].Ran? then 1 else 0
  }

  function Asks<P, T>(h: seq<Event<P, T>>): nat {
    if h == [] then 0 else Asks(h[..|h| - 1]) + if h[|h| - 1].Asked? then 1 else 0
  }

  /** The program that pass `k` was last run on. */
  function LastInput<P, T>(h: seq<Event<P, T>>, k: nat): Option<P> {
    if h == [] then None
    else
      var e := h[|h| - 1];
      if e.Ran? && e.pass == k then Some(e.input) else LastInput(h[..|h| - 1], k)
  }

  /** What the last run did. */
  function LastResult<P, T>(s: Setup<P, T>, h: seq<Event<P, T>>): RunResult<P, T>
    requires h != [] && h[|h| - 1].Ran?
  {
    var e := h[|h| - 1];
    s.run(Runs(h) - 1, e.pass, e.input)
  }

  /** Whether some run so far asked for an early exit. */
  function ExitWanted<P, T>(s: Setup<P, T>, h: seq<Event<P, T>>): bool {
    if h == [] then false
    else (h[|h| - 1].Ran? && LastResult(s, h).exit) || ExitWanted(s, h[..|h| - 1])
  }

  /** The question about `t` that follows when no pass from `j` on has accepted. */
  function AskBelow<P, T>(s: Setup<P, T>, h: seq<Event<P, T>>, j: nat, t: T): Next<P, T> {
    if j > |s.capable| then End(Rethrown(t))
    else
      match PrevCapable(s.capable, j)
      case None => End(Rethrown(t))
      case Some(k) => Event(Asked(k, t, s.accept(Asks(h), k, t)))
  }

  /** The reference: what has to happen after the history `h`, told without any stack. A pass
      that accepts a trigger runs again on the program it was last run on. */
  function NextOf<P, T>(s: Setup<P, T>, h: seq<Event<P, T>>): Next<P, T> {
    if h == [] then
      if s.capable == [] then End(Finished(Some(s.program))) else Event(Ran(0, s.program))
    else
      match h[|h| - 1]
      case Asked(k, t, true) =>
        (match LastInput(h, k)
         case Some(p) => Event(Ran(k, p))
         case None => End(Rethrown(t)))
      case Asked(k, t, false) => AskBelow(s, h, k, t)
      case Ran(j, p) =>
        match LastResult(s, h)
        case Trigger(t, _) => AskBelow(s, h, j, t)
        case Success(_, _, _) => AfterSuccess(s, j, p, LastResult(s, h), ExitWanted(s, h))
  }

  /** How a successful run of pass `j` on `p` goes on. */
  function AfterSuccess<P, T>(s: Setup<P, T>, j: nat, p: P, r: RunResult<P, T>, exit: bool): Next<P, T>
    requires r.Success?
  {
    if s.stopOnError && r.errorCount > s.initialErrors then End(Finished(Some(p)))
    else if r.after.None? || exit || j + 1 >= |s.capable| then End(Finished(r.after))
    else Event(Ran(j + 1, r.after.value))
  }

  ghost predicate Legal<P, T>(s: Setup<P, T>, h: seq<Event<P, T>>) {
    forall i {:trigger h[..i]} | 0 <= i < |h| :: NextOf(s, h[..i]) == Event(h[i])
  }

  /** From some question on, no trigger is accepted any more. */
  ghost predicate AcceptsBefore<T(!new)>(accept: (nat, nat, T) -> bool, bound: nat) {
    forall q: nat, k: nat, t: T | accept(q, k, t) :: q < bound
  }

  lemma LegalExtends<P, T>(s: Setup<P, T>, h: seq<Event<P, T>>, e: Event<P, T>)
    requires Legal(s, h) && NextOf(s, h) == Event(e)
    ensures Legal(s, h + [e])
  {
    forall i | 0 <= i < |h + [e]| ensures NextOf(s, (h + [e])[..i]) == Event((h + [e])[i]) {
      if i < |h| {
        assert (h + [e])[..i] == h[..i];
      } else {
        assert (h + [e])[..i] == h;
      }
    }
  }

  /** Mentioned in a proof to look inside `StackOk`; always true. */
  ghost predicate Open<P, T>(h: seq<Event<P, T>>, backup: seq<(nat, P)>, it: nat, z: nat) {
    true
  }

  /** The saved programs: in pass order, one for each capable pass before `it`, none after it,
      and each the program that its pass was last run on. */
  ghost predicate StackOk<P, T>(s: Setup<P, T>, h: seq<Event<P, T>>, backup: seq<(nat, P)>, it: nat) {
    forall z {:trigger Open(h, backup, it, z)} | Open(h, backup, it, z) ::
      InPassOrder(backup) && LastInputs(s, h, backup, it) && AllSaved(s, backup, it)
  }

  ghost predicate InPassOrder<P>(backup: seq<(nat, P)>) {
    forall a, b | 0 <= a < b < |backup| :: backup[a].0 <= backup[b].0
  }

  ghost predicate LastInputs<P, T>(s: Setup<P, T>, h: seq<Event<P, T>>, backup: seq<(nat, P)>, it: nat) {
    forall a | 0 <= a < |backup| ::
      && backup[a].0 <= it && backup[a].0 < |s.capable| && s.capable[backup[a].0]
      && LastInput(h, backup[a].0) == Some(backup[a].1)
  }

  ghost predicate AllSaved<P, T>(s: Setup<P, T>, backup: seq<(nat, P)>, it: nat) {
    forall k {:trigger s.capable[k]} | 0 <= k < it && k < |s.capable| && s.capable[k] ::
      exists a :: 0 <= a < |backup| && backup[a].0 == k
  }

  class PassManager<P(==), T(!new)> {
    const capable: seq<bool>
    const run: (nat, nat, P) -> RunResult<P, T>
    const accept: (nat, nat, T) -> bool
    var stopOnError: bool
    var running: bool
    var earlyExitFlag: bool
    var seqNo: nat
    var errorCount: nat

    /** How often a pass has been run and asked during the call. */
    var runs: nat
    var asks: nat
    ghost var trace: seq<Event<P, T>>

    constructor (capable: seq<bool>, run: (nat, nat, P) -> RunResult<P, T>, accept: (nat, nat, T) -> bool, stopOnError: bool)
      ensures this.capable == capable && this.run == run && this.accept == accept && this.stopOnError == stopOnError
      ensures running
    {
      this.capable, this.run, this.accept, this.stopOnError := capable, run, accept, stopOnError;
      running, earlyExitFlag, seqNo, errorCount := true, false, 0, 0;
      runs, asks, trace := 0, 0, [];
    }

    ghost predicate Tracks(s: Setup<P, T>)
      reads this
    {
      && s.capable == capable && s.run == run && s.accept == accept && s.stopOnError == stopOnError
      && Legal(s, trace) && runs == Runs(trace) && asks == Asks(trace)
      && earlyExitFlag == ExitWanted(s, trace)
    }

    /** `bound` limits how often triggers are accepted; without such a bound the loop may not end. */
    method ApplyVisitor(program0: P, ghost bound: nat) returns (outcome: Outcome<P, T>)
      requires running
      requires AcceptsBefore(accept, bound)
      modifies this
      ensures
        var s := Setup(capable, old(stopOnError), old(errorCount), program0, run, accept);
        Legal(s, trace) && NextOf(s, trace) == End(outcome)
      ensures running == outcome.Rethrown?
    {
      ghost var s := Setup(capable, stopOnError, errorCount, program0, run, accept);
      var backup: seq<(nat, P)> := [];
      earlyExitFlag := false;
      runs, asks, trace := 0, 0, [];
      var initialErrorCount := errorCount;
      var program, it: nat := program0, 0;
      while it < |capable|
        invariant Tracks(s) && initialErrorCount == s.initialErrors && running
        invariant it <= |capable| && StackOk(s, trace, backup, it) && SavedAs(backup, it, program)
        invariant NextOf(s, trace) == if it < |capable| then Event(Ran(it, program)) else End(Finished(Some(program)))
        decreases bound - asks, |capable| - it
      {
        PushAndRun(s, trace, backup, it, program, if capable[it] then backup + [(it, program)] else backup);
        if capable[it] {
          backup := backup + [(it, program)];
        }
        var result := RunPass(it, program, s);
        match result {
          case Success(after, errors, _) =>
            if stopOnError && errors > initialErrorCount {
              running := false;
              return Finished(Some(program));
            }
            if after == None {
              running := false;
              return Finished(None);
            }
            program := after.value;
            if earlyExitFlag {
              running := false;
              return Finished(Some(program));
            }
            seqNo := seqNo + 1;
            it := it + 1;
          case Trigger(trig, _) =>
            StackBelow(s, trace, backup, it);
            it, program, backup := Unwind(it, program, backup, trig, s, bound);
            if backup == [] {
              return Rethrown(trig);
            }
        }
      }
      running := false;
      outcome := Finished(Some(program));
    }

    /** `program->apply(**it)`. */
    method RunPass(it: nat, program: P, ghost s: Setup<P, T>) returns (result: RunResult<P, T>)
      requires Tracks(s) && NextOf(s, trace) == Event(Ran(it, program))
      modifies this`runs, this`earlyExitFlag, this`errorCount, this`trace
      ensures Tracks(s) && asks == Asks(old(trace)) && trace == old(trace) + [Ran(it, program)]
      ensures result.Trigger? ==> NextOf(s, trace) == AskBelow(s, trace, it, result.trigger)
      ensures result.Success? ==> NextOf(s, trace) == AfterSuccess(s, it, program, result, earlyExitFlag)
    {
      result := run(runs, it, program);
      AfterRun(s, trace, it, program);
      trace := trace + [Ran(it, program)];
      runs := runs + 1;
      if result.Success? {
        errorCount := result.errorCount;
      }
      earlyExitFlag := earlyExitFlag || result.exit;
    }

    /** The handler of a trigger: asks the saved passes, nearest first, until one accepts. */
    method Unwind(it0: nat, program0: P, backup0: seq<(nat, P)>, trig: T, ghost s: Setup<P, T>, ghost bound: nat)
      returns (it: nat, program: P, backup: seq<(nat, P)>)
      requires Tracks(s) && it0 < |capable| && StackOk(s, trace, backup0, it0)
      requires NextOf(s, trace) == AskBelow(s, trace, it0, trig)
      requires AcceptsBefore(accept, bound)
      modifies this`asks, this`trace
      ensures Tracks(s)
      ensures backup == [] ==> NextOf(s, trace) == End(Rethrown(trig))
      ensures backup != [] ==>
        && it < |capable| && StackOk(s, trace, backup, it) && SavedAs(backup, it, program)
        && NextOf(s, trace) == Event(Ran(it, program))
        && old(asks) < asks <= bound
    {
      it, program, backup := it0, program0, backup0;
      while backup != []
        invariant Tracks(s) && it < |capable| && StackOk(s, trace, backup, it) && asks >= old(asks)
        invariant NextOf(s, trace) == AskBelow(s, trace, it, trig)
        decreases |backup|, if backup != [] && backup[|backup| - 1].0 == it then 0 else 1
      {
        var last := backup[|backup| - 1];
        if last.0 == it {
          PopKeepsStack(s, trace, backup, it);
          backup := backup[..|backup| - 1];
          continue;
        }
        NearestIsLast(s, trace, backup, it);
        var accepted := Ask(last.0, trig, backup, it, s);
        it, program := last.0, last.1;
        if accepted {
          return;
        }
      }
      EmptyStack(s, trace, it);
    }

    method Ask(k: nat, trig: T, ghost backup: seq<(nat, P)>, ghost above: nat, ghost s: Setup<P, T>) returns (accepted: bool)
      requires Tracks(s) && k <= above && k < |capable| && StackOk(s, trace, backup, above)
      requires backup != [] && backup[|backup| - 1].0 == k
      requires NextOf(s, trace) == Event(Asked(k, trig, accept(asks, k, trig)))
      modifies this`asks, this`trace
      ensures Tracks(s) && asks == old(asks) + 1 && accepted == accept(old(asks), k, trig)
      ensures StackOk(s, trace, backup, k) && SavedAs(backup, k, backup[|backup| - 1].1)
      ensures NextOf(s, trace) == if accepted then Event(Ran(k, backup[|backup| - 1].1)) else AskBelow(s, trace, k, trig)
    {
      accepted := accept(asks, k, trig);
      AfterQuestion(s, trace, backup, above, k, Asked(k, trig, accepted));
      trace := trace + [Asked(k, trig, accepted)];
      asks := asks + 1;
    }
  }

  /** Entries for pass `it`, if there are any, hold `program`. */
  ghost predicate SavedAs<P>(backup: seq<(nat, P)>, it: nat, program: P) {
    forall a | 0 <= a < |backup| && backup[a].0 == it :: backup[a].1 == program
  }

  lemma RunInHistory<P, T>(h: seq<Event<P, T>>, it: nat, program: P, k: nat)
    ensures LastInput(h + [Ran(it, program)], k) == if k == it then Some(program) else LastInput(h, k)
  {
    assert (h + [Ran(it, program)])[..|h|] == h;
  }

  lemma SavedInputs<P, T>(s: Setup<P, T>, h: seq<Event<P, T>>, backup: seq<(nat, P)>, it: nat, program: P, saved: seq<(nat, P)>)
    requires LastInputs(s, h, backup, it) && SavedAs(backup, it, program) && it < |s.capable|
    requires saved == if s.capable[it] then backup + [(it, program)] else backup
    ensures LastInputs(s, h + [Ran(it, program)], saved, it)
  {
    forall a | 0 <= a < |saved| ensures LastInput(h + [Ran(it, program)], saved[a].0) == Some(saved[a].1) {
      RunInHistory(h, it, program, saved[a].0);
      assert a < |backup| ==> saved[a] == backup[a];
    }
  }

  lemma SavedPass<P, T>(s: Setup<P, T>, backup: seq<(nat, P)>, it: nat, program: P, saved: seq<(nat, P)>)
    requires AllSaved(s, backup, it) && it < |s.capable|
    requires saved == if s.capable[it] then backup + [(it, program)] else backup
    ensures AllSaved(s, saved, it + 1)
  {
    forall k {:trigger s.capable[k]} | 0 <= k <= it && s.capable[k] ensures exists a :: 0 <= a < |saved| && saved[a].0 == k {
      if k == it {
        assert saved[|backup|].0 == k;
      } else {
        var a :| 0 <= a < |backup| && backup[a].0 == k;
        assert saved[a].0 == k;
      }
    }
  }

  /** Saving the program before a run and running the pass keeps the stack in order. */
  lemma PushAndRun<P, T>(s: Setup<P, T>, h: seq<Event<P, T>>, backup: seq<(nat, P)>, it: nat, program: P, saved: seq<(nat, P)>)
    requires StackOk(s, h, backup, it) && SavedAs(backup, it, program) && it < |s.capable|
    requires saved == if s.capable[it] then backup + [(it, program)] else backup
    ensures StackOk(s, h + [Ran(it, program)], saved, it + 1)
    ensures forall a | 0 <= a < |saved| :: saved[a].0 <= it
  {
    assert Open(h, backup, it, 0);
    SavedInputs(s, h, backup, it, program, saved);
    SavedPass(s, backup, it, program, saved);
  }

  lemma StackBelow<P, T>(s: Setup<P, T>, h: seq<Event<P, T>>, backup: seq<(nat, P)>, it: nat)
    requires StackOk(s, h, backup, it + 1) && forall a | 0 <= a < |backup| :: backup[a].0 <= it
    ensures StackOk(s, h, backup, it)
  {
    assert Open(h, backup, it + 1, 0);
  }

  lemma AfterRun<P, T>(s: Setup<P, T>, h: seq<Event<P, T>>, it: nat, program: P)
    requires Legal(s, h) && NextOf(s, h) == Event(Ran(it, program))
    ensures
      var h' := h + [Ran(it, program)];
      && Legal(s, h') && Runs(h') == Runs(h) + 1 && Asks(h') == Asks(h)
      && LastResult(s, h') == s.run(Runs(h), it, program)
      && ExitWanted(s, h') == (ExitWanted(s, h) || LastResult(s, h').exit)
  {
    LegalExtends(s, h, Ran(it, program));
    assert (h + [Ran(it, program)])[..|h|] == h;
  }

  lemma PopKeepsStack<P, T>(s: Setup<P, T>, h: seq<Event<P, T>>, backup: seq<(nat, P)>, it: nat)
    requires StackOk(s, h, backup, it) && backup != [] && backup[|backup| - 1].0 == it
    ensures StackOk(s, h, backup[..|backup| - 1], it)
  {
    assert Open(h, backup, it, 0);
    var rest := backup[..|backup| - 1];
    forall k | 0 <= k < it && k < |s.capable| && s.capable[k] ensures exists a :: 0 <= a < |rest| && rest[a].0 == k {
      var a :| 0 <= a < |backup| && backup[a].0 == k;
      assert rest[a].0 == k;
    }
  }

  lemma EmptyStack<P, T>(s: Setup<P, T>, h: seq<Event<P, T>>, it: nat)
    requires StackOk(s, h, [], it) && it <= |s.capable|
    ensures PrevCapable(s.capable, it) == None
  {
    assert Open(h, [], it, 0);
  }

  lemma NearestIsLast<P, T>(s: Setup<P, T>, h: seq<Event<P, T>>, backup: seq<(nat, P)>, it: nat)
    requires StackOk(s, h, backup, it) && it < |s.capable|
    requires backup != [] && backup[|backup| - 1].0 != it
    ensures PrevCapable(s.capable, it) == Some(backup[|backup| - 1].0)
    ensures backup[|backup| - 1].0 < it
  {
    assert Open(h, backup, it, 0);
    var last := backup[|backup| - 1];
    assert s.capable[last.0];
    var r := PrevCapable(s.capable, it);
    assert r.Some? && last.0 <= r.value && s.capable[r.value];
    var a :| 0 <= a < |backup| && backup[a].0 == r.value;
    assert a == |backup| - 1 || backup[a].0 <= last.0;
  }

  /** A question changes nothing but the history. */
  lemma AfterQuestion<P, T>(s: Setup<P, T>, h: seq<Event<P, T>>, backup: seq<(nat, P)>, above: nat, it: nat, e: Event<P, T>)
    requires Legal(s, h) && e.Asked? && NextOf(s, h) == Event(e)
    requires backup != [] && backup[|backup| - 1].0 == it == e.pass && it < |s.capable|
    requires StackOk(s, h, backup, above) && it <= above
    ensures Legal(s, h + [e]) && StackOk(s, h + [e], backup, it)
    ensures Runs(h + [e]) == Runs(h) && Asks(h + [e]) == Asks(h) + 1
    ensures ExitWanted(s, h + [e]) == ExitWanted(s, h)
    ensures e.accepted ==> NextOf(s, h + [e]) == Event(Ran(it, backup[|backup| - 1].1))
    ensures !e.accepted ==> NextOf(s, h + [e]) == AskBelow(s, h + [e], it, e.trigger)
    ensures SavedAs(backup, it, backup[|backup| - 1].1)
  {
    assert Open(h, backup, above, 0);
    LegalExtends(s, h, e);
    QuestionInHistory(s, h, e);
    StackAfterQuestion(s, h, backup, above, it, e);
    InputsAfterQuestion(h, e, it);
  }

  lemma QuestionInHistory<P, T>(s: Setup<P, T>, h: seq<Event<P, T>>, e: Event<P, T>)
    requires e.Asked?
    ensures Runs(h + [e]) == Runs(h) && Asks(h + [e]) == Asks(h) + 1 && ExitWanted(s, h + [e]) == ExitWanted(s, h)
  {
    assert (h + [e])[..|h|] == h;
  }

  lemma InputsAfterQuestion<P, T>(h: seq<Event<P, T>>, e: Event<P, T>, k: nat)
    requires e.Asked?
    ensures LastInput(h + [e], k) == LastInput(h, k)
  {
    assert (h + [e])[..|h|] == h;
  }

  lemma StackAfterQuestion<P, T>(s: Setup<P, T>, h: seq<Event<P, T>>, backup: seq<(nat, P)>, above: nat, it: nat, e: Event<P, T>)
    requires e.Asked? && StackOk(s, h, backup, above)
    requires backup != [] && backup[|backup| - 1].0 == it <= above
    ensures StackOk(s, h + [e], backup, it)
  {
    assert Open(h, backup, above, 0);
    forall a | 0 <= a < |backup| ensures LastInput(h + [e], backup[a].0) == Some(backup[a].1) {
      InputsAfterQuestion(h, e, backup[a].0);
    }
  }

  // Properties of every run.

  /** The programs that the passes before the current one were given, on the path now being followed. */
  ghost function Path<P, T>(h: seq<Event<P, T>>): seq<P> {
    if h == [] then []
    else
      var e, path := h[|h| - 1], Path(h[..|h| - 1]);
      if e.Ran? && e.pass <= |path| then path[..e.pass] + [e.input] else path
  }

  /** The number of the run that pass `k` was last given. */
  ghost function LastRun<P, T>(h: seq<Event<P, T>>, k: nat): nat {
    if h == [] then 0
    else
      var e := h[|h| - 1];
      if e.Ran? && e.pass == k then Runs(h) - 1 else LastRun(h[..|h| - 1], k)
  }

  /** Each program on the path is what the last run of the pass before made of the one before. */
  ghost predicate PathOk<P, T>(s: Setup<P, T>, h: seq<Event<P, T>>) {
    var path := Path(h);
    && (h != [] && h[|h| - 1].Ran? ==> |path| == h[|h| - 1].pass + 1)
    && (h != [] && h[|h| - 1].Asked? ==> h[|h| - 1].pass < |path|)
    && |path| <= |s.capable|
    && (path != [] ==> path[0] == s.program)
    && (forall i {:trigger path[i]} | 0 <= i < |path| :: LastInput(h, i) == Some(path[i]))
    && (forall i {:trigger LastRun(h, i)} | 0 <= i < |path| - 1 ::
          var r := s.run(LastRun(h, i), i, path[i]);
          r.Success? && r.after == Some(path[i + 1]))
  }

  lemma LegalPrefix<P, T>(s: Setup<P, T>, h: seq<Event<P, T>>, n: nat)
    requires Legal(s, h) && n <= |h|
    ensures Legal(s, h[..n])
    ensures n < |h| ==> NextOf(s, h[..n]) == Event(h[n])
  {
    forall i {:trigger h[..n][..i]} | 0 <= i < n ensures NextOf(s, h[..n][..i]) == Event(h[..n][i]) {
      assert h[..n][..i] == h[..i];
    }
    assert n < |h| ==> NextOf(s, h[..n]) == Event(h[n]);
  }

  /** In every run the path is consistent; in particular a pass that accepts a trigger has run before. */
  lemma {:induction false} PathIsConsistent<P, T>(s: Setup<P, T>, h: seq<Event<P, T>>)
    requires Legal(s, h)
    ensures PathOk(s, h)
  {
    if h != [] {
      var n := |h| - 1;
      var g, e := h[..n], h[n];
      LegalPrefix(s, h, n);
      PathIsConsistent(s, g);
      match e {
        case Asked(k, _, _) =>
          forall i ensures LastInput(h, i) == LastInput(g, i) && LastRun(h, i) == LastRun(g, i) {
          }
        case Ran(j, p) => RunExtendsPath(s, g, j, p);
          assert h == g + [Ran(j, p)];
      }
    }
  }

  lemma RunExtendsPath<P, T>(s: Setup<P, T>, g: seq<Event<P, T>>, j: nat, p: P)
    requires Legal(s, g) && PathOk(s, g) && NextOf(s, g) == Event(Ran(j, p))
    ensures PathOk(s, g + [Ran(j, p)])
  {
    var h := g + [Ran(j, p)];
    assert h[..|g|] == g;
    forall i ensures LastInput(h, i) == if i == j then Some(p) else LastInput(g, i) {
    }
    forall i | i != j ensures LastRun(h, i) == LastRun(g, i) {
    }
    var before, path := Path(g), Path(h);
    if g != [] && g[|g| - 1].Ran? {
      assert path == before + [p];
      assert LastRun(g, j - 1) == Runs(g) - 1;
    } else if g != [] {
      assert before[j] == p && path == before[..j + 1];
    }
  }

  /** After a pass accepts a trigger it is run next, on exactly the program it was given on the current path. */
  lemma AcceptedTriggerResumes<P, T>(s: Setup<P, T>, h: seq<Event<P, T>>)
    requires Legal(s, h) && h != [] && h[|h| - 1].Asked? && h[|h| - 1].accepted
    ensures
      var k := h[|h| - 1].pass;
      k < |Path(h)| && NextOf(s, h) == Event(Ran(k, Path(h)[k]))
  {
    PathIsConsistent(s, h);
    var k, n := h[|h| - 1].pass, |h| - 1;
    assert LastInput(h, k) == Some(Path(h)[k]);
  }

  /** Run `r` of the history threw `t`, and all that has followed are questions about `t`: to capable
      passes before it, each at most once, nearest first, leaving none out, all refused but perhaps the last. */
  ghost predicate Unwinding<P, T>(s: Setup<P, T>, h: seq<Event<P, T>>, r: nat, t: T) {
    && r < |h| && h[r].Ran? && h[r].pass < |s.capable|
    && LastResult(s, h[..r + 1]).Trigger? && LastResult(s, h[..r + 1]).trigger == t
    && (forall i {:trigger h[i]} | r < i < |h| ::
          && h[i].Asked? && h[i].trigger == t
          && h[i].pass < h[r].pass && s.capable[h[i].pass]
          && (i < |h| - 1 ==> !h[i].accepted))
    && (forall i, j {:trigger h[i], h[j]} | r < i < j < |h| :: h[j].pass < h[i].pass)
    && (forall k {:trigger AskedSince(h, r, k)} | h[|h| - 1].pass <= k < h[r].pass && s.capable[k] :: AskedSince(h, r, k))
  }

  ghost predicate AskedSince<P, T>(h: seq<Event<P, T>>, r: nat, k: nat) {
    exists i :: r < i < |h| && h[i].pass == k
  }

  /** What a question says about the event before it. */
  lemma QuestionFollows<P, T>(s: Setup<P, T>, g: seq<Event<P, T>>, e: Event<P, T>)
    requires NextOf(s, g) == Event(e) && e.Asked?
    ensures g != []
    ensures
      var d := g[|g| - 1];
      && e.pass < d.pass <= |s.capable| && s.capable[e.pass]
      && (forall k {:trigger s.capable[k]} | e.pass < k < d.pass :: !s.capable[k])
      && (d.Asked? ==> !d.accepted && d.trigger == e.trigger)
      && (d.Ran? ==> LastResult(s, g).Trigger? && LastResult(s, g).trigger == e.trigger)
  {
  }

  lemma {:induction false} TriggerUnwinds<P, T>(s: Setup<P, T>, h: seq<Event<P, T>>) returns (r: nat)
    requires Legal(s, h) && h != [] && h[|h| - 1].Asked?
    ensures Unwinding(s, h, r, h[|h| - 1].trigger)
  {
    var n := |h| - 1;
    var g, e := h[..n], h[n];
    assert h == g + [e];
    LegalPrefix(s, h, n);
    QuestionFollows(s, g, e);
    if g[n - 1].Asked? {
      r := TriggerUnwinds(s, g);
      UnwindingExtends(s, g, e, r);
    } else {
      PathIsConsistent(s, g);
      r := n - 1;
      UnwindingStarts(s, g, e);
    }
  }

  lemma UnwindingStarts<P, T>(s: Setup<P, T>, g: seq<Event<P, T>>, e: Event<P, T>)
    requires NextOf(s, g) == Event(e) && e.Asked? && g != [] && g[|g| - 1].Ran? && PathOk(s, g)
    ensures Unwinding(s, g + [e], |g| - 1, e.trigger)
  {
    QuestionFollows(s, g, e);
    var h, r := g + [e], |g| - 1;
    assert h[..r + 1] == g && h[r] == g[r] && h[|g|] == e;
  }

  lemma UnwindingExtends<P, T>(s: Setup<P, T>, g: seq<Event<P, T>>, e: Event<P, T>, r: nat)
    requires NextOf(s, g) == Event(e) && e.Asked?
    requires Unwinding(s, g, r, e.trigger) && r < |g| - 1
    ensures Unwinding(s, g + [e], r, e.trigger)
  {
    QuestionFollows(s, g, e);
    var h := g + [e];
    assert h[..r + 1] == g[..r + 1];
    assert forall i {:trigger h[i]} | 0 <= i < |g| :: h[i] == g[i];
    assert g[|g| - 1].pass < g[r].pass;
    forall k | e.pass <= k < h[r].pass && s.capable[k] ensures AskedSince(h, r, k) {
      if k == e.pass {
        assert h[|g|].pass == k;
      } else {
        assert AskedSince(g, r, k);
        var i :| r < i < |g| && g[i].pass == k;
        assert h[i].pass == k;
      }
    }
  }

  /** A trigger leaves the pass manager only when every capable pass before the thrower has refused it. */
  lemma RethrownOnlyIfAllRefuse<P, T>(s: Setup<P, T>, h: seq<Event<P, T>>, t: T) returns (r: nat)
    requires Legal(s, h) && NextOf(s, h) == End(Rethrown(t))
    ensures r < |h| && h[r].Ran? && h[r].pass < |s.capable|
    ensures LastResult(s, h[..r + 1]).Trigger? && LastResult(s, h[..r + 1]).trigger == t
    ensures forall k {:trigger s.capable[k]} | 0 <= k < h[r].pass && s.capable[k] :: Asked(k, t, false) in h[r + 1..]
  {
    PathIsConsistent(s, h);
    var n := |h| - 1;
    if h[n].Ran? {
      r := n;
      assert h[..r + 1] == h;
    } else {
      if h[n].accepted {
        AcceptedTriggerResumes(s, h);
      }
      r := TriggerUnwinds(s, h);
      AllRefused(s, h, r, t);
    }
  }

  lemma AllRefused<P, T>(s: Setup<P, T>, h: seq<Event<P, T>>, r: nat, t: T)
    requires h != [] && Unwinding(s, h, r, t) && h[|h| - 1].Asked? && !h[|h| - 1].accepted
    requires forall k {:trigger s.capable[k]} | 0 <= k < h[|h| - 1].pass && k < |s.capable| :: !s.capable[k]
    ensures forall k {:trigger s.capable[k]} | 0 <= k < h[r].pass && s.capable[k] :: Asked(k, t, false) in h[r + 1..]
  {
    forall k {:trigger s.capable[k]} | 0 <= k < h[r].pass && s.capable[k] ensures Asked(k, t, false) in h[r + 1..] {
      assert AskedSince(h, r, k);
      var i :| r < i < |h| && h[i].pass == k;
      assert h[r + 1..][i - r - 1] == h[i];
    }
  }

  // What ends a run, and what does not.

  ghost function RunsBefore<P, T>(h: seq<Event<P, T>>, i: nat): set<nat>
    requires i <= |h|
  {
    set k | 0 <= k < i && h[k].Ran?
  }

  /** What the run that is event `i` did: the runs are numbered from 0 on. */
  ghost function ResultAt<P, T>(s: Setup<P, T>, h: seq<Event<P, T>>, i: nat): RunResult<P, T>
    requires i < |h| && h[i].Ran?
  {
    s.run(|RunsBefore(h, i)|, h[i].pass, h[i].input)
  }

  /** More errors than at the start have been reported after run `i`, and errors are to stop the passes. */
  ghost predicate StopsOnError<P, T>(s: Setup<P, T>, h: seq<Event<P, T>>, i: nat)
    requires i < |h| && h[i].Ran?
  {
    var r := ResultAt(s, h, i);
    r.Success? && s.stopOnError && r.errorCount > s.initialErrors
  }

  /** Run `i` or an earlier one has asked for an early exit. */
  ghost predicate ExitAsked<P, T>(s: Setup<P, T>, h: seq<Event<P, T>>, i: nat)
    requires i < |h|
  {
    exists k :: 0 <= k <= i && h[k].Ran? && ResultAt(s, h, k).exit
  }

  /** The outcome is `end`, and event `i` is the last one. */
  ghost predicate EndsWith<P, T>(s: Setup<P, T>, h: seq<Event<P, T>>, i: nat, end: Option<P>) {
    i == |h| - 1 && NextOf(s, h) == End(Finished(end))
  }

  /** Event `i` is followed by event `e` and by nothing else, unless it is the last one so far. */
  ghost predicate GoesOn<P, T>(s: Setup<P, T>, h: seq<Event<P, T>>, i: nat, e: Event<P, T>) {
    if i + 1 < |h| then h[i + 1] == e else i + 1 == |h| && NextOf(s, h) == Event(e)
  }

  lemma {:induction false} RunsAreCounted<P, T>(h: seq<Event<P, T>>, i: nat)
    requires i <= |h|
    ensures Runs(h[..i]) == |RunsBefore(h, i)|
  {
    if i > 0 {
      RunsAreCounted(h, i - 1);
      assert h[..i][..i - 1] == h[..i - 1];
      assert RunsBefore(h, i) == RunsBefore(h, i - 1) + if h[i - 1].Ran? then {i - 1} else {};
    }
  }

  lemma ResultIsLast<P, T>(s: Setup<P, T>, h: seq<Event<P, T>>, i: nat)
    requires i < |h| && h[i].Ran?
    ensures ResultAt(s, h, i) == LastResult(s, h[..i + 1])
  {
    RunsAreCounted(h, i);
    assert h[..i + 1][..i] == h[..i];
  }

  lemma {:induction false} ExitIsWanted<P, T>(s: Setup<P, T>, h: seq<Event<P, T>>, i: nat)
    requires i < |h|
    ensures ExitAsked(s, h, i) <==> ExitWanted(s, h[..i + 1])
  {
    assert h[..i + 1][..i] == h[..i];
    if h[i].Ran? {
      ResultIsLast(s, h, i);
    }
    if i > 0 {
      ExitIsWanted(s, h, i - 1);
      if ExitAsked(s, h, i - 1) {
        var k :| 0 <= k <= i - 1 && h[k].Ran? && ResultAt(s, h, k).exit;
        assert ExitAsked(s, h, i);
      }
    }
  }

  /** What comes after a successful run: with new errors that are to stop the passes, the end, with the program
      that the run was given; with no program, after an early exit or after the last pass, the end, with what
      the run returned; otherwise the next pass, on that. */
  lemma AfterEachRun<P, T>(s: Setup<P, T>, h: seq<Event<P, T>>, i: nat)
    requires Legal(s, h) && i < |h| && h[i].Ran? && ResultAt(s, h, i).Success?
    ensures var after, j := ResultAt(s, h, i).after, h[i].pass;
            if StopsOnError(s, h, i) then EndsWith(s, h, i, Some(h[i].input))
            else if after == None || ExitAsked(s, h, i) || j == |s.capable| - 1 then EndsWith(s, h, i, after)
            else GoesOn(s, h, i, Ran(j + 1, after.value))
  {
    ResultIsLast(s, h, i);
    ExitIsWanted(s, h, i);
    LegalPrefix(s, h, i + 1);
    PathIsConsistent(s, h[..i + 1]);
    assert h[..|h|] == h;
  }

  /** The passes finish only after such a run, or if there are none. */
  lemma FinishedOnlyThen<P, T>(s: Setup<P, T>, h: seq<Event<P, T>>, end: Option<P>)
    requires Legal(s, h) && NextOf(s, h) == End(Finished(end))
    ensures if h == [] then s.capable == [] && end == Some(s.program)
            else
              var i := |h| - 1;
              && h[i].Ran? && ResultAt(s, h, i).Success?
              && if StopsOnError(s, h, i) then end == Some(h[i].input)
                 else
                   && end == ResultAt(s, h, i).after
                   && (end == None || ExitAsked(s, h, i) || h[i].pass == |s.capable| - 1)
  {
    if h != [] {
      if h[|h| - 1].Asked? && h[|h| - 1].accepted {
        AcceptedTriggerResumes(s, h);
      } else {
        assert h[..|h|] == h;
        ResultIsLast(s, h, |h| - 1);
        AfterEachRun(s, h, |h| - 1);
      }
    }
  }

  ghost function QuestionsBefore<P, T>(h: seq<Event<P, T>>, i: nat): set<nat>
    requires i <= |h|
  {
    set k | 0 <= k < i && h[k].Asked?
  }

  lemma {:induction false} QuestionsAreCounted<P, T>(h: seq<Event<P, T>>, i: nat)
    requires i <= |h|
    ensures Asks(h[..i]) == |QuestionsBefore(h, i)|
  {
    if i > 0 {
      QuestionsAreCounted(h, i - 1);
      assert h[..i][..i - 1] == h[..i - 1];
      assert QuestionsBefore(h, i) == QuestionsBefore(h, i - 1) + if h[i - 1].Asked? then {i - 1} else {};
    }
  }

  /** What follows a run that threw a trigger is a question about it or the end, and every answer is the pass's own. */
  lemma AfterEachTrigger<P, T>(s: Setup<P, T>, h: seq<Event<P, T>>, i: nat)
    requires Legal(s, h) && i < |h|
    ensures h[i].Asked? ==> h[i].accepted == s.accept(|QuestionsBefore(h, i)|, h[i].pass, h[i].trigger)
    ensures h[i].Ran? && ResultAt(s, h, i).Trigger? ==>
      var t := ResultAt(s, h, i).trigger;
      if i + 1 < |h| then h[i + 1].Asked? && h[i + 1].trigger == t
      else NextOf(s, h) == End(Rethrown(t)) || (NextOf(s, h).Event? && NextOf(s, h).event.Asked? && NextOf(s, h).event.trigger == t)
  {
    QuestionsAreCounted(h, i);
    assert h[..|h|] == h;
    LegalPrefix(s, h, i);
    if h[i].Ran? {
      ResultIsLast(s, h, i);
      if i + 1 < |h| {
        LegalPrefix(s, h, i + 1);
      }
    }
  }
}
