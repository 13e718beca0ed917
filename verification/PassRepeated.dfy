/** `PassRepeated::apply_visitor`: runs its passes again and again. */
module PassRepeated {
  import opened Wrappers

  /** What one round makes of a program, and the number of errors after it. */
  datatype Round<P> = Round(after: Option<P>, errorCount: nat)

  datatype Setup<!P> = Setup(
    repeats: nat,                    // 0 = until convergence
    stopOnError: bool,
    initialErrors: nat,
    round: (nat, P) -> Round<P>)     // the n-th round

  /** The program that round `n` is given, if the rounds before all returned one. */
  ghost function Input<P>(s: Setup<P>, program: P, n: nat): Option<P> {
    if n == 0 then Some(program)
    else
      match Input(s, program, n - 1)
      case None => None
      case Some(p) => s.round(n - 1, p).after
  }

  ghost predicate Failed<P>(s: Setup<P>, n: nat, p: P) {
    s.stopOnError && s.round(n, p).errorCount > s.initialErrors
  }

  /** Round `n` is the last: it returns nothing, changes nothing or fails, or there have been enough. */
  ghost predicate IsLast<P>(s: Setup<P>, n: nat, p: P) {
    || s.round(n, p).after == None || s.round(n, p).after == Some(p) || Failed(s, n, p)
    || (s.repeats != 0 && n >= s.repeats)
  }

  /** All rounds before `n` have happened and none was the last. */
  ghost predicate Reached<P>(s: Setup<P>, program: P, n: nat) {
    forall m: nat {:trigger Input(s, program, m)} | m < n ::
      Input(s, program, m).Some? && !IsLast(s, m, Input(s, program, m).value)
  }

  /** Some round is the last one. */
  ghost predicate Stops<P>(s: Setup<P>, program: P, bound: nat) {
    s.repeats != 0 || !Reached(s, program, bound)
  }

  /** Ends with the first last round. It returns what that round returned, or its input if it failed.
      With a limit there can be one round more than the limit says. */
  method ApplyVisitor<P(==)>(s: Setup<P>, start: P, ghost bound: nat) returns (r: Option<P>, ghost last: nat)
    requires Stops(s, start, bound)
    ensures Reached(s, start, last) && Input(s, start, last).Some?
    ensures var p := Input(s, start, last).value;
            IsLast(s, last, p) && r == if Failed(s, last, p) then Some(p) else s.round(last, p).after
    ensures s.repeats != 0 ==> last + 1 <= s.repeats + 1
    // A round with new errors that are to stop the passes is the last, and what comes back is what it was given.
    ensures forall m: nat {:trigger Input(s, start, m)} | m < last ::
      Input(s, start, m).Some? && !(s.stopOnError && s.round(m, Input(s, start, m).value).errorCount > s.initialErrors)
    ensures var p := Input(s, start, last).value;
            r == if s.stopOnError && s.round(last, p).errorCount > s.initialErrors then Some(p) else s.round(last, p).after
  {
    var done := false;
    var iterations: nat := 0;
    var program := Some(start);
    last := 0;
    while !done
      invariant if !done then last == iterations && Reached(s, start, iterations) && program == Input(s, start, iterations) && program.Some?
                else Reached(s, start, last) && Input(s, start, last).Some?
                     && var p := Input(s, start, last).value;
                        IsLast(s, last, p) && !Failed(s, last, p) && program == s.round(last, p).after
      invariant s.repeats != 0 ==> last <= s.repeats
      invariant s.repeats == 0 && !done ==> iterations < bound
      decreases !done, if s.repeats != 0 then s.repeats - iterations else bound - iterations
    {
      var input := program.value;
      var round := s.round(iterations, input);
      if round.after == None || round.after == Some(input) {
        done := true;
      }
      if s.stopOnError && round.errorCount > s.initialErrors {
        return program, iterations;
      }
      ghost var n := iterations;
      iterations := iterations + 1;
      if s.repeats != 0 && iterations > s.repeats {
        done := true;
      }
      program := round.after;
      if done {
        last := n;
      } else {
        last := n + 1;
        assert program == Input(s, start, n + 1);
      }
    }
    r := program;
  }

  /** With a limit of `n` there are `n + 1` rounds exactly if none of the first `n` is the last. */
  lemma OneRoundMore<P>(s: Setup<P>, start: P, last: nat)
    requires s.repeats != 0 && Reached(s, start, last)
    requires Input(s, start, last).Some? && IsLast(s, last, Input(s, start, last).value)
    ensures last <= s.repeats
    ensures last + 1 == s.repeats + 1 <==> Reached(s, start, s.repeats)
  {
    assert last > s.repeats ==> Input(s, start, s.repeats).Some?;
  }

  /** A limit of one round, and two rounds that count up. */
  lemma TwoRoundsForOne()
    ensures var s := Setup(1, false, 0, (n: nat, p: int) => Round(Some(p + 1), 0));
            Reached(s, 0, 1) && Input(s, 0, 1) == Some(1) && IsLast(s, 1, 1) && Input(s, 0, 2) == Some(2)
  {
    var s := Setup(1, false, 0, (n: nat, p: int) => Round(Some(p + 1), 0));
    assert Input(s, 0, 0) == Some(0);
  }

  /** A round does the same to a program whenever it happens. */
  ghost predicate Steady<P(!new)>(s: Setup<P>) {
    forall m, n, p :: s.round(m, p) == s.round(n, p)
  }

  /** If there is no limit and rounds are steady, all further rounds return the result of the last one,
      unless that returned nothing or failed. */
  lemma {:induction false} FixedPoint<P(!new)>(s: Setup<P>, start: P, last: nat, n: nat)
    requires s.repeats == 0 && Steady(s)
    requires Input(s, start, last).Some? && IsLast(s, last, Input(s, start, last).value)
    requires !Failed(s, last, Input(s, start, last).value) && Input(s, start, last + 1).Some? && n >= last
    ensures Input(s, start, n) == Input(s, start, last)
  {
    if n > last {
      FixedPoint(s, start, last, n - 1);
      var p := Input(s, start, last).value;
      assert s.round(n - 1, p) == s.round(last, p);
    }
  }
}
