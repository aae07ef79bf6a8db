/** The loop of `parse` run for a bounded number of iterations, exactly as
    written (no check for a repeated state), and the proof that `Run`'s three
    outcomes are what that loop does: it exits, it raises, or it is still
    looping after any number of iterations. */
module ParserLoop {
  import opened Results
  import opened Tokens
  import opened Parser

  /** Where the `while` loop of `parse` is after some iterations. */
  datatype LoopState =
    | Exited(final: State)
    | Raised(error: ParseError, at: State)
    | Looping(now: State)

  /** Tokens not yet parsed: a bound on the successful iterations left. */
  function Remaining(p: State): nat {
    if p.idx <= |p.tokens| then |p.tokens| - p.idx else 0
  }

  /** At most `fuel` iterations of `while idx < len { parse_next()? }`. */
  function Loop(p: State, fuel: nat): (r: LoopState)
    ensures r.Exited? ==> r.final.tokens == p.tokens && r.final.idx >= p.idx && r.final.idx >= |p.tokens|
    ensures r.Raised? ==> r.at.tokens == p.tokens && p.idx <= r.at.idx < |p.tokens| && Step(r.at) == Err(r.error)
    ensures r.Looping? ==> r.now.tokens == p.tokens && r.now.idx >= p.idx
    ensures fuel == 0 && p.idx < |p.tokens| ==> r == Looping(p)
    decreases fuel
  {
    if p.idx >= |p.tokens| then Exited(p)
    else if fuel == 0 then Looping(p)
    else
      match Step(p)
      case Err(e) => Raised(e, p)
      case Ok(q) => Loop(q, fuel - 1)
  }

  /** A state whose step returns it unchanged loops forever. */
  lemma {:induction false} LoopAtFixpoint(p: State, n: nat)
    requires p.idx < |p.tokens| && Step(p) == Ok(p)
    ensures Loop(p, n) == Looping(p)
    decreases n
  {
    if n > 0 {
      LoopAtFixpoint(p, n - 1);
    }
  }

  /** When the bounded loop has stopped, `Run` reports the same stop. */
  lemma {:induction false} LoopStopAgreesWithRun(p: State, n: nat)
    ensures Loop(p, n).Exited? ==> Run(p) == Done(Loop(p, n).final)
    ensures Loop(p, n).Raised? ==> Run(p) == Failed(Loop(p, n).error, Loop(p, n).at)
    decreases n
  {
    if p.idx < |p.tokens| && n > 0 && Step(p).Ok? {
      var q := Step(p).value;
      LoopStopAgreesWithRun(q, n - 1);
    }
  }

  /** `Run` stops within `|tokens| - idx` iterations of the loop, or the loop
      never stops. */
  lemma {:induction false} RunAgreesWithLoop(p: State)
    ensures Run(p).Done? ==> Loop(p, Remaining(p)) == Exited(Run(p).final)
    ensures Run(p).Failed? ==> Loop(p, Remaining(p)) == Raised(Run(p).error, Run(p).at)
    ensures Run(p) == Diverges ==> forall n: nat :: Loop(p, n).Looping?
    decreases |p.tokens| - p.idx
  {
    if p.idx < |p.tokens| && Step(p).Ok? {
      var q := Step(p).value;
      if q == p {
        forall n: nat ensures Loop(p, n).Looping? {
          LoopAtFixpoint(p, n);
        }
      } else {
        RunAgreesWithLoop(q);
        if Run(p) == Diverges {
          forall n: nat ensures Loop(p, n).Looping? {
            if n > 0 {
              assert Loop(p, n) == Loop(q, n - 1);
            }
          }
        }
      }
    }
  }

  /** `Diverges` means exactly that the loop of `parse` never ends, and
      `Done` that it ends without error after finitely many iterations. */
  lemma RunIsTheLoop(p: State)
    ensures Run(p) == Diverges <==> forall n: nat :: Loop(p, n).Looping?
    ensures Run(p).Done? <==> exists n: nat :: Loop(p, n).Exited?
    ensures forall n: nat :: Loop(p, n).Exited? ==> Run(p) == Done(Loop(p, n).final)
  {
    RunAgreesWithLoop(p);
    forall n: nat ensures Loop(p, n).Exited? ==> Run(p) == Done(Loop(p, n).final) {
      LoopStopAgreesWithRun(p, n);
    }
    if forall n: nat :: Loop(p, n).Looping? {
      var fuel := Remaining(p);
      assert Loop(p, fuel).Looping?;
    }
    if exists n: nat :: Loop(p, n).Exited? {
      var n: nat :| Loop(p, n).Exited?;
      LoopStopAgreesWithRun(p, n);
    }
  }
}
