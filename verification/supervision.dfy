/**
  The task loop over a finite run: the loop body folded over the inputs of
  successive cycles, with the state and the delay of every cycle recorded.
 */
module Supervision {
  import opened AhrsTypes
  import opened AhrsComms

  /** Runs the loop body once per input, in order, and returns what each
      cycle produced: the state after it and the tick count it handed to the
      delay. Each cycle's delay uses the UpdatePeriod read in that same
      cycle. */
  function Run(s: Supervisor, inputs: seq<Input>, rate: TickRate): (cycles: seq<Cycle>)
    ensures |cycles| == |inputs|
    ensures forall i :: 0 <= i < |inputs| ==>
              && cycles[i].next.alarm != Critical
              && (cycles[i].next.alarm == Ok <==> inputs[i].snapshot.linkOk)
              && Mirrors(cycles[i].next.status, inputs[i].snapshot)
              && cycles[i].next.status.others == s.status.others
              && cycles[i].delay == DelayTicks(inputs[i].updatePeriod, rate)
    decreases |inputs|
  {
    if |inputs| == 0 then
      []
    else
      var c := Step(s, inputs[0], rate);
      var rest := Run(c.next, inputs[1..], rate);
      assert forall i :: 0 < i < |inputs| ==> inputs[i] == inputs[1..][i - 1];
      [c] + rest
  }

  /** The state of the task after the first k cycles of a run. */
  function StateAfter(s: Supervisor, cycles: seq<Cycle>, k: nat): Supervisor
    requires k <= |cycles|
  {
    if k == 0 then s else cycles[k - 1].next
  }

  /** The reference reading of a run: every recorded cycle is the loop body
      applied to the state the previous cycles left and to its own input. */
  predicate Stepwise(s: Supervisor, inputs: seq<Input>, cycles: seq<Cycle>, rate: TickRate)
  {
    && |cycles| == |inputs|
    && forall i :: 0 <= i < |inputs| ==> cycles[i] == Step(StateAfter(s, cycles, i), inputs[i], rate)
  }

  /** Past the first cycle, the states of a run are those of the run that
      starts where the first cycle ended. */
  lemma StateAfterShift(s: Supervisor, cycles: seq<Cycle>, i: nat)
    requires 0 < i <= |cycles|
    ensures StateAfter(s, cycles, i) == StateAfter(cycles[0].next, cycles[1..], i - 1)
  {
  }

  /** Every cycle recorded by the fold is the loop body applied to the state
      the previous cycles left. */
  lemma RunIsStepwise(s: Supervisor, inputs: seq<Input>, rate: TickRate)
    ensures Stepwise(s, inputs, Run(s, inputs, rate), rate)
  {
  }

  /** Conversely, a stepwise sequence of cycles is the fold: the two readings
      of a run single out the same cycles. */
  lemma {:induction false} StepwiseIsRun(s: Supervisor, inputs: seq<Input>, cycles: seq<Cycle>, rate: TickRate)
    requires Stepwise(s, inputs, cycles, rate)
    ensures cycles == Run(s, inputs, rate)
    decreases |inputs|
  {
    if |inputs| > 0 {
      var c := Step(s, inputs[0], rate);
      assert cycles[0] == c by {
        assert cycles[0] == Step(StateAfter(s, cycles, 0), inputs[0], rate);
      }
      forall j | 0 <= j < |inputs| - 1
        ensures cycles[1..][j] == Step(StateAfter(c.next, cycles[1..], j), inputs[1..][j], rate)
      {
        StateAfterShift(s, cycles, j + 1);
        assert cycles[j + 1] == Step(StateAfter(s, cycles, j + 1), inputs[j + 1], rate);
      }
      StepwiseIsRun(c.next, inputs[1..], cycles[1..], rate);
      assert cycles == [c] + cycles[1..];
    }
  }

  /** The state after the whole run. */
  function Final(s: Supervisor, inputs: seq<Input>, rate: TickRate): Supervisor
  {
    var cycles := Run(s, inputs, rate);
    StateAfter(s, cycles, |cycles|)
  }

  /** The intended alarm history: critical before the first cycle, and after
      cycle k, Ok exactly when that cycle's snapshot reported a working link,
      Warning otherwise. */
  function ExpectedAlarm(inputs: seq<Input>, k: nat): AlarmLevel
    requires k <= |inputs|
  {
    if k == 0 then Critical
    else if inputs[k - 1].snapshot.linkOk then Ok
    else Warning
  }

  /** Started by the task's entry code, the run follows the intended history
      exactly: critical holds before the first cycle and after no cycle. */
  lemma AlarmHistoryFromStart(status: AhrsStatus, inputs: seq<Input>, rate: TickRate)
    ensures var cycles := Run(Start(status), inputs, rate);
      forall k :: 0 <= k <= |inputs| ==>
        && StateAfter(Start(status), cycles, k).alarm == ExpectedAlarm(inputs, k)
        && (StateAfter(Start(status), cycles, k).alarm == Critical <==> k == 0)
  {
  }

  /** After a non-empty run the alarm is never critical, and it is Ok exactly
      when the last snapshot reported a working link. */
  lemma FinalAlarm(s: Supervisor, inputs: seq<Input>, rate: TickRate)
    requires |inputs| > 0
    ensures Final(s, inputs, rate).alarm != Critical
    ensures Final(s, inputs, rate).alarm == Ok <==> inputs[|inputs| - 1].snapshot.linkOk
  {
  }

  /** Appending one input to a run appends one loop iteration, started from
      the state the run ended in: the fold takes the inputs front to back, as
      the loop does. */
  lemma RunSnoc(s: Supervisor, inputs: seq<Input>, x: Input, rate: TickRate)
    ensures Run(s, inputs + [x], rate) == Run(s, inputs, rate) + [Step(Final(s, inputs, rate), x, rate)]
  {
  }

  /** Inputs the supervisor cannot tell apart: the same period and the same
      snapshot up to the local kickstart count, which is never published. */
  predicate SameObservable(a: Input, b: Input)
  {
    && a.updatePeriod == b.updatePeriod
    && a.snapshot.linkOk == b.snapshot.linkOk
    && a.snapshot.remote == b.snapshot.remote
    && a.snapshot.local.crcErrors == b.snapshot.local.crcErrors
    && a.snapshot.local.retries == b.snapshot.local.retries
    && a.snapshot.local.invalidPacket == b.snapshot.local.invalidPacket
  }

  /** Two runs whose inputs differ only in local.kickStarts produce the same
      cycles: the same states and the same delays. */
  lemma LocalKickStartsNeverPublished(s: Supervisor, xs: seq<Input>, ys: seq<Input>, rate: TickRate)
    requires |xs| == |ys|
    requires forall i :: 0 <= i < |xs| ==> SameObservable(xs[i], ys[i])
    ensures Run(s, xs, rate) == Run(s, ys, rate)
  {
  }

  /** The alarm reads nothing but `linkOk`: runs from any two states whose
      snapshots agree on `linkOk` cycle by cycle (the counters, periods and
      starting records may differ arbitrarily) raise the same alarm after
      every cycle. */
  lemma AlarmDependsOnlyOnLink(s1: Supervisor, s2: Supervisor, xs: seq<Input>, ys: seq<Input>, rate: TickRate)
    requires |xs| == |ys|
    requires forall i :: 0 <= i < |xs| ==> xs[i].snapshot.linkOk == ys[i].snapshot.linkOk
    ensures var c1, c2 := Run(s1, xs, rate), Run(s2, ys, rate);
      forall i :: 0 <= i < |xs| ==> c1[i].next.alarm == c2[i].next.alarm
  {
  }

  /** Each group of counters of `b` is at least that of `a`. */
  predicate CountersNotBelow(a: Counters, b: Counters)
  {
    && a.kickStarts <= b.kickStarts
    && a.crcErrors <= b.crcErrors
    && a.retries <= b.retries
    && a.invalidPacket <= b.invalidPacket
  }

  /** Every published counter of `b` is at least that of `a`. */
  predicate RecordNotBelow(a: AhrsStatus, b: AhrsStatus)
  {
    && a.AhrsKickstarts <= b.AhrsKickstarts
    && a.AhrsCrcErrors <= b.AhrsCrcErrors
    && a.AhrsRetries <= b.AhrsRetries
    && a.AhrsInvalidPackets <= b.AhrsInvalidPackets
    && a.OpCrcErrors <= b.OpCrcErrors
    && a.OpRetries <= b.OpRetries
    && a.OpInvalidPackets <= b.OpInvalidPackets
  }

  /** The supervisor does not make the counters monotone, it only passes them
      on: when the transport's snapshots never go down from one cycle to the
      next, neither do the published records. */
  lemma PublishedCountersFollowTransport(s: Supervisor, inputs: seq<Input>, rate: TickRate)
    requires forall i :: 0 < i < |inputs| ==>
               && CountersNotBelow(inputs[i - 1].snapshot.remote, inputs[i].snapshot.remote)
               && CountersNotBelow(inputs[i - 1].snapshot.local, inputs[i].snapshot.local)
    ensures var cycles := Run(s, inputs, rate);
      forall i :: 0 < i < |inputs| ==> RecordNotBelow(cycles[i - 1].next.status, cycles[i].next.status)
  {
  }

  /** A link that is down on the first cycle and recovered, after one
      kickstart by the AHRS, on the second: the alarm goes from critical to
      warning to Ok, and the records show the link state and the kickstart. */
  lemma ScenarioRecovery(status: AhrsStatus, period: u32, rate: TickRate)
    ensures var zero := Counters(0, 0, 0, 0);
      var down := Input(CommStatus(false, zero, zero), period);
      var up := Input(CommStatus(true, zero.(kickStarts := 1), zero), period);
      var cycles := Run(Start(status), [down, up], rate);
      && cycles[0].next.alarm == Warning && !cycles[0].next.status.LinkRunning
      && cycles[1].next.alarm == Ok && cycles[1].next.status.AhrsKickstarts == 1
  {
  }
}
