/**
  The task body written as the source writes it: a loop that sets the alarm
  once, then per cycle issues the alarm call, patches a copy of the status
  object field by field, stores it back and computes the delay. The loop is
  bounded by the inputs it is given; it is proved to agree with the
  functional fold of the loop body.
 */
module AhrsCommsTask {
  import opened AhrsTypes
  import opened AhrsComms
  import opened Supervision

  /** What an observer sees once the task has run: critical only if no cycle
      ran, otherwise the alarm and the published record of the last cycle;
      the record's other fields untouched; and one delay per cycle, each
      computed from that cycle's own period. */
  lemma RunOutcome(initial: AhrsStatus, inputs: seq<Input>, rate: TickRate)
    ensures var f := Final(Start(initial), inputs, rate);
      && (f.alarm == Critical <==> |inputs| == 0)
      && (|inputs| > 0 ==>
            && (f.alarm == Ok <==> inputs[|inputs| - 1].snapshot.linkOk)
            && Mirrors(f.status, inputs[|inputs| - 1].snapshot))
      && f.status.others == initial.others
    ensures var cycles := Run(Start(initial), inputs, rate);
      forall i :: 0 <= i < |inputs| ==> cycles[i].delay == DelayTicks(inputs[i].updatePeriod, rate)
  {
  }

  /** The statements of one iteration, in the source's order: the alarm call
      chosen by `linkOk`, the status object fetched, patched field by field
      and stored back, and the delay computed from this cycle's period. */
  method LoopBody(s: Supervisor, input: Input, rate: TickRate)
    returns (alarm: AlarmLevel, status: AhrsStatus, ticks: u32)
    ensures Cycle(Supervisor(alarm, status), ticks) == Step(s, input, rate)
  {
    var stat := input.snapshot;
    if stat.linkOk {
      alarm := Ok;
    } else {
      alarm := Warning;
    }
    var sData := s.status;
    sData := sData.(LinkRunning := stat.linkOk);
    sData := sData.(AhrsKickstarts := stat.remote.kickStarts);
    sData := sData.(AhrsCrcErrors := stat.remote.crcErrors);
    sData := sData.(AhrsRetries := stat.remote.retries);
    sData := sData.(AhrsInvalidPackets := stat.remote.invalidPacket);
    sData := sData.(OpCrcErrors := stat.local.crcErrors);
    sData := sData.(OpRetries := stat.local.retries);
    sData := sData.(OpInvalidPackets := stat.local.invalidPacket);
    status := sData;
    ticks := input.updatePeriod / rate;
  }

  /** A stepwise run of k cycles extends to k + 1 cycles by one more loop
      iteration from the state it ended in. */
  lemma StepwiseSnoc(s: Supervisor, inputs: seq<Input>, k: nat, done: seq<Cycle>, c: Cycle, rate: TickRate)
    requires k < |inputs|
    ensures Stepwise(s, inputs[..k], done, rate) && c == Step(StateAfter(s, done, k), inputs[k], rate)
            ==> Stepwise(s, inputs[..k + 1], done + [c], rate)
  {
    if Stepwise(s, inputs[..k], done, rate) && c == Step(StateAfter(s, done, k), inputs[k], rate) {
      var done' := done + [c];
      forall i | 0 <= i <= k
        ensures done'[i] == Step(StateAfter(s, done', i), inputs[..k + 1][i], rate)
      {
        if i < k {
          assert done[i] == Step(StateAfter(s, done, i), inputs[..k][i], rate);
          assert StateAfter(s, done', i) == StateAfter(s, done, i);
        }
      }
    }
  }

  /** Runs the task for one cycle per input and returns the alarm level, the
      status object and the delays requested, as the loop leaves them. They
      are those of the fold of the loop body over the inputs; so the alarm is
      critical only if no cycle ran and otherwise follows the last snapshot,
      the record carries the last snapshot with its other fields untouched,
      and every delay is computed from its own cycle's period. */
  method SuperviseTask(initial: AhrsStatus, inputs: seq<Input>, rate: TickRate)
    returns (alarm: AlarmLevel, status: AhrsStatus, delays: seq<u32>)
    ensures Supervisor(alarm, status) == Final(Start(initial), inputs, rate)
    ensures |delays| == |inputs|
    ensures forall i :: 0 <= i < |inputs| ==> delays[i] == Run(Start(initial), inputs, rate)[i].delay
    ensures alarm == Critical <==> |inputs| == 0
    ensures |inputs| > 0 ==>
              && (alarm == Ok <==> inputs[|inputs| - 1].snapshot.linkOk)
              && Mirrors(status, inputs[|inputs| - 1].snapshot)
    ensures status.others == initial.others
    ensures forall i :: 0 <= i < |inputs| ==> delays[i] == DelayTicks(inputs[i].updatePeriod, rate)
  {
    alarm := Critical;
    status := initial;
    delays := [];
    ghost var done: seq<Cycle> := [];
    var k := 0;
    while k < |inputs|
      invariant 0 <= k <= |inputs|
      invariant Stepwise(Start(initial), inputs[..k], done, rate)
      invariant Supervisor(alarm, status) == StateAfter(Start(initial), done, k)
      invariant |delays| == k
      invariant forall i :: 0 <= i < k ==> delays[i] == done[i].delay
    {
      ghost var c := Step(Supervisor(alarm, status), inputs[k], rate);
      var ticks;
      alarm, status, ticks := LoopBody(Supervisor(alarm, status), inputs[k], rate);
      delays := delays + [ticks];
      StepwiseSnoc(Start(initial), inputs, k, done, c, rate);
      done := done + [c];
      k := k + 1;
    }
    assert inputs[..k] == inputs;
    StepwiseIsRun(Start(initial), inputs, done, rate);
    RunOutcome(initial, inputs, rate);
  }
}
