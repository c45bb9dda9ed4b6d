/**
  One iteration of the AHRS communications task loop, as a pure function.

  The task sets its alarm to critical once, when it starts, and then, every
  cycle: reads the settings, exchanges objects with the AHRS, takes the
  transport's status snapshot, derives the alarm from `linkOk` alone, copies
  eight snapshot values into the AhrsStatus object (fetched, patched, stored
  back) and passes UpdatePeriod / portTICK_RATE_MS ticks to vTaskDelayUntil.
 */
module AhrsComms {
  import opened AhrsTypes

  /** What the task keeps between cycles: its alarm level and the AhrsStatus
      object it last published. */
  datatype Supervisor = Supervisor(alarm: AlarmLevel, status: AhrsStatus)

  /** What one cycle reads from outside: the transport snapshot and the
      UpdatePeriod (milliseconds) of the settings object read that cycle. */
  datatype Input = Input(snapshot: CommStatus, updatePeriod: u32)

  /** What one cycle produces: the new state and the tick count handed to the
      delay. */
  datatype Cycle = Cycle(next: Supervisor, delay: u32)

  /** The task as it enters its loop: the alarm has just been set to critical,
      a level no alarm call of the loop ever produces, and the status object
      is whatever the object store holds. */
  function Start(status: AhrsStatus): (s: Supervisor)
    ensures s.alarm == Critical
    ensures forall linkOk: bool :: s.alarm != AlarmAfter(linkOk)
    ensures s.status == status
  {
    Supervisor(Critical, status)
  }

  /** The alarm level after the alarm call of one cycle: a healthy link clears
      the alarm, a broken one raises a warning. */
  function AlarmAfter(linkOk: bool): (level: AlarmLevel)
    ensures level != Critical
    ensures level == Ok <==> linkOk
    ensures level == Warning <==> !linkOk
  {
    if linkOk then Ok else Warning
  }

  /** `record` carries the eight link values of `snap`: the link flag, the
      four remote counters, and the local counters other than kickStarts. */
  predicate Mirrors(record: AhrsStatus, snap: CommStatus)
  {
    && record.LinkRunning == snap.linkOk
    && record.AhrsKickstarts == snap.remote.kickStarts
    && record.AhrsCrcErrors == snap.remote.crcErrors
    && record.AhrsRetries == snap.remote.retries
    && record.AhrsInvalidPackets == snap.remote.invalidPacket
    && record.OpCrcErrors == snap.local.crcErrors
    && record.OpRetries == snap.local.retries
    && record.OpInvalidPackets == snap.local.invalidPacket
  }

  /** The read-modify-write of the AhrsStatus object: the previous object is
      patched with the snapshot's values and stored back. */
  function Publish(prev: AhrsStatus, snap: CommStatus): (record: AhrsStatus)
    ensures Mirrors(record, snap)
    ensures record.others == prev.others
  {
    prev.(LinkRunning := snap.linkOk,
          AhrsKickstarts := snap.remote.kickStarts,
          AhrsCrcErrors := snap.remote.crcErrors,
          AhrsRetries := snap.remote.retries,
          AhrsInvalidPackets := snap.remote.invalidPacket,
          OpCrcErrors := snap.local.crcErrors,
          OpRetries := snap.local.retries,
          OpInvalidPackets := snap.local.invalidPacket)
  }

  /** The tick count passed to the delay: the unsigned integer quotient of the
      period in milliseconds by the milliseconds per tick. */
  function DelayTicks(period: u32, rate: TickRate): (ticks: u32)
    ensures ticks * rate <= period < (ticks + 1) * rate
    ensures ticks == 0 <==> period < rate
  {
    DivisionFloor(period, rate);
    period / rate
  }

  /** The quotient of Dafny's `/` on naturals is the floor quotient, which is
      also what C's unsigned division computes. */
  lemma DivisionFloor(n: nat, d: nat)
    requires d > 0
    ensures (n / d) * d <= n < (n / d + 1) * d
    ensures n / d <= n
    ensures n / d == 0 <==> n < d
  {
    var q, m := n / d, n % d;
    assert n == q * d + m && 0 <= m < d;
    assert (q + 1) * d == q * d + d;
    MulMono(1, d, q);
    if n < d && q > 0 {
      MulMono(1, q, d);
      assert false;
    }
  }

  /** One pass through the loop body. The previous alarm level plays no part:
      only the snapshot decides the new one. */
  function Step(s: Supervisor, input: Input, rate: TickRate): (c: Cycle)
    ensures c.next.alarm != Critical
    ensures c.next.alarm == Ok <==> input.snapshot.linkOk
    ensures Mirrors(c.next.status, input.snapshot)
    ensures c.next.status.others == s.status.others
    ensures c.delay == DelayTicks(input.updatePeriod, rate)
  {
    var level := AlarmAfter(input.snapshot.linkOk);
    var record := Publish(s.status, input.snapshot);
    Cycle(Supervisor(level, record), DelayTicks(input.updatePeriod, rate))
  }

  /** The alarm level the task held before a cycle has no influence on that
      cycle: critical, warning and Ok are all forgotten alike. */
  lemma StepIgnoresPreviousAlarm(s: Supervisor, level: AlarmLevel, input: Input, rate: TickRate)
    ensures Step(s.(alarm := level), input, rate) == Step(s, input, rate)
  {
  }

  /** Publish is the only record with the snapshot's link values and the
      previous object's other fields: the two conditions pin it down. */
  lemma PublishUnique(prev: AhrsStatus, snap: CommStatus, record: AhrsStatus)
    ensures record == Publish(prev, snap) <==> Mirrors(record, snap) && record.others == prev.others
  {
  }

  /** No stale values survive: publishing two snapshots in turn leaves the same
      object as publishing only the second. */
  lemma PublishLastWins(prev: AhrsStatus, first: CommStatus, second: CommStatus)
    ensures Publish(Publish(prev, first), second) == Publish(prev, second)
  {
  }

  /** `local.kickStarts` is never published: two snapshots that differ only in
      it give the same object. */
  lemma LocalKickStartsIgnored(prev: AhrsStatus, snap: CommStatus, kicks: u32)
    ensures Publish(prev, snap.(local := snap.local.(kickStarts := kicks))) == Publish(prev, snap)
  {
  }

  /** The tick count is the only value with the floor property: any `t` with
      t * rate <= period < (t + 1) * rate is DelayTicks(period, rate). */
  lemma DelayTicksUnique(period: u32, rate: TickRate, t: nat)
    requires t * rate <= period < (t + 1) * rate
    ensures t == DelayTicks(period, rate)
  {
    var q := DelayTicks(period, rate);
    if t < q {
      assert t + 1 <= q;
      MulMono(t + 1, q, rate);
      assert false;
    } else if q < t {
      assert q + 1 <= t;
      MulMono(q + 1, t, rate);
      assert false;
    }
  }

  lemma MulMono(a: nat, b: nat, k: nat)
    requires a <= b
    ensures a * k <= b * k
  {
  }
}
