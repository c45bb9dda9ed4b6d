/**
  The values the AHRS communications supervisor reads and writes: the
  transport's status snapshot, the published AhrsStatus record, the alarm
  level of the supervisor's alarm key, and the tick rate of the scheduler.
 */
module AhrsTypes {

  /** An unsigned 32-bit value (uint32_t / portTickType). */
  type u32 = x: int | 0 <= x < 0x1_0000_0000

  /** The number of milliseconds in one scheduler tick (portTICK_RATE_MS).
      It is a compile-time constant of the RTOS port; it is at least 1, so the
      division by it in the delay computation is always defined. */
  type TickRate = r: u32 | r >= 1 witness 1

  /** One group of cumulative transport counters (the `remote` or `local`
      half of an AhrsCommStatus). The code never checks that they grow. */
  datatype Counters = Counters(
    kickStarts: u32,
    crcErrors: u32,
    retries: u32,
    invalidPacket: u32)

  /** The snapshot returned by AhrsGetStatus after one exchange. */
  datatype CommStatus = CommStatus(
    linkOk: bool,
    remote: Counters,
    local: Counters)

  /** The published AhrsStatus object. The eight link fields are the ones the
      supervisor assigns; `others` holds every other field of the object by
      name, which the supervisor fetches and stores back unchanged. */
  datatype AhrsStatus = AhrsStatus(
    LinkRunning: bool,
    AhrsKickstarts: u32,
    AhrsCrcErrors: u32,
    AhrsRetries: u32,
    AhrsInvalidPackets: u32,
    OpCrcErrors: u32,
    OpRetries: u32,
    OpInvalidPackets: u32,
    others: map<string, int>)

  /** The levels the supervisor's alarm key can take. `Ok` is the level a
      cleared alarm reads as. */
  datatype AlarmLevel = Ok | Warning | Critical
}
