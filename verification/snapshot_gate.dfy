/** The generation counters of a folder, and who may apply a snapshot. */
module SnapshotGate {
  import opened Common

  // snapshot_generation and latest_reserved_generation.
  datatype Counters = Counters(applied: int, latest: int)

  datatype Verdict = Accept | Refuse | Unreserved

  /** Reserving creates a missing folder row. */
  function Reserve(c: Option<Counters>): Counters {
    if c.None? then Counters(0, 1) else Counters(c.value.applied, c.value.latest + 1)
  }

  function Gate(c: Option<Counters>, generation: int): Verdict {
    if c.None? || generation <= 0 then Unreserved
    else if generation < c.value.latest || generation <= c.value.applied then Refuse
    else if generation > c.value.latest then Unreserved
    else Accept
  }

  /** A snapshot applies under the latest reserved generation and no other, and only once. One that is
      older is refused, one that was never handed out is an error. */
  lemma GateIs(c: Option<Counters>, generation: int)
    ensures Gate(c, generation) == Accept <==>
      c.Some? && 0 < generation == c.value.latest && c.value.applied < generation
    ensures Gate(c, generation) == Refuse <==>
      c.Some? && 0 < generation && (generation < c.value.latest || generation <= c.value.applied)
  {
  }
}
