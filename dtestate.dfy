/**
  The state a DTE policy and its device change as they run, as a value,
  with the invariant the policy keeps on it.
 */
module DteState {
  import opened Ftl
  import opened Ssd
  import opened Wear

  /** 2^64: the modulus of the source's uint64_t arithmetic. */
  const U64: nat := 0x1_0000_0000_0000_0000

  /** The fixed sizes of a device: pages per block, blocks, logical pages, write-buffer capacity. */
  datatype Dims = Dims(ppz: nat, zones: nat, lps: nat, cap: nat)

  /**
    What a DTE policy changes as it runs: its device's flash, write buffer
    and wear-leveling state, and its own current block, free and full lists,
    buffered page ids and block death times.  The write histories travel
    beside it.
   */
  datatype Run = Run(flash: Flash, buffer: seq<nat>, wl: WlState, current: nat, free: seq<nat>,
                     full: seq<nat>, cached: seq<nat>, edt: seq<nat>)

  /** The invariant of the policy's own fields: every block and page id in range, a 64-bit death time per block. */
  ghost predicate PolicyOk(current: nat, free: seq<nat>, full: seq<nat>, cached: seq<nat>, edt: seq<nat>, d: Dims) {
    current < d.zones &&
    (forall i :: 0 <= i < |free| ==> free[i] < d.zones) &&
    (forall i :: 0 <= i < |full| ==> full[i] < d.zones) &&
    (forall i :: 0 <= i < |cached| ==> cached[i] < d.lps) &&
    |edt| == d.zones && (forall z :: 0 <= z < d.zones ==> edt[z] < U64)
  }

  /** The invariant of a whole state: the device's and the policy's. */
  ghost predicate RunOk(s: Run, d: Dims) {
    DeviceOk(s.flash, s.buffer, s.wl, d.ppz, d.zones, d.lps, d.cap) &&
    PolicyOk(s.current, s.free, s.full, s.cached, s.edt, d)
  }
}
