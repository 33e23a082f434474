/** The life cycle of the mapping (mmap.go), as functions of its state: open,
    close, re-open and growth on demand. The operating system is replaced by
    the file's bytes and by the replies of the calls. */
module Lifecycle {
  import opened GoInt
  import opened Errors
  import opened ByteSeq
  import opened Grower

  /** The part of an `Mmap` that its operations change:
      - `data`: the mapped region `m.data`; its length is the capacity;
      - `closed`: the flag `m.closed`;
      - `backing`: the bytes of the backing file. The mapping is shared, so a
        byte written to the region is a byte of the file. */
  datatype MapState = MapState(data: seq<byte>, closed: bool, backing: seq<byte>)

  /** Lengths are Go `int`s, and an open mapping shows the first bytes of
      its file. */
  predicate Consistent(s: MapState) {
    && |s.backing| <= MaxInt
    && |s.data| <= MaxInt
    && (!s.closed ==> s.data <= s.backing)
  }

  /** A new state and the error returned with it (`None` is `nil`). */
  datatype Outcome = Outcome(state: MapState, err: Option<Error>)

  /** `open(withCap)`: open the file, `fstat` it, extend it to `withCap` bytes
      when it is shorter, and map its first `withCap` bytes. The first failing
      call ends the operation, and its error is returned. `m.closed` is
      cleared only when the mapping succeeds: a failed open leaves it as it
      was. A failed `mmap` leaves `m.data` nil, because `unix.Mmap` returns a
      nil slice with its error; the steps before it leave `m.data` alone.
      A mapping of no bytes or fewer is refused with EINVAL. */
  function Open(s: MapState, withCap: Int, os: Os): (r: Outcome)
    ensures r.err.None? <==>
      os.open.Ok? && os.stat.Ok? && (|s.backing| < withCap ==> os.ftruncate.Ok?) && 0 < withCap && os.mmap.Ok?
    ensures r.err.None? ==> !r.state.closed && |r.state.data| == withCap && r.state.data <= r.state.backing
    ensures r.err.Some? ==> r.state.closed == s.closed
    ensures r.err.Some? ==> r.state.data == s.data || r.state.data == []
    // each failing step returns its own error; the first three change nothing
    ensures os.open.Fail? ==> r == Outcome(s, Some(SysErr(os.open.cause)))
    ensures os.open.Ok? && os.stat.Fail? ==> r == Outcome(s, Some(SysErr(os.stat.cause)))
    ensures os.open.Ok? && os.stat.Ok? && |s.backing| < withCap && os.ftruncate.Fail? ==>
      r == Outcome(s, Some(SysErr(os.ftruncate.cause)))
    ensures os.open.Ok? && os.stat.Ok? && (|s.backing| < withCap ==> os.ftruncate.Ok?) ==>
      && (withCap <= 0 ==> r.err == Some(SysErr(Invalid)) && r.state.data == [])
      && (0 < withCap && os.mmap.Fail? ==> r.err == Some(SysErr(os.mmap.cause)) && r.state.data == [])
    // the file is extended to `withCap` bytes when it is shorter, with zeros
    ensures s.backing <= r.state.backing
    ensures |r.state.backing| ==
      if os.open.Ok? && os.stat.Ok? && |s.backing| < withCap && os.ftruncate.Ok? then withCap else |s.backing|
    ensures forall i | |s.backing| <= i < |r.state.backing| :: r.state.backing[i] == 0
    ensures Consistent(s) ==> Consistent(r.state)
  {
    if os.open.Fail? then Outcome(s, Failure(os.open))
    else if os.stat.Fail? then Outcome(s, Failure(os.stat))
    else if |s.backing| < withCap && os.ftruncate.Fail? then Outcome(s, Failure(os.ftruncate))
    else
      var file := if |s.backing| < withCap then Truncate(s.backing, withCap) else s.backing;
      if withCap <= 0 then Outcome(s.(data := [], backing := file), Some(SysErr(Invalid)))
      else if os.mmap.Fail? then Outcome(s.(data := [], backing := file), Failure(os.mmap))
      else Outcome(MapState(file[..withCap], false, file), None)
  }

  /** `close()`: nothing to do when already closed; otherwise unmap and mark
      the buffer closed, even when `munmap` fails, whose error is returned.
      `unix.Munmap` refuses an empty slice with EINVAL before making the call,
      which happens after a failed first open. `m.data` keeps the old slice,
      so the capacity still reads as before. */
  function Close(s: MapState, os: Os): (r: Outcome)
    ensures r.state.closed
    ensures r.state.data == s.data && r.state.backing == s.backing
    ensures s.closed ==> r == Outcome(s, None)
    ensures !s.closed ==> (r.err.None? <==> os.munmap.Ok? && 0 < |s.data|)
    ensures !s.closed && |s.data| == 0 ==> r.err == Some(SysErr(Invalid))
    ensures !s.closed && 0 < |s.data| && os.munmap.Fail? ==> r.err == Some(SysErr(os.munmap.cause))
    ensures Consistent(s) ==> Consistent(r.state)
  {
    if s.closed then Outcome(s, None)
    else if |s.data| == 0 then Outcome(s.(closed := true), Some(SysErr(Invalid)))
    else Outcome(s.(closed := true), if os.munmap.Ok? then None else Failure(os.munmap))
  }

  /** `reOpen(newCap)`: close, then open with the new capacity. Because the
      close comes first, a failed re-open leaves the buffer closed. */
  function ReOpen(s: MapState, newCap: Int, os: Os): (r: Outcome)
    ensures r.err.Some? ==> r.state.closed
    // a failed close is returned as it is; otherwise the outcome is the open's
    ensures !s.closed && |s.data| == 0 ==> r == Outcome(s.(closed := true), Some(SysErr(Invalid)))
    ensures !s.closed && 0 < |s.data| && os.munmap.Fail? ==>
      r == Outcome(s.(closed := true), Some(SysErr(os.munmap.cause)))
    ensures s.closed || (0 < |s.data| && os.munmap.Ok?) ==> r == Open(s.(closed := true), newCap, os)
    ensures r.err.None? ==> !r.state.closed && |r.state.data| == newCap && r.state.data <= r.state.backing
    ensures s.backing <= r.state.backing
    ensures forall i | |s.backing| <= i < |r.state.backing| :: r.state.backing[i] == 0
    ensures Consistent(s) ==> Consistent(r.state)
  {
    var c := Close(s, os);
    if c.err.Some? then c else Open(c.state, newCap, os)
  }

  /** `EnsureCapacity(size)`: fails on a closed buffer, does nothing when
      `size` fits, and otherwise re-opens with the policy's next capacity.
      Every failure leaves the buffer closed. A successful growth keeps the
      old contents as a prefix and fills the file's new bytes with zeros;
      under a valid policy the new capacity holds `size`. */
  function EnsureCapacity(grow: Policy, s: MapState, size: Int, os: Os): (r: Outcome)
    requires |s.data| <= MaxInt
    ensures s.closed ==> r == Outcome(s, Some(ErrIsClosed))
    ensures !s.closed && size <= |s.data| ==> r == Outcome(s, None)
    ensures r.err.Some? ==> r.state.closed
    ensures r.err.Some? && !s.closed ==> r.err.value.SysErr?
    // a growth returns exactly what the re-open with the policy's answer does
    ensures !s.closed && |s.data| < size ==> r == ReOpen(s, grow(|s.data|, size), os)
    ensures !s.closed && |s.data| < size && r.err.None? ==> |r.state.data| == grow(|s.data|, size)
    ensures s.backing <= r.state.backing
    ensures forall i | |s.backing| <= i < |r.state.backing| :: r.state.backing[i] == 0
    ensures Consistent(s) ==> Consistent(r.state)
    ensures Consistent(s) && r.err.None? && |s.data| <= |r.state.data| ==> s.data <= r.state.data
    // after success the file is as long as the longer of itself and the mapping
    ensures Consistent(s) && r.err.None? ==> |r.state.backing| == Max(|s.backing|, |r.state.data|)
    ensures Consistent(s) && r.err.None? && ValidPolicy(grow) && size <= MaxGrowSize ==>
      size <= |r.state.data| && |s.data| <= |r.state.data| && s.data <= r.state.data
  {
    if s.closed then Outcome(s, Some(ErrIsClosed))
    else if size > |s.data| then ReOpen(s, grow(|s.data|, size), os)
    else Outcome(s, None)
  }

  /** Closing twice is the same as closing once, and the second close
      succeeds. */
  lemma CloseIdempotent(s: MapState, os1: Os, os2: Os)
    ensures Close(Close(s, os1).state, os2) == Outcome(Close(s, os1).state, None)
  {
  }

  /** After a close, every re-open that fails leaves the buffer closed, and a
      re-open never calls `munmap` again. */
  lemma ReOpenAfterCloseFails(s: MapState, newCap: Int, os1: Os, os2: Os)
    requires ReOpen(Close(s, os1).state, newCap, os2).err.Some?
    ensures ReOpen(Close(s, os1).state, newCap, os2).state.closed
    ensures ReOpen(Close(s, os1).state, newCap, os2) == Open(Close(s, os1).state, newCap, os2)
  {
  }

  /** Growing twice for the same size grows once: the second call finds the
      size already fits and does nothing. */
  lemma EnsureCapacityIdempotent(grow: Policy, s: MapState, size: Int, os1: Os, os2: Os)
    requires Consistent(s) && ValidPolicy(grow) && size <= MaxGrowSize
    requires EnsureCapacity(grow, s, size, os1).err.None?
    ensures EnsureCapacity(grow, EnsureCapacity(grow, s, size, os1).state, size, os2)
         == EnsureCapacity(grow, s, size, os1)
  {
  }
}
