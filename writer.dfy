/** Writing to the buffer (writer.go): `WriteAt` grows the mapping on demand
    and then copies into it. */
module Writer {
  import opened GoInt
  import opened Errors
  import opened ByteSeq
  import opened Grower
  import opened Lifecycle

  /** The new state, the count `n` and the error. */
  datatype WriteOutcome = WriteOutcome(state: MapState, n: int, err: Option<Error>)

  /** `WriteAt(p, off)`: on a closed buffer `ErrIsClosed`. Otherwise the end
      of the write, `int(off) + len(p)`, wrapping as Go's `int` does, is
      passed to `EnsureCapacity`, whose error is returned with `n == 0`. Then
      `m.data[off:end]` panics unless `0 <= off <= end <= Cap()`, and `p` is
      copied into the window. The mapping is shared, so the write reaches the
      file too. The state is one `Consistent` describes, the invariant every
      operation of the buffer keeps.

      The result: a successful write puts `p` at `off` in both the mapping
      and the file, and leaves every other byte what the file held before (or
      zero, where growth extended the file). A failure other than a panic
      leaves the buffer closed and writes nothing. A write inside the current
      capacity makes no system call; a write past it grows the capacity to the
      policy's answer. Under a valid policy, a write that ends within
      `MaxGrowSize` never panics. A failed growth always makes the write fail
      with its error, and after a successful growth the write succeeds
      exactly when its window fits the grown mapping. */
  function WriteAt(grow: Policy, s: MapState, p: seq<byte>, off: Int, os: Os): (r: WriteOutcome)
    requires Consistent(s) && |p| <= MaxInt
    ensures s.closed ==> r == WriteOutcome(s, 0, Some(ErrIsClosed))
    ensures r.err.Some? ==> r.n == 0
    ensures r.err.None? ==>
      && !r.state.closed
      && r.n == |p|
      && 0 <= off && off + |p| <= |r.state.data|
      && r.state.data[off..off + |p|] == p
    ensures Consistent(r.state)
    ensures r.err.None? ==>
      && |s.data| <= |r.state.data|
      && forall i | 0 <= i < |r.state.data| && !(off <= i < off + |p|) ::
           r.state.data[i] == (if i < |s.backing| then s.backing[i] else 0)
    ensures r.err.Some? && r.err != Some(Panic) ==> r.state.closed
    // a failed growth is returned as it is, with nothing written; after a
    // growth that succeeds, the write succeeds exactly when its window lies
    // inside the grown mapping, and otherwise panics with nothing written
    ensures !s.closed ==>
      var grown := EnsureCapacity(grow, s, Wrap(off + |p|), os);
      if grown.err.Some? then r == WriteOutcome(grown.state, 0, grown.err)
      else
        && (r.err.None? <==> 0 <= off && off + |p| <= |grown.state.data|)
        && (r.err.Some? ==> r == WriteOutcome(grown.state, 0, Some(Panic)))
    // after success the file holds the mapping, then its own old bytes
    ensures r.err.None? ==>
      && |r.state.backing| == Max(|s.backing|, |r.state.data|)
      && r.state.data <= r.state.backing
      && forall i | |r.state.data| <= i < |r.state.backing| :: r.state.backing[i] == s.backing[i]
    ensures r.err.Some? ==>
      && s.backing <= r.state.backing
      && forall i | |s.backing| <= i < |r.state.backing| :: r.state.backing[i] == 0
    ensures !s.closed && 0 <= off && off + |p| <= |s.data| ==>
      r.err.None? && |r.state.data| == |s.data| && r.state.backing[off..off + |p|] == p
    ensures !s.closed && |s.data| < off + |p| && r.err.None? ==>
      |r.state.data| == grow(|s.data|, off + |p|)
    ensures ValidPolicy(grow) && 0 <= off && off + |p| <= MaxGrowSize ==>
      r.err != Some(Panic)
  {
    if s.closed then WriteOutcome(s, 0, Some(ErrIsClosed))
    else
      var end := Wrap(off + |p|);
      var grown := EnsureCapacity(grow, s, end, os);
      if grown.err.Some? then WriteOutcome(grown.state, 0, grown.err)
      else
        var g := grown.state;
        if !(0 <= off <= end <= |g.data|) then WriteOutcome(g, 0, Some(Panic))
        else
          WriteOutcome(g.(data := Overwrite(g.data, off, p), backing := Overwrite(g.backing, off, p)), |p|, None)
  }

  /** The slice at the end of `WriteAt` relies on the policy: one installed
      with `ChangeGrowPolicy` that keeps the current capacity makes a write
      past the end remap the file at the same size and then panic. */
  lemma PolicyThatDoesNotGrowPanics()
    ensures
      var keep: Policy := (c: Int, a: Int) => c;
      var file: seq<byte> := [1, 2, 3];
      var r := WriteAt(keep, MapState(file, false, file), [4], 3, AllOk);
      && !ValidPolicy(keep)
      && r.err == Some(Panic) && r.n == 0 && r.state == MapState(file, false, file)
  {
    var keep: Policy := (c: Int, a: Int) => c;
    assert keep(0, 1) < 1;
  }
}
