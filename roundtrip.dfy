/** The round trip between the writer and the reader: bytes written at an
    offset read back unchanged at that offset. */
module RoundTrip {
  import opened GoInt
  import opened Errors
  import opened ByteSeq
  import opened Grower
  import opened Lifecycle
  import opened Reader
  import opened Writer

  /** With the intended bounds check, a successful `WriteAt(p, off)` followed
      by a read of `len(p)` bytes at `off` returns `p`, whatever `off` is. */
  lemma WriteThenReadIntended(grow: Policy, s: MapState, p: seq<byte>, off: Int, os: Os, buf: seq<byte>)
    requires Consistent(s) && |p| <= MaxInt
    requires WriteAt(grow, s, p, off, os).err.None?
    requires |buf| == |p|
    ensures ReadAtIntended(WriteAt(grow, s, p, off, os).state, buf, off) == ReadOutcome(p, |p|, None)
  {
    var t := WriteAt(grow, s, p, off, os).state;
    var r := ReadAtIntended(t, buf, off);
    assert r.buf == r.buf[..r.n] + r.buf[r.n..];
  }

  /** As written, the same round trip holds only while `off <= len(p)`. */
  lemma WriteThenRead(grow: Policy, s: MapState, p: seq<byte>, off: Int, os: Os, buf: seq<byte>)
    requires Consistent(s) && |p| <= MaxInt
    requires WriteAt(grow, s, p, off, os).err.None?
    requires |buf| == |p| && off <= |p|
    ensures ReadAt(WriteAt(grow, s, p, off, os).state, buf, off) == ReadOutcome(p, |p|, None)
  {
    var t := WriteAt(grow, s, p, off, os).state;
    ReadAtAgreesWithIntended(t, buf, off);
    WriteThenReadIntended(grow, s, p, off, os, buf);
  }

  /** As written, a write at an offset larger than its own length does not
      read back: the read copies nothing and reports `io.EOF`. */
  lemma WriteThenReadFailsPastLength(grow: Policy, s: MapState, p: seq<byte>, off: Int, os: Os, buf: seq<byte>)
    requires Consistent(s) && |p| <= MaxInt
    requires WriteAt(grow, s, p, off, os).err.None?
    requires |buf| == |p| && off > |p|
    ensures ReadAt(WriteAt(grow, s, p, off, os).state, buf, off) == ReadOutcome(buf, 0, Some(EOF))
    ensures ReadAt(WriteAt(grow, s, p, off, os).state, buf, off) != ReadOutcome(p, |p|, None)
  {
  }
}
