/** Reading from the buffer (reader.go): `ReadAt`, `Bytes`, and the intended
    form of `ReadAt`'s bounds check. */
module Reader {
  import opened GoInt
  import opened Errors
  import opened ByteSeq
  import opened Lifecycle

  /** The caller's buffer after the call, the count `n` and the error. */
  datatype ReadOutcome = ReadOutcome(buf: seq<byte>, n: int, err: Option<Error>)

  /** `ReadAt(p, off)` as written. On a closed buffer it reports
      `ErrIsClosed`. It compares `off` with the length of the CALLER'S buffer
      `p` rather than with the capacity, and reports `io.EOF` when `off` is
      larger. Past that check an offset outside `0..Cap()` makes
      `m.data[off:]` panic. Otherwise the bytes from `off` on are copied into
      `p`, and a short copy is reported as `io.EOF`. */
  function ReadAt(s: MapState, p: seq<byte>, off: Int): (r: ReadOutcome)
    ensures |r.buf| == |p|
    ensures s.closed ==> r == ReadOutcome(p, 0, Some(ErrIsClosed))
    ensures !s.closed && off > |p| ==> r == ReadOutcome(p, 0, Some(EOF))
    ensures !s.closed && off <= |p| && (off < 0 || off > |s.data|) ==> r.err == Some(Panic)
    ensures r.err.None? || r.err == Some(EOF) ==> 0 <= r.n <= |p|
    ensures r.err.None? || r.err == Some(EOF) ==> r.buf[r.n..] == p[r.n..]
    ensures r.err.None? ==> r.n == |p|
    ensures !s.closed && 0 <= off <= |p| && off <= |s.data| ==>
      && r.n == Min(|p|, |s.data| - off)
      && r.buf[..r.n] == s.data[off..off + r.n]
      && (r.err == Some(EOF) <==> r.n < |p|)
      && (r.err.None? <==> r.n == |p|)
  {
    if s.closed then ReadOutcome(p, 0, Some(ErrIsClosed))
    else if off > |p| then ReadOutcome(p, 0, Some(EOF))
    else if off < 0 || off > |s.data| then ReadOutcome(p, 0, Some(Panic))
    else
      var src := s.data[off..];
      var n := Min(|p|, |src|);
      ReadOutcome(CopyInto(p, src), n, if n < |p| then Some(EOF) else None)
  }

  /** `ReadAt` with the bounds check the method evidently intends: `io.EOF`
      for an offset past the END OF THE DATA (what `io.ReaderAt` asks for),
      whatever the caller's buffer length. A negative offset still panics. */
  function ReadAtIntended(s: MapState, p: seq<byte>, off: Int): (r: ReadOutcome)
    ensures |r.buf| == |p|
    ensures s.closed ==> r == ReadOutcome(p, 0, Some(ErrIsClosed))
    ensures !s.closed && off > |s.data| ==> r == ReadOutcome(p, 0, Some(EOF))
    ensures !s.closed ==> (r.err == Some(Panic) <==> off < 0)
    ensures !s.closed && 0 <= off <= |s.data| ==>
      && r.n == Min(|p|, |s.data| - off)
      && r.buf[..r.n] == s.data[off..off + r.n]
      && r.buf[r.n..] == p[r.n..]
      && (r.err == Some(EOF) <==> r.n < |p|)
      && (r.err.None? <==> r.n == |p|)
  {
    if s.closed then ReadOutcome(p, 0, Some(ErrIsClosed))
    else if off > |s.data| then ReadOutcome(p, 0, Some(EOF))
    else if off < 0 then ReadOutcome(p, 0, Some(Panic))
    else
      var src := s.data[off..];
      var n := Min(|p|, |src|);
      ReadOutcome(CopyInto(p, src), n, if n < |p| then Some(EOF) else None)
  }

  /** Where both checks let the copy happen, the two agree. */
  lemma ReadAtAgreesWithIntended(s: MapState, p: seq<byte>, off: Int)
    requires !s.closed && 0 <= off <= |p| && off <= |s.data|
    ensures ReadAt(s, p, off) == ReadAtIntended(s, p, off)
  {
  }

  /** The twelve bytes "Hello world!". */
  const Hello: seq<byte> := [0x48, 0x65, 0x6C, 0x6C, 0x6F, 0x20, 0x77, 0x6F, 0x72, 0x6C, 0x64, 0x21]

  /** As written, reading 4 bytes at offset 8 of "Hello world!" copies
      nothing and reports `io.EOF`, though "rld!" is there; the intended
      check returns those four bytes. */
  lemma ReadAtRejectsOffsetPastBuffer()
    ensures ReadAt(MapState(Hello, false, Hello), Zeros(4), 8) == ReadOutcome(Zeros(4), 0, Some(EOF))
    ensures ReadAtIntended(MapState(Hello, false, Hello), Zeros(4), 8) == ReadOutcome(Hello[8..], 4, None)
  {
    var s := MapState(Hello, false, Hello);
    var r := ReadAtIntended(s, Zeros(4), 8);
    assert r.buf[..4] == Hello[8..12];
  }

  /** As written, a 128-byte read at offset 50 of "Hello world!" passes the
      check (50 <= 128) and then panics on `m.data[50:]`; the intended check
      reports `io.EOF`. */
  lemma ReadAtPanicsPastData()
    ensures ReadAt(MapState(Hello, false, Hello), Zeros(128), 50).err == Some(Panic)
    ensures ReadAtIntended(MapState(Hello, false, Hello), Zeros(128), 50) == ReadOutcome(Zeros(128), 0, Some(EOF))
  {
  }

  /** What `Bytes` returns: a slice and an error. */
  datatype BytesOutcome = BytesOutcome(bytes: seq<byte>, err: Option<Error>)

  /** `Bytes(offset, length)`: on a closed buffer `nil` and `ErrIsClosed`;
      a negative length makes `make` panic; otherwise `ReadAt` into `length`
      fresh zero bytes, whose first `n` bytes are returned with `ReadAt`'s
      error. Where the copy happens these are the bytes at
      `offset..offset+n` of the data. */
  function Bytes(s: MapState, offset: Int, length: Int): (r: BytesOutcome)
    ensures s.closed ==> r == BytesOutcome([], Some(ErrIsClosed))
    ensures !s.closed && length < 0 ==> r.err == Some(Panic)
    ensures !s.closed && 0 <= length ==>
      var read := ReadAt(s, Zeros(length), offset);
      r.err == read.err && (r.err.None? || r.err == Some(EOF) ==> r.bytes == read.buf[..read.n])
    ensures !s.closed && 0 <= offset <= length && offset <= |s.data| ==>
      && r.bytes == s.data[offset..offset + Min(length, |s.data| - offset)]
      && (r.err == Some(EOF) <==> |r.bytes| < length)
      && (r.err.None? <==> |r.bytes| == length)
    ensures r.err.None? ==> |r.bytes| == length
  {
    if s.closed then BytesOutcome([], Some(ErrIsClosed))
    else if length < 0 then BytesOutcome([], Some(Panic))
    else
      var read := ReadAt(s, Zeros(length), offset);
      if read.err == Some(Panic) then BytesOutcome([], Some(Panic))
      else BytesOutcome(read.buf[..read.n], read.err)
  }
}
