/** The buffer itself (mmap.go, reader.go, writer.go, grower.go): a class whose
    methods change the mapping step by step, each proved to produce the state
    its specification function describes. */
module MmapBuffer {
  import opened GoInt
  import opened Errors
  import opened ByteSeq
  import opened Grower
  import opened Config
  import opened Lifecycle
  import opened Reader
  import opened Writer

  /** An `io.Writer` that accepts every byte it is given. */
  class Sink {
    var received: seq<byte>

    constructor ()
      ensures received == []
    {
      received := [];
    }

    method Write(p: seq<byte>) returns (n: int)
      modifies this
      ensures received == old(received) + p && n == |p|
    {
      received := received + p;
      n := |p|;
    }
  }

  /** The replies that `New` is given describe the file it maps: `os.Stat`
      measures `backing`, and a temporary file is created empty. */
  predicate FileInputs(file: string, temp: TempReply, stat: StatReply, backing: seq<byte>) {
    && (stat.StatSize? ==> stat.size == |backing|)
    && (file == "" && temp.TempCreated? ==> backing == [])
  }

  /** Go's `*Mmap`. `backing` holds the bytes of the file behind the mapping,
      which the shared mapping writes through to. */
  class Mmap {
    var args: Args
    var grow: Policy
    var data: seq<byte>
    var closed: bool
    var backing: seq<byte>

    function State(): MapState
      reads this
    {
      MapState(data, closed, backing)
    }

    predicate Valid()
      reads this
    {
      Consistent(State())
    }

    /** `&Mmap{args: args, grow: DefaultGrowPolicy, data: nil}` over a file
        holding `backing`. */
    constructor (args: Args, backing: seq<byte>)
      requires |backing| <= MaxInt
      ensures Valid() && this.args == args && grow == DefaultGrowPolicy
      ensures State() == MapState([], false, backing)
    {
      this.args := args;
      grow := DefaultGrowPolicy;
      data := [];
      closed := false;
      this.backing := backing;
    }

    /** `Cap()`: the length of the mapping. */
    function Cap(): (c: Int)
      reads this
      requires Valid()
      ensures c == |data|
    {
      |data|
    }

    function IsClosed(): (b: bool)
      reads this
      ensures b == closed
    {
      closed
    }

    /** `ChangeGrowPolicy`: installs `g` and changes nothing else. */
    method ChangeGrowPolicy(g: Policy)
      modifies this
      ensures grow == g && args == old(args) && State() == old(State())
    {
      grow := g;
    }

    /** `open(withCap)`. */
    method OpenMapping(withCap: Int, os: Os) returns (err: Option<Error>)
      requires Valid()
      modifies this
      ensures Valid() && args == old(args) && grow == old(grow)
      ensures Outcome(State(), err) == Lifecycle.Open(old(State()), withCap, os)
    {
      if os.open.Fail? {
        return Failure(os.open);
      }
      if os.stat.Fail? {
        return Failure(os.stat);
      }
      if |backing| < withCap {
        if os.ftruncate.Fail? {
          return Failure(os.ftruncate);
        }
        backing := Truncate(backing, withCap);
      }
      if withCap <= 0 {
        data := [];
        return Some(SysErr(Invalid));
      }
      if os.mmap.Fail? {
        data := [];
        return Failure(os.mmap);
      }
      data := backing[..withCap];
      closed := false;
      return None;
    }

    /** `close()`. */
    method CloseMapping(os: Os) returns (err: Option<Error>)
      requires Valid()
      modifies this
      ensures Valid() && args == old(args) && grow == old(grow)
      ensures Outcome(State(), err) == Lifecycle.Close(old(State()), os)
    {
      if closed {
        return None;
      }
      if |data| == 0 {
        err := Some(SysErr(Invalid));
      } else {
        err := if os.munmap.Ok? then None else Failure(os.munmap);
      }
      closed := true;
    }

    /** `reOpen(newCap)`. */
    method ReOpen(newCap: Int, os: Os) returns (err: Option<Error>)
      requires Valid()
      modifies this
      ensures Valid() && args == old(args) && grow == old(grow)
      ensures Outcome(State(), err) == Lifecycle.ReOpen(old(State()), newCap, os)
    {
      err := CloseMapping(os);
      if err.Some? {
        return;
      }
      err := OpenMapping(newCap, os);
    }

    /** `EnsureCapacity(size)`. */
    method EnsureCapacity(size: Int, os: Os) returns (err: Option<Error>)
      requires Valid()
      modifies this
      ensures Valid() && args == old(args) && grow == old(grow)
      ensures Outcome(State(), err) == Lifecycle.EnsureCapacity(grow, old(State()), size, os)
    {
      if closed {
        return Some(ErrIsClosed);
      }
      var capacity := Cap();
      if size > capacity {
        var next := grow(capacity, size);
        err := ReOpen(next, os);
        if err.Some? {
          return;
        }
      }
      return None;
    }

    /** `Close()`. */
    method Close(os: Os) returns (err: Option<Error>)
      requires Valid()
      modifies this
      ensures Valid() && args == old(args) && grow == old(grow)
      ensures Outcome(State(), err) == Lifecycle.Close(old(State()), os)
    {
      err := CloseMapping(os);
    }

    /** `ReadAt(p, off)`, copying into the caller's slice in place. */
    method ReadAt(p: array<byte>, off: Int) returns (n: int, err: Option<Error>)
      requires Valid()
      modifies p
      ensures ReadOutcome(p[..], n, err) == Reader.ReadAt(State(), old(p[..]), off)
    {
      if closed {
        return 0, Some(ErrIsClosed);
      }
      if off > p.Length {
        return 0, Some(EOF);
      }
      if off < 0 || off > |data| {
        return 0, Some(Panic);
      }
      n := Min(p.Length, |data| - off);
      for i := 0 to n
        invariant p[..i] == data[off..off + i]
        invariant forall j | i <= j < p.Length :: p[j] == old(p[j])
      {
        p[i] := data[off + i];
        assert p[..i + 1] == p[..i] + [p[i]];
      }
      err := if n < p.Length then Some(EOF) else None;
      assert p[..] == p[..n] + p[n..];
    }

    /** `WriteTo(w)`: nothing on a closed buffer; otherwise the whole mapping
        is handed to `w` in one `Write`, as `io.Copy` does with a
        `bytes.Reader`. */
    method WriteTo(w: Sink) returns (n: Int, err: Option<Error>)
      requires Valid()
      modifies w
      ensures closed ==> n == 0 && err == Some(ErrIsClosed) && w.received == old(w.received)
      ensures !closed ==> n == |data| && err == None && w.received == old(w.received) + data
    {
      if closed {
        return 0, Some(ErrIsClosed);
      }
      var written := w.Write(data);
      n := written;
      err := None;
    }

    /** `Bytes(offset, length)`: at most `length` bytes read from `offset`,
        into a fresh slice. */
    method Bytes(offset: Int, length: Int) returns (bytes: seq<byte>, err: Option<Error>)
      requires Valid()
      ensures BytesOutcome(bytes, err) == Reader.Bytes(State(), offset, length)
    {
      if closed {
        return [], Some(ErrIsClosed);
      }
      if length < 0 {
        return [], Some(Panic);
      }
      var result := new byte[length](_ => 0);
      assert result[..] == Zeros(length);
      var n;
      n, err := ReadAt(result, offset);
      if err == Some(Panic) {
        return [], Some(Panic);
      }
      bytes := result[..n];
    }

    /** `WriteAt(p, off)`. */
    method WriteAt(p: seq<byte>, off: Int, os: Os) returns (n: int, err: Option<Error>)
      requires Valid() && |p| <= MaxInt
      modifies this
      ensures Valid() && args == old(args) && grow == old(grow)
      ensures WriteOutcome(State(), n, err) == Writer.WriteAt(grow, old(State()), p, off, os)
    {
      if closed {
        return 0, Some(ErrIsClosed);
      }
      var end := Wrap(off + |p|);
      err := EnsureCapacity(end, os);
      if err.Some? {
        return 0, err;
      }
      if !(0 <= off <= end <= |data|) {
        return 0, Some(Panic);
      }
      data := Overwrite(data, off, p);
      backing := Overwrite(backing, off, p);
      n := |p|;
    }

    /** `New(args)`: clean the arguments, build the buffer and open it with the
        initial size. A failed clean returns no buffer. A failed first open
        returns the buffer with its error; as written, that buffer is NOT
        marked closed, and its capacity is 0. */
    static method New(args: Args, temp: TempReply, stat: StatReply, backing: seq<byte>, os: Os)
      returns (m: Mmap?, err: Option<Error>)
      requires temp.TempCreated? ==> temp.name != ""
      requires |backing| <= MaxInt
      requires FileInputs(args.file, temp, stat, backing)
      modifies args
      ensures args.Snapshot() == Cleaned(old(args.Snapshot()), temp, stat).fields
      ensures Cleaned(old(args.Snapshot()), temp, stat).err.Some? ==>
        m == null && err == Cleaned(old(args.Snapshot()), temp, stat).err
      ensures Cleaned(old(args.Snapshot()), temp, stat).err.None? ==>
        && m != null && fresh(m) && m.Valid() && m.args == args && m.grow == DefaultGrowPolicy
        && Outcome(m.State(), err) == Lifecycle.Open(MapState([], false, backing), args.initLength, os)
      ensures m != null && err.Some? ==> !m.closed && m.data == []
      // the first mapping, when every call succeeds
      ensures Cleaned(old(args.Snapshot()), temp, stat).err.None? && os.open.Ok? && os.stat.Ok? && os.ftruncate.Ok? && os.mmap.Ok? ==>
        && m != null
        && (err.None? <==> 0 < args.initLength)
        && (err.None? ==>
              && !m.closed
              && m.backing == (if |backing| < args.initLength then Truncate(backing, args.initLength) else backing)
              && m.data == m.backing[..args.initLength])
      // a named file whose length is taken from it is mapped whole
      ensures old(args.file) != "" && old(args.initLength) <= 0 && stat.StatSize? && backing != [] && os == AllOk ==>
        m != null && err.None? && m.data == backing
      // a fresh temporary read-write file is 1 MiB of zeros
      ensures old(args.file) == "" && !old(args.readonly) && temp.TempCreated? && os == AllOk ==>
        m != null && err.None? && m.data == Zeros(DefaultInitLength)
    {
      err := args.Clean(temp, stat);
      if err.Some? {
        return null, err;
      }
      m := new Mmap(args, backing);
      err := m.OpenMapping(args.InitialSize(), os);
    }

    /** `New` as the tests expect it: a buffer whose first open failed is
        reported closed, so that every later operation returns `ErrIsClosed`
        instead of working on an empty mapping. */
    static method NewIntended(args: Args, temp: TempReply, stat: StatReply, backing: seq<byte>, os: Os)
      returns (m: Mmap?, err: Option<Error>)
      requires temp.TempCreated? ==> temp.name != ""
      requires |backing| <= MaxInt
      requires FileInputs(args.file, temp, stat, backing)
      modifies args
      ensures args.Snapshot() == Cleaned(old(args.Snapshot()), temp, stat).fields
      ensures Cleaned(old(args.Snapshot()), temp, stat).err.Some? ==>
        m == null && err == Cleaned(old(args.Snapshot()), temp, stat).err
      ensures old(args.file) != "" && old(args.initLength) <= 0 && stat.StatSize? && backing != [] && os == AllOk ==>
        m != null && !m.IsClosed() && m.data == backing
      ensures old(args.file) == "" && !old(args.readonly) && temp.TempCreated? && os == AllOk ==>
        m != null && !m.IsClosed() && m.data == Zeros(DefaultInitLength)
      ensures Cleaned(old(args.Snapshot()), temp, stat).err.None? ==>
        && m != null && fresh(m) && m.Valid() && m.args == args && m.grow == DefaultGrowPolicy
        && err == Lifecycle.Open(MapState([], false, backing), args.initLength, os).err
      ensures m != null ==> (m.IsClosed() <==> err.Some?)
      ensures m != null && err.None? ==> m.Cap() == args.initLength && m.data <= m.backing
    {
      m, err := New(args, temp, stat, backing, os);
      if m != null && err.Some? {
        m.closed := true;
      }
    }
  }
}
