/** Clients of the buffer that follow the repository's tests step by step,
    with the outcome of each step proved from the contracts alone. */
module Scenarios {
  import opened GoInt
  import opened Errors
  import opened ByteSeq
  import opened Grower
  import opened Config
  import opened Lifecycle
  import opened Reader
  import opened MmapBuffer

  /** Writing "Hello world!" at offset 12 of the 12-byte buffer over the
      same text: 1 MiB holding the text twice, then zeros, in the mapping and
      in the file. */
  lemma WriteAfterHello()
    ensures
      var r := Writer.WriteAt(DefaultGrowPolicy, MapState(Hello, false, Hello), Hello, 12, AllOk);
      && r.n == 12 && r.err == None
      && r.state.data == r.state.backing == Hello + Hello + Zeros(OneMB - 24)
  {
    var s := MapState(Hello, false, Hello);
    var file := Hello + Zeros(OneMB - 12);
    DefaultGrowPolicyFromTwelve();
    assert Truncate(Hello, OneMB) == file;
    assert EnsureCapacity(DefaultGrowPolicy, s, 24, AllOk) == Outcome(MapState(file, false, file), None);
    var t := Overwrite(file, 12, Hello);
    assert t == Hello + Hello + Zeros(OneMB - 24) by {
      assert file[..12] == Hello;
      assert file[24..] == Zeros(OneMB - 24);
    }
  }

  /** A read-write buffer over a file holding "Hello world!" starts with the
      file's 12 bytes; writing the same 12 bytes at offset 12 grows it to 1 MiB
      and leaves both copies, then zeros, in the mapping and in the file. */
  method GrowOnWrite() returns (m: Mmap?)
  {
    var args := new Args.NewReadWrite("hello.txt");
    var err;
    m, err := Mmap.New(args, TempFailed(OtherOsError(0)), StatSize(12), Hello, AllOk);
    assert err == None && m != null;
    assert m.Cap() == 12 && m.State() == MapState(Hello, false, Hello);
    var n;
    WriteAfterHello();
    n, err := m.WriteAt(Hello, 12, AllOk);
    assert n == 12 && err == None;
    assert m.Cap() == OneMB;
    assert m.data == m.backing == Hello + Hello + Zeros(OneMB - 24);
  }

  /** Without a file name a read-write buffer maps a fresh temporary file of
      1 MiB of zeros; a write at offset 8 fits and does not grow it. */
  method TemporaryFile() returns (m: Mmap?)
  {
    var args := new Args.NewReadWrite("");
    var err;
    m, err := Mmap.New(args, TempCreated("tmp123"), StatFailed(NotExist), [], AllOk);
    assert args.file == "tmp123" && args.initLength == DefaultInitLength;
    assert err == None && m != null;
    assert m.Cap() == DefaultInitLength && m.data == Zeros(DefaultInitLength);
    var n;
    n, err := m.WriteAt(Hello, 8, Os(Fail(Invalid), Fail(Invalid), Fail(Invalid), Fail(Invalid), Fail(Invalid)));
    assert n == 12 && err == None;
    assert m.Cap() == DefaultInitLength;
    assert m.data[8..20] == Hello;
    assert forall i | 0 <= i < DefaultInitLength && !(8 <= i < 20) :: m.data[i] == 0;
  }

  /** A file that does not exist: `New` returns the buffer with the error.
      As written the buffer is not marked closed and has no capacity, and
      closing it fails with EINVAL; the intended constructor marks it closed. */
  method MissingFile() {
    var notExist := AllOk.(open := Fail(NotExist));
    var args := new Args("/path/to/not-exist", 1, true, false);
    var m, err := Mmap.New(args, TempFailed(OtherOsError(0)), StatFailed(NotExist), [], notExist);
    assert err == Some(SysErr(NotExist)) && m != null;
    assert !m.IsClosed() && m.Cap() == 0;
    // closing that buffer hands `unix.Munmap` an empty slice, refused with EINVAL
    var closeErr := m.Close(AllOk);
    assert closeErr == Some(SysErr(Invalid)) && m.IsClosed();

    var args2 := new Args("/path/to/not-exist", 1, false, false);
    var m2, err2 := Mmap.NewIntended(args2, TempFailed(OtherOsError(0)), StatFailed(NotExist), [], notExist);
    assert err2 == Some(SysErr(NotExist)) && m2 != null;
    assert m2.IsClosed();
  }

  /** After `Close` every operation reports `ErrIsClosed` and returns
      nothing; a second `Close` succeeds. */
  method AfterClose() {
    var args := new Args.NewReadWrite("hello.txt");
    var m, err := Mmap.New(args, TempFailed(OtherOsError(0)), StatSize(12), Hello, AllOk);
    assert m != null;
    err := m.Close(AllOk);
    assert err == None && m.IsClosed();

    var p := new byte[0];
    var n;
    n, err := m.ReadAt(p, 1);
    assert n == 0 && err == Some(ErrIsClosed);

    var bytes;
    bytes, err := m.Bytes(0, 3);
    assert bytes == [] && err == Some(ErrIsClosed);

    var sink := new Sink();
    var sent;
    sent, err := m.WriteTo(sink);
    assert sent == 0 && err == Some(ErrIsClosed) && sink.received == [];

    n, err := m.WriteAt([6], 1, AllOk);
    assert n == 0 && err == Some(ErrIsClosed);
    n, err := m.WriteAt([6], 1024, AllOk);
    assert n == 0 && err == Some(ErrIsClosed);

    err := m.Close(AllOk);
    assert err == None;
  }

  /** A growth whose re-open fails leaves the buffer closed, with nothing
      written. */
  method FailedGrowth() {
    var args := new Args.NewReadWrite("hello.txt");
    var m, err := Mmap.New(args, TempFailed(OtherOsError(0)), StatSize(12), Hello, AllOk);
    assert m != null && m.Cap() == 12;
    var n;
    n, err := m.WriteAt(Hello, 12, AllOk.(open := Fail(NotExist)));
    assert n == 0 && err == Some(SysErr(NotExist));
    assert m.IsClosed() && m.backing == Hello;
  }

  /** Reading back: the six bytes at offset 6 of "Hello world!" are
      "world!", and a read that runs past the end is short and reports
      `io.EOF`. As written, asking for the five bytes "world" at offset 6
      returns nothing and `io.EOF`, because the offset exceeds the length
      asked for. */
  method ReadBack() {
    var args := new Args.NewReadOnly("hello.txt");
    var m, err := Mmap.New(args, TempFailed(OtherOsError(0)), StatSize(12), Hello, AllOk);
    assert m != null && m.Cap() == 12;
    var bytes;
    bytes, err := m.Bytes(6, 6);
    assert bytes == Hello[6..] && err == None;
    bytes, err := m.Bytes(6, 5);
    assert bytes == [] && err == Some(EOF);
    bytes, err := m.Bytes(6, 10);
    assert bytes == Hello[6..] && err == Some(EOF);
    var sink := new Sink();
    var sent;
    sent, err := m.WriteTo(sink);
    assert sent == 12 && err == None && sink.received == Hello;
  }
}
