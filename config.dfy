/** The configuration the buffer is opened from (args.go): the file, the
    initial length, and the protection and sharing of the mapping. */
module Config {
  import opened GoInt
  import opened Errors
  import Grower

  /** The initial length of a buffer over a fresh temporary file. */
  const DefaultInitLength: Int := Grower.OneMB

  // The values of the protection and sharing flags on Linux and Darwin.
  const ProtRead: Int := 0x1
  const ProtWrite: Int := 0x2
  /** `PROT_READ | PROT_WRITE`: the two bits together. */
  const ProtReadWrite: Int := 0x3
  const MapShared: Int := 0x1
  const MapPrivate: Int := 0x2

  /** The answer to `ioutil.TempFile("", "")`: the name of a new empty file,
      or an error. */
  datatype TempReply = TempCreated(name: string) | TempFailed(cause: OsError)

  /** The answer to `os.Stat(file)`: the file's size, or an error. */
  datatype StatReply = StatSize(size: Int) | StatFailed(cause: OsError)

  /** The four fields of `Args`, as a value. */
  datatype Fields = Fields(file: string, initLength: Int, readonly: bool, private: bool)

  datatype CleanOutcome = CleanOutcome(fields: Fields, err: Option<Error>)

  /** What `Args.Clean` does to the fields. Without a file name it creates a
      temporary file and takes its name; a read-write configuration then
      starts at `DefaultInitLength`. If the initial length is still not
      positive, it becomes the size of the file. Each of the two system calls
      can fail, and the failure is returned with the fields as they stand. */
  function Cleaned(a: Fields, temp: TempReply, stat: StatReply): (r: CleanOutcome)
    requires temp.TempCreated? ==> temp.name != ""
    ensures r.fields.readonly == a.readonly && r.fields.private == a.private
    ensures r.err.None? ==> r.fields.file != ""
    // a named file with a positive length is left alone
    ensures a.file != "" && a.initLength > 0 ==> r == CleanOutcome(a, None)
    // no temporary file: nothing changes
    ensures a.file == "" && temp.TempFailed? ==> r == CleanOutcome(a, Some(SysErr(temp.cause)))
    // a fresh read-write buffer: a temporary file of the default length
    ensures a.file == "" && temp.TempCreated? && !a.readonly ==>
      r == CleanOutcome(a.(file := temp.name, initLength := DefaultInitLength), None)
    // a read-only temporary file keeps a positive length
    ensures a.file == "" && temp.TempCreated? && a.readonly && a.initLength > 0 ==>
      r == CleanOutcome(a.(file := temp.name), None)
    // the length comes from the file's size
    ensures (a.file != "" || (temp.TempCreated? && a.readonly)) && a.initLength <= 0 ==>
      && r.fields.file == (if a.file == "" then temp.name else a.file)
      && r.err == (if stat.StatSize? then None else Some(SysErr(stat.cause)))
      && r.fields.initLength == (if stat.StatSize? then stat.size else a.initLength)
  {
    if a.file == "" && temp.TempFailed? then
      CleanOutcome(a, Some(SysErr(temp.cause)))
    else
      var named :=
        if a.file == "" then
          a.(file := temp.name, initLength := if !a.readonly then DefaultInitLength else a.initLength)
        else a;
      if named.initLength <= 0 then
        match stat
        case StatFailed(cause) => CleanOutcome(named, Some(SysErr(cause)))
        case StatSize(size) => CleanOutcome(named.(initLength := size), None)
      else
        CleanOutcome(named, None)
  }

  /** Go's `*Args`, which implements the buffer's `Opener`. */
  class Args {
    var file: string
    var initLength: Int
    var readonly: bool
    var private: bool

    function Snapshot(): Fields
      reads this
    {
      Fields(file, initLength, readonly, private)
    }

    /** `&Args{File: file, InitLength: initLength, ...}`. */
    constructor (file: string, initLength: Int, readonly: bool, private: bool)
      ensures Snapshot() == Fields(file, initLength, readonly, private)
    {
      this.file := file;
      this.initLength := initLength;
      this.readonly := readonly;
      this.private := private;
    }

    /** `NewReadOnly(file)`: a shared read-only mapping whose length is taken
        from the file. */
    constructor NewReadOnly(file: string)
      ensures Snapshot() == Fields(file, -1, true, false)
    {
      this.file := file;
      this.initLength := -1;
      this.readonly := true;
      this.private := false;
    }

    /** `NewReadWrite(file)`: a shared read-write mapping whose length is
        taken from the file, or 1 MiB for a fresh temporary file. */
    constructor NewReadWrite(file: string)
      ensures Snapshot() == Fields(file, -1, false, false)
    {
      this.file := file;
      this.initLength := -1;
      this.readonly := false;
      this.private := false;
    }

    /** `Args.Clean`, run by `New` before the first mapping. */
    method Clean(temp: TempReply, stat: StatReply) returns (err: Option<Error>)
      requires temp.TempCreated? ==> temp.name != ""
      modifies this
      ensures Snapshot() == Cleaned(old(Snapshot()), temp, stat).fields
      ensures err == Cleaned(old(Snapshot()), temp, stat).err
    {
      if file == "" {
        match temp {
          case TempFailed(cause) =>
            return Some(SysErr(cause));
          case TempCreated(name) =>
            file := name;
            if !readonly {
              initLength := DefaultInitLength;
            }
        }
      }
      if initLength <= 0 {
        match stat {
          case StatFailed(cause) =>
            return Some(SysErr(cause));
          case StatSize(size) =>
            initLength := size;
        }
      }
      return None;
    }

    /** The mapping always starts at the beginning of the file. */
    function Offset(): (offset: Int)
      ensures offset == 0
    {
      0
    }

    /** The length of the first mapping. */
    function InitialSize(): (size: Int)
      reads this
      ensures size == initLength
    {
      initLength
    }

    /** Read-only configurations map with `PROT_READ`, the others with
        `PROT_READ | PROT_WRITE`. */
    function Prot(): (prot: Int)
      reads this
      ensures (prot == ProtRead) == readonly
      ensures prot == ProtRead || prot == ProtReadWrite
    {
      if readonly then ProtRead else ProtReadWrite
    }

    /** Private configurations map with `MAP_PRIVATE`, the others with
        `MAP_SHARED`. */
    function Flags(): (flags: Int)
      reads this
      ensures (flags == MapPrivate) == private
      ensures flags == MapPrivate || flags == MapShared
    {
      if private then MapPrivate else MapShared
    }
  }

  /** `PROT_READ | PROT_WRITE` has exactly the two protection bits. */
  lemma ProtReadWriteBits()
    ensures ProtReadWrite == ProtRead + ProtWrite && And(ProtRead, ProtWrite) == 0
    ensures And(ProtReadWrite, ProtRead) == ProtRead
    ensures And(ProtReadWrite, ProtWrite) == ProtWrite
    ensures And(ProtRead, ProtWrite) == 0
  {
  }
}
