# mmap: a growable, file-backed byte buffer, in Dafny

This project models the core of `github.com/ImSingee/mmap`. That library keeps
a byte buffer in a shared memory mapping of a file. The configuration
(`Args`) names the file, the first length of the mapping, and whether the
mapping is read-only or private. `New` cleans the configuration and maps the
file. `ReadAt`, `Bytes` and `WriteTo` read the mapping. `WriteAt` writes into
it and, when the write ends past the capacity, first grows the mapping. To
grow, it unmaps, extends the file with `ftruncate`, and maps it again at the
capacity the growth policy chooses. The default policy doubles the capacity
below 2 GiB, adds 1 GiB from there on, and rounds up to a whole number of MiB.

The modules:

- `GoInt` models Go's 64-bit `int`. The subset type `Int` holds its values,
  and `Wrap` makes wrap-around explicit. It also provides bitwise `&` and `^`
  on two's-complement integers.
- `Errors` holds the error values and the replies of operating-system calls.
  A Go panic is the explicit value `Panic`.
- `ByteSeq` models `make`, `copy` and `ftruncate` on byte sequences.
- `Grower` models `align`, `alignOneMB` and `DefaultGrowPolicy`. It proves:
  - the bit trick computes the least multiple at or above `n`;
  - the policy's result holds the requested size;
  - the range below `MaxGrowSize` is where nothing overflows.
- `Config` models the `Args` class, with `Clean` specified by the pure
  function `Cleaned`.
- `Lifecycle` is the state machine of mmap.go: `open`, `close`, `reOpen` and
  `EnsureCapacity`, as functions of `MapState`. This state holds the mapping,
  the closed flag and the file's bytes.
- `Reader` and `Writer` are `ReadAt`, `Bytes` and `WriteAt` as functions of
  that state. `RoundTrip` relates them: what is written reads back.
- `MmapBuffer.Mmap` is Go's `*Mmap` as a class. Each method changes the
  fields step by step and is proved to reach the state the matching function
  describes.
- `Scenarios` holds clients that follow the repository's tests. Each step's
  outcome is proved from the contracts.

The operating system is not called. Each method takes an `Os` record with the
reply of each system call it may make: `munmap`, opening the file, `fstat`,
`ftruncate` and `mmap`. The file's contents are the field `backing`. `New`
also takes the replies of `ioutil.TempFile` and `os.Stat`; `FileInputs` ties
them to the file: `os.Stat` reports the length of `backing`, and a newly
created temporary file is empty. A mapping of no
bytes or fewer is refused with EINVAL, as `unix.Mmap` does before making the
call. A failed
`unix.Mmap` leaves `m.data` nil, and `unix.Munmap` refuses an empty slice with
EINVAL. `munmap` does not reset `m.data`, so a
closed buffer still reports its old capacity.

## Model

| member | source | states |
|---|---|---|
| `GoInt.Wrap` | writer.go:12 | the 64-bit result is congruent to the exact one modulo 2^64 and equals it when it fits |
| `GoInt.Not` | grower.go:29 | `^a` shares no set bit with `a`, and `a + ^a == -1`, so every bit is flipped |
| `GoInt.AndBounds` | grower.go:29 | `&` with a non-negative operand is non-negative and no larger than it; `&` of two negative values is negative |
| `GoInt.AndClearLow` | grower.go:29 | for a power of two `m`, `x & -m` (that is, `x & ^(m-1)`) is `x` rounded down to a multiple of `m` |
| `Grower.Align` | grower.go:28-30 | for a power of two `m`: the 64-bit sum `n+m-1` rounded down to a multiple of `m`; without overflow, a multiple of `m` in `[n, n+m)` |
| `Grower.AlignOneMB` | grower.go:24-26 | a multiple of 1 MiB; below the overflow bound, the first one at or above `n` |
| `Grower.AlignIsLeastMultiple` | grower.go:28-30 | no multiple of `m` at or above `n` is smaller than `align(n, m)` |
| `Grower.AlignExact` | grower.go:28-30 | aligning a multiple leaves it unchanged |
| `Grower.AlignArithmetic` | grower.go:28-30 | the bit trick equals `((n+m-1)/m)*m` |
| `Grower.DefaultGrowPolicy` | grower.go:9-22 | always a multiple of 1 MiB; within `MaxGrowSize`, the first multiple at or above the larger of the proposal and `atLeast`, hence at least `atLeast` and above a positive `current` |
| `Grower.DefaultGrowPolicyDoubles` | grower.go:11-12 | below 2 GiB, when doubling suffices, the result is `2*current` rounded up to whole MiB |
| `Grower.DefaultGrowPolicyAddsOneGB` | grower.go:13-15 | from 2 GiB on, when adding 1 GiB suffices, the result is `current + 1 GiB` rounded up |
| `Grower.DefaultGrowPolicyRaises` | grower.go:17-19 | when `atLeast` exceeds the proposal, `atLeast` itself is rounded up |
| `Grower.DefaultGrowPolicySmall` | grower.go:9-22 | from at most 512 KiB, a request of at most 1 MiB grows to exactly 1 MiB |
| `Grower.DefaultGrowPolicyFromTwelve` | grower.go:9-22 | growing 12 bytes for 24 gives 1 MiB |
| `Grower.DefaultGrowPolicyWraps` | grower.go:21 | past the bound the rounding overflows: from `MaxInt - 1 GiB` for `MaxInt` the result is `MinInt` |
| `Grower.DefaultPolicyIsValid` | grower.go:9-22 | the default policy always returns a capacity that holds the requested size, within `MaxGrowSize` |
| `ByteSeq.Zeros` | reader.go:42 | `make([]byte, n)` is `n` zero bytes |
| `ByteSeq.Truncate` | mmap.go:51-56 | after `ftruncate` the file has exactly `n` bytes; kept bytes are unchanged, added bytes are zero |
| `ByteSeq.CopyInto` | reader.go:21 | `copy` fills the first `min` bytes from the source and leaves the rest of the destination |
| `ByteSeq.Overwrite` | writer.go:17 | `p` lands in the window at `off`, and every other byte keeps its value |
| `Config.Cleaned` | args.go:34-57 | flags unchanged; success implies a file name; a named file with a positive length is untouched; a failed `TempFile` changes nothing; a temporary read-write buffer gets 1 MiB; a temporary read-only one with a positive length keeps it; otherwise the length and the error follow `os.Stat` |
| `Config.Args.constructor` | args.go:22-27 | the four fields as given |
| `Config.Args.NewReadOnly` | args.go:91-98 | read-only, shared, length -1 |
| `Config.Args.NewReadWrite` | args.go:100-107 | read-write, shared, length -1 |
| `Config.Args.Clean` | args.go:34-57 | the new fields and the error are those of `Cleaned` |
| `Config.Args.Offset` | args.go:67-69 | the mapping starts at offset 0 |
| `Config.Args.InitialSize` | args.go:71-73 | the configured initial length |
| `Config.Args.Prot` | args.go:75-81 | `PROT_READ` exactly when read-only, else `PROT_READ` and `PROT_WRITE` together |
| `Config.Args.Flags` | args.go:83-89 | `MAP_PRIVATE` exactly when private, else `MAP_SHARED` |
| `Config.ProtReadWriteBits` | args.go:79 | the read-write protection is the sum of the two disjoint bits, hence their OR, and holds each of them |
| `Lifecycle.Open` | mmap.go:38-63 | succeeds exactly when every call does and `withCap > 0`; then the buffer is open with capacity `withCap` over the file's first bytes; each failing step returns its own error (open, stat and ftruncate changing nothing; a refused or failed mmap leaving no mapping); a failure keeps the closed flag; the file is extended with zeros to `withCap` exactly when it is shorter and open, stat and ftruncate succeed, even if the mmap then fails; consistency is kept |
| `Lifecycle.Close` | mmap.go:69-78 | always closed afterwards; a second close is a successful no-op; an empty mapping is refused with EINVAL; otherwise the error is `munmap`'s |
| `Lifecycle.ReOpen` | mmap.go:80-86 | a failed close is returned as it is; otherwise the outcome is the open's; a failure leaves the buffer closed; success gives capacity `newCap`; the file's old bytes survive |
| `Lifecycle.EnsureCapacity` | mmap.go:88-101 | closed: `ErrIsClosed`; size fits: no change; otherwise exactly the re-open at the policy's answer; every failure closes; old contents stay a prefix; after success the file is as long as the longer of itself and the mapping; under a valid policy the size fits afterwards |
| `Lifecycle.CloseIdempotent` | mmap.go:69-72 | closing twice equals closing once, and the second close succeeds |
| `Lifecycle.ReOpenAfterCloseFails` | mmap.go:80-86 | after a close, a re-open is just an open, and its failure leaves the buffer closed |
| `Lifecycle.EnsureCapacityIdempotent` | mmap.go:88-101 | a second growth for the same size changes nothing |
| `Reader.ReadAt` | reader.go:13-27 | closed: `ErrIsClosed`; `off > len(p)`: `io.EOF`, nothing copied; offset outside the data: panic; otherwise the bytes at `off` are copied, the rest of `p` is untouched, and `io.EOF` is reported exactly when the copy is short |
| `Reader.ReadAtIntended` | reader.go:13-27 | as `ReadAt`, but `io.EOF` exactly for offsets past the data, and a panic exactly for negative offsets |
| `Reader.ReadAtAgreesWithIntended` | reader.go:18-21 | where the written check lets the copy happen, both versions give the same result |
| `Reader.ReadAtRejectsOffsetPastBuffer` | reader.go:18-20 | reading 4 bytes at offset 8 of "Hello world!" returns nothing and `io.EOF`; the intended check returns "rld!" |
| `Reader.ReadAtPanicsPastData` | reader.go:18-21 | reading 128 bytes at offset 50 of "Hello world!" panics; the intended check reports `io.EOF` |
| `Reader.Bytes` | reader.go:37-46 | closed: `nil` and `ErrIsClosed`; a negative length panics; otherwise `ReadAt`'s bytes and error; where the copy happens, exactly the data at `offset`, short with `io.EOF` |
| `Writer.WriteAt` | writer.go:7-18 | success writes `p` at `off` in the mapping and the file and keeps every other byte; after success the file holds the mapping and then its own old bytes; failure writes nothing and `n == 0`; a failed `EnsureCapacity` makes the write fail with exactly its outcome, and a non-panic failure is always such a one and closes; after a successful growth the write succeeds exactly when `[off, off+len(p))` lies in the grown mapping and otherwise panics, writing nothing; no system call when the write fits; growth to the policy's answer; no panic under a valid policy within `MaxGrowSize` |
| `Writer.PolicyThatDoesNotGrowPanics` | writer.go:17 | a policy that keeps the capacity is not valid, and with it a write past the end remaps at the same size and then panics |
| `RoundTrip.WriteThenReadIntended` | writer.go:7-18 | with the intended check, a successful write reads back unchanged at any offset |
| `RoundTrip.WriteThenRead` | reader.go:18-21 | as written, a successful write reads back unchanged while `off <= len(p)` |
| `RoundTrip.WriteThenReadFailsPastLength` | reader.go:18-20 | as written, a write at an offset larger than its length reads back as nothing with `io.EOF` |
| `MmapBuffer.Mmap.constructor` | mmap.go:17-21 | the given arguments, the default policy, no mapping, not closed |
| `MmapBuffer.Mmap.Cap` | mmap.go:34-36 | the capacity is the mapping's length |
| `MmapBuffer.Mmap.IsClosed` | mmap.go:65-67 | the closed flag |
| `MmapBuffer.Mmap.ChangeGrowPolicy` | grower.go:32-34 | installs the policy and changes nothing else |
| `MmapBuffer.Mmap.OpenMapping` | mmap.go:38-63 | the new state and error are those of `Lifecycle.Open` |
| `MmapBuffer.Mmap.CloseMapping` | mmap.go:69-78 | the new state and error are those of `Lifecycle.Close` |
| `MmapBuffer.Mmap.ReOpen` | mmap.go:80-86 | the new state and error are those of `Lifecycle.ReOpen` |
| `MmapBuffer.Mmap.EnsureCapacity` | mmap.go:88-101 | the new state and error are those of `Lifecycle.EnsureCapacity` |
| `MmapBuffer.Mmap.Close` | mmap.go:103-105 | the new state and error are those of `Lifecycle.Close` |
| `MmapBuffer.Mmap.ReadAt` | reader.go:13-27 | the caller's array, `n` and the error are those of `Reader.ReadAt` |
| `MmapBuffer.Mmap.WriteTo` | reader.go:29-35 | closed: nothing sent and `ErrIsClosed`; otherwise the whole mapping is sent and its length returned |
| `MmapBuffer.Mmap.Bytes` | reader.go:37-46 | the bytes and the error are those of `Reader.Bytes` |
| `MmapBuffer.Mmap.WriteAt` | writer.go:7-18 | the new state, `n` and the error are those of `Writer.WriteAt` |
| `MmapBuffer.Mmap.New` | mmap.go:10-24 | a failed clean returns no buffer; otherwise a fresh buffer with the default policy whose state and error are those of opening with the cleaned length; a buffer whose open failed is left open with no capacity; when every call succeeds the first mapping is the file's first `initLength` bytes, extended with zeros if shorter: a named file whose length comes from `os.Stat` is mapped whole, and a fresh temporary read-write file as 1 MiB of zeros |
| `MmapBuffer.Mmap.NewIntended` | mmap.go:10-24 | as `New`, but a buffer is reported closed exactly when its first open failed; the same first mapping of a named file and of a temporary one |

## Left out

- Read-only and private mappings have their own meaning. The model records
  `Prot` and `Flags` but treats every mapping as shared and writable. A write
  to a read-only mapping, which faults in Go, is not modelled.
- `Args.Open`'s `O_CREATE` is not modelled as creating a file. The file's
  bytes are an input, and opening either succeeds or returns its error.
- Only the `*Args` configuration is modelled. Another `Opener`, with its own
  `Offset` and `Clean`, is not.
- `Copy`, `WriteToAt`, the `io.ReaderAt`/`io.WriterAt` assertions and
  `ErrOverflow` belong to files that are not part of this model.
- `io.Copy` and `bytes.Reader` are modelled as one `Write` of the whole
  mapping into a `Sink` that accepts every byte. Errors and short writes of
  the destination writer are not modelled.
- The deferred `f.Close()` and `_ = f.Close()` ignore their errors, so the
  model has no reply for them.
- Concurrency is not modelled. Neither are the validity of the memory after
  `munmap` nor the page granularity of `mmap`.
- `unix.Munmap` also refuses a slice whose length differs from its capacity.
  The mapping's length always equals its capacity, so only the empty-slice
  case is modelled.
- `Writer.WriteAt`: the no-panic guarantee is stated only for writes ending
  within `MaxGrowSize` under a valid policy. Beyond that the default policy's
  arithmetic wraps (see `Grower.DefaultGrowPolicyWraps`), and the model then
  reports a panic or a failed system call as the code would.
- `Lifecycle.EnsureCapacity`: the code does not check that an installed
  policy returns enough. Growth that covers the size is therefore stated only
  under `ValidPolicy`.

## Findings

| source | as written | input that shows it | evidently intended | confidence | as-written member | corrected member |
|---|---|---|---|---|---|---|
| reader.go:18-20 | `ReadAt` reports `io.EOF` when `off > len(p)`, comparing the offset with the caller's buffer instead of the data | "Hello world!" mapped, `ReadAt(make([]byte, 4), 8)` returns 0 and `io.EOF` although "rld!" is there; `ReadAt(make([]byte, 128), 50)` panics | `io.EOF` when `off` is past the end of the data (`off > Cap()`), which is what `io.ReaderAt` asks for | high, not executed | `Reader.ReadAt` (`Reader.ReadAtRejectsOffsetPastBuffer`, `RoundTrip.WriteThenReadFailsPastLength`) | `Reader.ReadAtIntended` (`RoundTrip.WriteThenReadIntended`) |
| mmap.go:17-23 | `New` builds the buffer with `closed == false` and returns it with the error of a failed first `open`, which never sets `closed` | `New(&Args{File: "/path/to/not-exist", InitLength: 1})` returns a buffer with `IsClosed() == false` and `Cap() == 0`; mmap_test.go:105-106 expects it closed | a buffer whose first open failed reports itself closed | high, not executed | `MmapBuffer.Mmap.New` (`Scenarios.MissingFile`) | `MmapBuffer.Mmap.NewIntended` |

The class `MmapBuffer.Mmap` keeps the as-written `ReadAt` and `New`, so that
its methods do what the code does. The corrected definitions stand beside
them with their intended properties proved: `RoundTrip.WriteThenReadIntended`
for the read check, and `Scenarios.MissingFile` for the closed flag.
