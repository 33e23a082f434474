/** Byte sequences and the two slice operations the buffer performs on them:
    Go's built-in `copy`, and extending a file with `ftruncate`. */
module ByteSeq {

  type byte = bv8

  function Min(a: int, b: int): int {
    if a <= b then a else b
  }

  function Max(a: int, b: int): int {
    if a <= b then b else a
  }

  /** `n` zero bytes, what `make([]byte, n)` allocates. */
  function Zeros(n: nat): (z: seq<byte>)
    ensures |z| == n
    ensures forall i | 0 <= i < n :: z[i] == 0
  {
    seq(n, _ => 0)
  }

  /** The file `f` after `ftruncate(fd, n)`: exactly `n` bytes long; the bytes
      it keeps are unchanged and the bytes it gains read as zero. */
  function Truncate(f: seq<byte>, n: nat): (g: seq<byte>)
    ensures |g| == n
    ensures forall i | 0 <= i < Min(|f|, n) :: g[i] == f[i]
    ensures forall i | |f| <= i < n :: g[i] == 0
  {
    if n <= |f| then f[..n] else f + Zeros(n - |f|)
  }

  /** `dst` after Go's `copy(dst, src)`: the first `Min(|dst|, |src|)` bytes come
      from `src`, the rest of `dst` is unchanged. */
  function CopyInto(dst: seq<byte>, src: seq<byte>): (r: seq<byte>)
    ensures |r| == |dst|
    ensures forall i | 0 <= i < Min(|dst|, |src|) :: r[i] == src[i]
    ensures forall i | Min(|dst|, |src|) <= i < |dst| :: r[i] == dst[i]
  {
    var k := Min(|dst|, |src|);
    src[..k] + dst[k..]
  }

  /** `s` after `copy(s[off:off+len(p)], p)`: `p` overwrites the window that
      starts at `off`, and every byte outside it keeps its value. */
  function Overwrite(s: seq<byte>, off: nat, p: seq<byte>): (r: seq<byte>)
    requires off + |p| <= |s|
    ensures |r| == |s|
    ensures r[off..off + |p|] == p
    ensures forall i | 0 <= i < |s| && !(off <= i < off + |p|) :: r[i] == s[i]
  {
    s[..off] + p + s[off + |p|..]
  }
}
