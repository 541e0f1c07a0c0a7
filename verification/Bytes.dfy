/** Memory as bytes, in the 32-bit little-endian layout the build selects. */
module Bytes {
  datatype Option<+T> = None | Some(value: T)

  type byte = x: int | 0 <= x < 0x100
  type u16 = x: int | 0 <= x < 0x1_0000
  type u32 = x: int | 0 <= x < 0x1_0000_0000

  const WORD := 0x1_0000_0000

  /** A 32-bit size rounded up to a multiple of 4; the largest sizes wrap around to 0. */
  function Align4(size: u32): (r: u32)
    ensures r % 4 == 0
    ensures size <= WORD - 4 ==> size <= r < size + 4
    ensures size > WORD - 4 ==> r == 0
  {
    (size + 3) % WORD / 4 * 4
  }

  function U16At(m: seq<byte>, i: nat): (n: u16)
    requires i + 2 <= |m|
  {
    (m[i] as int) + 0x100 * (m[i + 1] as int)
  }

  function U32At(m: seq<byte>, i: nat): (n: u32)
    requires i + 4 <= |m|
  {
    U16At(m, i) + 0x1_0000 * U16At(m, i + 2)
  }

  function U16Bytes(c: u16): (s: seq<byte>) { [c % 0x100, c / 0x100] }

  function U32Bytes(n: u32): (b: seq<byte>)
    ensures |b| == 4
  {
    U16Bytes(n % 0x1_0000) + U16Bytes(n / 0x1_0000)
  }

  /** The bytes of an array of 16-bit characters. */
  function CharBytes(s: seq<u16>): (b: seq<byte>)
    ensures |b| == 2 * |s|
  {
    seq(2 * |s|, k requires 0 <= k < 2 * |s| => if k % 2 == 0 then s[k / 2] % 0x100 else s[k / 2] / 0x100)
  }

  /** `n` 16-bit characters starting at byte `i`. */
  function Chars(m: seq<byte>, i: nat, n: nat): (s: seq<u16>)
    requires i + 2 * n <= |m|
    ensures |s| == n
  {
    seq(n, k requires 0 <= k < n => U16At(m, i + 2 * k))
  }

  /** `n` 32-bit words starting at byte `i`. */
  function Words(m: seq<byte>, i: nat, n: nat): (s: seq<u32>)
    requires i + 4 * n <= |m|
    ensures |s| == n
  {
    seq(n, k requires 0 <= k < n => U32At(m, i + 4 * k))
  }

  /** `m` with the bytes `b` stored from `i` on. */
  function Splice(m: seq<byte>, i: nat, b: seq<byte>): (t: seq<byte>)
    requires i + |b| <= |m|
    ensures |t| == |m|
  {
    m[..i] + b + m[i + |b|..]
  }

  lemma SpliceTwice(m: seq<byte>, i: nat, b: seq<byte>, c: seq<byte>)
    requires i + |b| + |c| <= |m|
    ensures Splice(Splice(m, i, b), i + |b|, c) == Splice(m, i, b + c)
  {
  }

  /** A word stored at `i` reads back, whatever surrounds it. */
  lemma U32Stored(m: seq<byte>, i: nat, n: u32)
    requires i + 4 <= |m| && m[i..i + 4] == U32Bytes(n)
    ensures U32At(m, i) == n
  {
  }

  /** A slice of a slice. */
  lemma SubSlice<T>(m: seq<T>, i: nat, k: nat, n: nat)
    requires i + k <= |m| && n <= k
    ensures m[i..i + k][..n] == m[i..i + n] && m[i..i + k][n..] == m[i + n..i + k]
    ensures m[i..i + k] == m[i..i + n] + m[i + n..i + k]
  {
  }

  /** A slice behind a place from which on two memories are the same. */
  lemma SameSlice(m: seq<byte>, m': seq<byte>, k: nat, i: nat, j: nat)
    requires k <= i <= j <= |m| == |m'| && m[k..] == m'[k..]
    ensures m[i..j] == m'[i..j]
  {
    assert m[k..][i - k..j - k] == m'[k..][i - k..j - k];
    assert forall x | 0 <= x < j - i :: m[k..][i - k..j - k][x] == m[i..j][x];
    assert forall x | 0 <= x < j - i :: m'[k..][i - k..j - k][x] == m'[i..j][x];
  }

  lemma WordsFrame(m: seq<byte>, m': seq<byte>, i: nat, n: nat)
    requires i + 4 * n <= |m| && i + 4 * n <= |m'| && m[i..i + 4 * n] == m'[i..i + 4 * n]
    ensures Words(m, i, n) == Words(m', i, n)
  {
  }

  lemma WordsPrefix(m: seq<byte>, m': seq<byte>, k: nat, i: nat, n: nat)
    requires i + 4 * n <= k <= |m| && k <= |m'| && m[..k] == m'[..k]
    ensures Words(m, i, n) == Words(m', i, n)
  {
  }

  lemma WordsAppend(m: seq<byte>, m': seq<byte>, i: nat, n: nat, w: u32)
    requires i + 4 * n + 4 <= |m| == |m'| && m[i..i + 4 * n] == m'[i..i + 4 * n]
    requires m'[i + 4 * n..i + 4 * n + 4] == U32Bytes(w)
    ensures Words(m', i, n + 1) == Words(m, i, n) + [w]
  {
    WordsFrame(m, m', i, n);
    U32Stored(m', i + 4 * n, w);
  }

  /** Characters stored at `i` read back, whatever surrounds them. */
  lemma CharsStored(m: seq<byte>, i: nat, s: seq<u16>)
    requires i + 2 * |s| <= |m| && m[i..i + 2 * |s|] == CharBytes(s)
    ensures Chars(m, i, |s|) == s
  {
  }
}
