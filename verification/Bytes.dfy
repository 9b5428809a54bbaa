/**
 Bytes and Go's fixed-width little-endian integer encodings (`encoding/binary`).
 Sizes are explicit, and writing a number into too few bytes truncates it,
 exactly as `binary.LittleEndian.PutUint16(buf, uint16(n))` does.
 */
module Bytes {
  import opened Arithmetic

  type Byte = x: int | 0 <= x < 256

  const TWO_16 := 0x1_0000
  const TWO_32 := 0x1_0000_0000
  const TWO_63 := 0x8000_0000_0000_0000
  const TWO_64 := 0x1_0000_0000_0000_0000

  type U64 = x: int | 0 <= x < TWO_64
  type I64 = x: int | -TWO_63 <= x < TWO_63

  function Pow256(k: nat): (r: nat)
    ensures r > 0
  {
    if k == 0 then 1 else 256 * Pow256(k - 1)
  }

  lemma {:induction false} PowersOf256()
    ensures Pow256(2) == TWO_16 && Pow256(4) == TWO_32 && Pow256(8) == TWO_64
  {
    assert Pow256(1) == 256;
    assert Pow256(3) == 256 * Pow256(2);
    assert Pow256(5) == 256 * Pow256(4);
    assert Pow256(7) == 256 * Pow256(6);
  }

  /** The low `k` bytes of `n`, least significant first. */
  function ToLE(n: nat, k: nat): (s: seq<Byte>)
    ensures |s| == k
  {
    if k == 0 then [] else [n % 256] + ToLE(n / 256, k - 1)
  }

  function FromLE(s: seq<Byte>): (n: nat)
    ensures n < Pow256(|s|)
  {
    if s == [] then 0 else s[0] + 256 * FromLE(s[1..])
  }

  /** Byte i is the i-th digit to the base 256, counted from the least significant. */
  lemma {:induction false} ToLEAt(n: nat, k: nat, i: nat)
    requires i < k
    ensures ToLE(n, k)[i] == n / Pow256(i) % 256
  {
    if i == 0 {
    } else {
      ToLEAt(n / 256, k - 1, i - 1);
      DivTwice(n, 256, Pow256(i - 1));
    }
  }

  /** Writing then reading returns the number modulo the field width. */
  lemma {:induction false} FromToLE(n: nat, k: nat)
    ensures FromLE(ToLE(n, k)) == n % Pow256(k)
  {
    if k == 0 {
    } else {
      FromToLE(n / 256, k - 1);
      assert ToLE(n, k)[1..] == ToLE(n / 256, k - 1);
      ModSplit(n, 256, Pow256(k - 1));
    }
  }

  lemma {:induction false} FromLEInjective(s: seq<Byte>, t: seq<Byte>)
    requires |s| == |t| && FromLE(s) == FromLE(t)
    ensures s == t
  {
    if s == [] {
    } else {
      FromLEInjective(s[1..], t[1..]);
      assert s == [s[0]] + s[1..] && t == [t[0]] + t[1..];
    }
  }

  lemma {:induction false} FromToLEExact(n: nat, k: nat)
    requires n < Pow256(k)
    ensures FromLE(ToLE(n, k)) == n
  {
    FromToLE(n, k);
    QuotientUnique(n, Pow256(k), 0, n);
  }

  /** Go's uint64(x) and int64(x) conversions. */
  function Unsigned(x: I64): (u: U64)
    ensures u == x || u == x + TWO_64
  {
    if x < 0 then x + TWO_64 else x
  }

  function Signed(u: U64): (x: I64)
    ensures Unsigned(x) == u
  {
    if u < TWO_63 then u else u - TWO_64
  }

  /** binary.LittleEndian.PutUintN: writes `k` bytes at `off`, in place. */
  method PutLE(a: array<Byte>, off: nat, k: nat, n: nat)
    requires off + k <= a.Length
    modifies a
    ensures a[..] == old(a[..off]) + ToLE(n, k) + old(a[off + k..])
  {
    var i, v := 0, n;
    assert ToLE(n, k)[0..] == ToLE(n, k);
    while i < k
      invariant 0 <= i <= k && v >= 0
      invariant ToLE(n, k)[i..] == ToLE(v, k - i)
      invariant forall j :: 0 <= j < i ==> a[off + j] == ToLE(n, k)[j]
      invariant forall j :: 0 <= j < a.Length && !(off <= j < off + i) ==> a[j] == old(a[j])
    {
      assert ToLE(v, k - i) == [v % 256] + ToLE(v / 256, k - i - 1);
      assert ToLE(n, k)[i] == ToLE(n, k)[i..][0];
      assert ToLE(n, k)[i + 1..] == ToLE(n, k)[i..][1..];
      a[off + i] := v % 256;
      i, v := i + 1, v / 256;
    }
  }

  /** copy(a[off:], s) for a source that fits. */
  method PutBytes(a: array<Byte>, off: nat, s: seq<Byte>)
    requires off + |s| <= a.Length
    modifies a
    ensures a[..] == old(a[..off]) + s + old(a[off + |s|..])
  {
    forall i | 0 <= i < |s| {
      a[off + i] := s[i];
    }
  }
}
