/**
 Sequential framing, independent of any record format: if one record can be read off the
 front of a file and every cut record is recognised as torn, then every prefix of a file of
 records reads as the records that lie wholly inside it.
 */
module Framing {
  import opened Bytes

  datatype Parsed<T> = Eof | Torn | Parsed(msg: T, size: nat)
  datatype End = CleanEnd | CorruptedTail

  function Concat<T>(enc: T -> seq<Byte>, xs: seq<T>): seq<Byte>
  {
    if xs == [] then [] else enc(xs[0]) + Concat(enc, xs[1..])
  }

  function Map<T, R>(f: T -> R, xs: seq<T>): (r: seq<R>)
    ensures |r| == |xs| && forall i :: 0 <= i < |xs| ==> r[i] == f(xs[i])
  {
    seq(|xs|, i requires 0 <= i < |xs| => f(xs[i]))
  }

  /** Reads records off the front of `b` until the reader stops. */
  function ReadAll<T>(parse: seq<Byte> -> Parsed<T>, b: seq<Byte>): (seq<T>, End)
    decreases |b|
  {
    match parse(b)
    case Eof => ([], CleanEnd)
    case Torn => ([], CorruptedTail)
    case Parsed(m, size) =>
      if 0 < size <= |b| then var rest := ReadAll(parse, b[size..]); ([m] + rest.0, rest.1)
      else ([], CorruptedTail)
  }

  /** What a record format must provide for the records accepted by `ok`. */
  ghost predicate Frames<T(!new), R(!new)>(enc: T -> seq<Byte>, parse: seq<Byte> -> Parsed<R>, strip: T -> R, ok: T -> bool)
  {
    && parse([]) == Eof
    && (forall m :: ok(m) ==> |enc(m)| > 0)
    && (forall m, rest {:trigger enc(m) + rest} :: ok(m) ==> parse(enc(m) + rest) == Parsed(strip(m), |enc(m)|))
    && (forall m, n {:trigger enc(m)[..n]} :: ok(m) && 0 < n < |enc(m)| ==> parse(enc(m)[..n]) == Torn)
  }

  /** Records 0..k lie wholly inside the first n bytes, and record k does not. */
  ghost predicate WhollyInside<T>(enc: T -> seq<Byte>, xs: seq<T>, n: nat, k: nat)
  {
    && k <= |xs|
    && |Concat(enc, xs[..k])| <= n <= |Concat(enc, xs)|
    && (k < |xs| ==> n < |Concat(enc, xs[..k + 1])|)
  }

  lemma {:induction false} ConcatAppend<T>(enc: T -> seq<Byte>, xs: seq<T>, ys: seq<T>)
    ensures Concat(enc, xs + ys) == Concat(enc, xs) + Concat(enc, ys)
  {
    if xs == [] {
      assert xs + ys == ys;
    } else {
      assert (xs + ys)[1..] == xs[1..] + ys;
      ConcatAppend(enc, xs[1..], ys);
    }
  }

  lemma {:induction false} ConcatSplit<T>(enc: T -> seq<Byte>, xs: seq<T>, k: nat)
    requires k <= |xs|
    ensures Concat(enc, xs) == Concat(enc, xs[..k]) + Concat(enc, xs[k..])
  {
    ConcatAppend(enc, xs[..k], xs[k..]);
    assert xs[..k] + xs[k..] == xs;
  }

  lemma {:induction false} ConcatStep<T>(enc: T -> seq<Byte>, xs: seq<T>, k: nat)
    requires 0 < k <= |xs|
    ensures Concat(enc, xs[..k]) == enc(xs[0]) + Concat(enc, xs[1..][..k - 1])
  {
    assert xs[..k][1..] == xs[1..][..k - 1];
  }

  /** Every cut point determines how many records are whole. */
  lemma {:induction false} WholeCountExists<T>(enc: T -> seq<Byte>, xs: seq<T>, n: nat) returns (k: nat)
    requires n <= |Concat(enc, xs)|
    ensures WhollyInside(enc, xs, n, k)
  {
    if xs == [] || n < |enc(xs[0])| {
      if xs != [] { ConcatStep(enc, xs, 1); }
      k := 0;
      assert xs[..0] == [];
    } else {
      var k' := WholeCountExists(enc, xs[1..], n - |enc(xs[0])|);
      k := k' + 1;
      ConcatStep(enc, xs, k);
      if k < |xs| { ConcatStep(enc, xs, k + 1); }
    }
  }

  lemma {:induction false} TornTail<T(!new), R(!new)>(
    enc: T -> seq<Byte>, parse: seq<Byte> -> Parsed<R>, strip: T -> R, ok: T -> bool,
    xs: seq<T>, n: nat, k: nat)
    requires Frames(enc, parse, strip, ok)
    requires forall i :: 0 <= i < |xs| ==> ok(xs[i])
    requires WhollyInside(enc, xs, n, k)
    ensures ReadAll(parse, Concat(enc, xs)[..n]) ==
            (Map(strip, xs[..k]), if n == |Concat(enc, xs[..k])| then CleanEnd else CorruptedTail)
    decreases |xs|
  {
    var b := Concat(enc, xs)[..n];
    if k == 0 {
      assert xs[..0] == [];
      if n > 0 {
        ConcatStep(enc, xs, 1);
        assert b == enc(xs[0])[..n];
      } else {
        assert b == [];
      }
    } else {
      ConcatStep(enc, xs, k);
      if k < |xs| { ConcatStep(enc, xs, k + 1); }
      var size := |enc(xs[0])|;
      var rest := Concat(enc, xs[1..])[..n - size];
      assert b == enc(xs[0]) + rest;
      assert b[size..] == rest;
      TornTail(enc, parse, strip, ok, xs[1..], n - size, k - 1);
      assert Map(strip, xs[..k]) == [strip(xs[0])] + Map(strip, xs[1..][..k - 1]);
    }
  }

  /** Whole records in front of something unreadable are read, and then the reader stops. */
  lemma {:induction false} ReadThenTorn<T(!new), R(!new)>(
    enc: T -> seq<Byte>, parse: seq<Byte> -> Parsed<R>, strip: T -> R, ok: T -> bool,
    xs: seq<T>, rest: seq<Byte>)
    requires Frames(enc, parse, strip, ok)
    requires forall i :: 0 <= i < |xs| ==> ok(xs[i])
    requires parse(rest) == Torn
    ensures ReadAll(parse, Concat(enc, xs) + rest) == (Map(strip, xs), CorruptedTail)
    decreases |xs|
  {
    if xs == [] {
      assert Concat(enc, xs) + rest == rest;
    } else {
      var size, b, tail := |enc(xs[0])|, Concat(enc, xs) + rest, Concat(enc, xs[1..]) + rest;
      assert b == enc(xs[0]) + tail && b[size..] == tail;
      ReadThenTorn(enc, parse, strip, ok, xs[1..], rest);
      assert Map(strip, xs) == [strip(xs[0])] + Map(strip, xs[1..]);
    }
  }

  lemma {:induction false} ConcatMiddle<T>(enc: T -> seq<Byte>, xs: seq<T>, j: nat, k: nat)
    requires j <= k <= |xs|
    ensures Concat(enc, xs[..k]) == Concat(enc, xs[..j]) + Concat(enc, xs[j..][..k - j])
  {
    ConcatAppend(enc, xs[..j], xs[j..][..k - j]);
    assert xs[..k] == xs[..j] + xs[j..][..k - j];
  }

  /** Seeking to a record boundary inside the prefix leaves the whole records after it. */
  lemma {:induction false} WhollyInsideAfter<T>(enc: T -> seq<Byte>, xs: seq<T>, n: nat, k: nat, j: nat)
    requires WhollyInside(enc, xs, n, k) && j <= k
    ensures |Concat(enc, xs[..j])| <= n
    ensures n - |Concat(enc, xs[..j])| <= |Concat(enc, xs[j..])|
    ensures Concat(enc, xs)[..n][|Concat(enc, xs[..j])|..] == Concat(enc, xs[j..])[..n - |Concat(enc, xs[..j])|]
    ensures WhollyInside(enc, xs[j..], n - |Concat(enc, xs[..j])|, k - j)
  {
    ConcatMiddle(enc, xs, j, k);
    if k < |xs| {
      ConcatMiddle(enc, xs, j, k + 1);
    }
    ConcatSplit(enc, xs, j);
  }

  lemma {:induction false} BoundaryBeyond<T>(enc: T -> seq<Byte>, xs: seq<T>, n: nat, k: nat, j: nat)
    requires WhollyInside(enc, xs, n, k) && k < j <= |xs|
    ensures n < |Concat(enc, xs[..j])|
  {
    ConcatMiddle(enc, xs, k + 1, j);
  }

  /** What a reader sees that seeks to the start of record j in a file cut after n bytes. */
  lemma {:induction false} ReadFromBoundary<T(!new), R(!new)>(
    enc: T -> seq<Byte>, parse: seq<Byte> -> Parsed<R>, strip: T -> R, ok: T -> bool,
    xs: seq<T>, n: nat, k: nat, j: nat)
    requires Frames(enc, parse, strip, ok)
    requires forall i :: 0 <= i < |xs| ==> ok(xs[i])
    requires WhollyInside(enc, xs, n, k) && j <= k
    ensures |Concat(enc, xs[..j])| <= n
    ensures ReadAll(parse, Concat(enc, xs)[..n][|Concat(enc, xs[..j])|..]).0 == Map(strip, xs[j..k])
  {
    WhollyInsideAfter(enc, xs, n, k, j);
    var ys, n' := xs[j..], n - |Concat(enc, xs[..j])|;
    TornTail(enc, parse, strip, ok, ys, n', k - j);
    assert ys[..k - j] == xs[j..k];
  }
}
