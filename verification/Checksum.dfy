/**
 The CRC-32 of section 3.2.9 of IEEE 802.3 as `hash/crc32` computes it: reflected
 polynomial 0xEDB88320, register preset to ones and complemented at the end.
 */
module Checksum {
  import opened Bytes

  const POLYNOMIAL: bv32 := 0xEDB8_8320

  /** One bit of polynomial division. */
  function Shift(crc: bv32): bv32
  {
    if crc & 1 == 1 then (crc >> 1) ^ POLYNOMIAL else crc >> 1
  }

  function Step(crc: bv32, b: Byte): bv32
  {
    Shift4(Shift4(Xor(crc, Widen(Octet(b)))))
  }

  function Shift4(crc: bv32): bv32
  {
    Shift(Shift(Shift(Shift(crc))))
  }

  function Xor(x: bv32, y: bv32): bv32
  {
    x ^ y
  }

  function Octet(b: Byte): bv8
  {
    b as bv8
  }

  /** Go's uint32(b) for a byte. */
  function Widen(b: bv8): bv32
  {
    b as bv32
  }

  function Fold<R>(step: (R, Byte) -> R, state: R, s: seq<Byte>): R
    decreases s
  {
    if s == [] then state else Fold(step, step(state, s[0]), s[1..])
  }

  /** hasher.Write: folds more bytes into the running register. */
  function Write(crc: bv32, s: seq<Byte>): bv32
  {
    Fold(Step, crc, s)
  }

  /** hasher.Sum32 of a hasher that has seen exactly `s`. */
  function Crc32(s: seq<Byte>): (r: nat)
    ensures r < TWO_32
  {
    Finish(Write(0xFFFF_FFFF, s))
  }

  function Finish(crc: bv32): (r: nat)
    ensures r < TWO_32
  {
    Number(Xor(crc, 0xFFFF_FFFF))
  }

  function Number(x: bv32): (r: nat)
    ensures r < TWO_32
  {
    x as int
  }

  lemma {:induction false} FoldInPieces<R>(step: (R, Byte) -> R, state: R, s: seq<Byte>, t: seq<Byte>)
    ensures Fold(step, Fold(step, state, s), t) == Fold(step, state, s + t)
    decreases s
  {
    if s == [] {
      assert s + t == t;
    } else {
      assert (s + t)[1..] == s[1..] + t;
      FoldInPieces(step, step(state, s[0]), s[1..], t);
    }
  }

  /** Feeding a hasher in pieces is the same as feeding it the concatenation. */
  lemma {:induction false} WriteInPieces(crc: bv32, s: seq<Byte>, t: seq<Byte>)
    ensures Write(Write(crc, s), t) == Write(crc, s + t)
  {
    FoldInPieces(Step, crc, s, t);
  }

  /** The value published for this CRC of the nine digits "123456789". */
  lemma {:induction false} PublishedValue()
    ensures Crc32([0x31, 0x32, 0x33, 0x34, 0x35, 0x36, 0x37, 0x38, 0x39]) == 0xCBF4_3926
  {
    assert Step(0xFFFF_FFFF, 0x31) == 0x7C23_1048;
    assert Step(0x7C23_1048, 0x32) == 0xB0AC_BB32;
    assert Step(0xB0AC_BB32, 0x33) == 0x77B7_9C2D;
    assert Step(0x77B7_9C2D, 0x34) == 0x641C_1F5C;
    assert Step(0x641C_1F5C, 0x35) == 0x340A_C5E3;
    assert Step(0x340A_C5E3, 0x36) == 0xF68D_2C9E;
    assert Step(0xF68D_2C9E, 0x37) == 0xAFFC_9660;
    assert Step(0xAFFC_9660, 0x38) == 0x651F_2550;
    assert Step(0x651F_2550, 0x39) == 0x340B_C6D9;
  }

  // ---------- A changed byte changes the checksum ----------

  /** The polynomial's top bit tells which branch was taken, so a shift can be undone. */
  lemma {:induction false} ShiftInjective(x: bv32, y: bv32)
    requires Shift(x) == Shift(y)
    ensures x == y
  {
  }

  lemma {:induction false} Shift4Injective(x: bv32, y: bv32)
    requires Shift4(x) == Shift4(y)
    ensures x == y
  {
    hide Shift;
    ShiftInjective(Shift(Shift(Shift(x))), Shift(Shift(Shift(y))));
    ShiftInjective(Shift(Shift(x)), Shift(Shift(y)));
    ShiftInjective(Shift(x), Shift(y));
    ShiftInjective(x, y);
  }

  lemma {:induction false} XorUndone(x: bv32, a: bv32)
    ensures Xor(Xor(x, a), a) == x && Xor(Xor(x, a), x) == a
  {
  }

  lemma {:induction false} WidenInjective(a: bv8, b: bv8)
    requires Widen(a) == Widen(b)
    ensures a == b
  {
  }

  function OctetNumber(x: bv8): Byte
  {
    x as int
  }

  lemma {:induction false} OctetBack(x: bv8)
    ensures Octet(OctetNumber(x)) == x
  {
  }

  lemma {:induction false} OctetNext(x: bv8)
    requires OctetNumber(x) < 255
    ensures OctetNumber(x + 1) == OctetNumber(x) + 1
  {
  }

  lemma {:induction false} OctetZero()
    ensures OctetNumber(0) == 0
  {
  }

  /** Every byte is the number of an octet. */
  lemma {:induction false} SomeOctet(b: Byte) returns (x: bv8)
    ensures OctetNumber(x) == b
  {
    hide OctetNumber;
    if b == 0 {
      OctetZero();
      x := 0;
    } else {
      x := SomeOctet(b - 1);
      OctetNext(x);
      x := x + 1;
    }
  }

  lemma {:induction false} OctetInjective(a: Byte, b: Byte)
    requires Octet(a) == Octet(b)
    ensures a == b
  {
    hide Octet, OctetNumber;
    var x := SomeOctet(a);
    var y := SomeOctet(b);
    OctetBack(x);
    OctetBack(y);
  }

  /** One byte in: equal registers come from equal registers if the bytes are equal, and only then. */
  lemma {:induction false} StepInjective(x: bv32, a: Byte, y: bv32, b: Byte)
    requires Step(x, a) == Step(y, b)
    ensures x == y <==> a == b
  {
    hide Shift4, Xor, Widen, Octet;
    var c, d := Widen(Octet(a)), Widen(Octet(b));
    Shift4Injective(Shift4(Xor(x, c)), Shift4(Xor(y, d)));
    Shift4Injective(Xor(x, c), Xor(y, d));
    XorUndone(x, c);
    XorUndone(y, d);
    if c == d {
      WidenInjective(Octet(a), Octet(b));
      OctetInjective(a, b);
    }
  }

  lemma {:induction false} WriteInjective(x: bv32, y: bv32, s: seq<Byte>)
    requires Write(x, s) == Write(y, s)
    ensures x == y
    decreases s
  {
    hide Step;
    if s == [] {
    } else {
      WriteInjective(Step(x, s[0]), Step(y, s[0]), s[1..]);
      StepInjective(x, s[0], y, s[0]);
    }
  }

  lemma {:induction false} WriteOne(crc: bv32, b: Byte)
    ensures Write(crc, [b]) == Step(crc, b)
  {
    hide Step;
    assert [b][1..] == [] && Fold(Step, Step(crc, b), []) == Step(crc, b);
  }

  function Register(n: nat): bv32
    requires n < TWO_32
  {
    n as bv32
  }

  lemma {:induction false} NumberBack(x: bv32)
    ensures Register(Number(x)) == x
  {
  }

  lemma {:induction false} FinishInjective(x: bv32, y: bv32)
    requires Finish(x) == Finish(y)
    ensures x == y
  {
    hide Number, Register, Xor;
    NumberBack(Xor(x, 0xFFFF_FFFF));
    NumberBack(Xor(y, 0xFFFF_FFFF));
    XorUndone(x, 0xFFFF_FFFF);
    XorUndone(y, 0xFFFF_FFFF);
  }

  /** Changing any one byte changes the checksum. */
  lemma {:induction false} OneByteShows(s: seq<Byte>, i: nat, b: Byte)
    requires i < |s| && b != s[i]
    ensures Crc32(s[i := b]) != Crc32(s)
  {
    hide Step, Finish, Write;
    var p, t, init := s[..i], s[i + 1..], 0xFFFF_FFFF as bv32;
    assert s == p + [s[i]] + t && s[i := b] == p + [b] + t;
    var at := Write(init, p);
    WriteInPieces(init, p, [s[i]]);
    WriteInPieces(init, p, [b]);
    WriteInPieces(init, p + [s[i]], t);
    WriteInPieces(init, p + [b], t);
    WriteOne(at, s[i]);
    WriteOne(at, b);
    if Crc32(s[i := b]) == Crc32(s) {
      FinishInjective(Write(init, s[i := b]), Write(init, s));
      WriteInjective(Step(at, b), Step(at, s[i]), t);
      StepInjective(at, b, at, s[i]);
    }
  }
}
