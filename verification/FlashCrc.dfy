// Words as a checksum's register holds them, under exclusive or.
module CrcWords {
  import opened Wrappers

  function Xor(a: bv32, b: bv32): bv32
  {
    a ^ b
  }

  function Shl8(d: bv32): bv32
  {
    d << 8
  }

  predicate IsByte(c: bv32)
  {
    c < 0x100
  }

  /** What `k` bytes can have changed, up to three. */
  function Reach(k: nat): bv32
    requires k <= 3
  {
    if k == 0 then 1 else if k == 1 then 0x100 else if k == 2 then 0x1_0000 else 0x100_0000
  }

  /** A difference `k` bytes can have made. */
  predicate Within(d: bv32, k: nat)
  {
    k <= 3 ==> d < Reach(k)
  }

  /** Two running checksums that differ so. */
  predicate Near(s: bv32, t: bv32, k: nat)
  {
    Within(Xor(s, t), k)
  }

  lemma XorAssociative(x: bv32, y: bv32, z: bv32)
    ensures Xor(Xor(x, y), z) == Xor(x, Xor(y, z))
  {
  }

  lemma XorCommutative(x: bv32, y: bv32)
    ensures Xor(x, y) == Xor(y, x)
  {
  }

  lemma XorNil(x: bv32)
    ensures Xor(x, x) == 0 && Xor(x, 0) == x
  {
  }

  lemma OneMoreByte(d: bv32, c: bv32, k: nat)
    requires k <= 3 && Within(d, k) && IsByte(c)
    ensures Within(Xor(Shl8(d), c), k + 1)
  {
  }

  lemma NoByte(d: bv32, c: bv32, k: nat)
    requires k <= 3 && Within(d, k) && IsByte(c) && Xor(Shl8(d), c) == 0
    ensures c == 0
  {
  }

  lemma XorBytes(a: bv32, b: bv32)
    requires IsByte(a) && IsByte(b)
    ensures IsByte(Xor(a, b))
  {
  }

  lemma WithinNone(d: bv32)
    ensures Within(d, 0) <==> d == 0
  {
  }

  lemma XorNone(s: bv32, t: bv32)
    requires Xor(s, t) == 0
    ensures s == t
  {
  }

  lemma NearNone(s: bv32, t: bv32)
    ensures Near(s, t, 0) <==> s == t
  {
    WithinNone(Xor(s, t));
    if s == t {
      XorNil(s);
    } else if Xor(s, t) == 0 {
      XorNone(s, t);
    }
  }

  lemma Increment(x: bv32)
    requires x < 0x100
    ensures (x + 1) as int == x as int + 1
  {
  }

  lemma SmallInt(x: bv32)
    requires x as int < 256
    ensures x < 0x100
  {
  }

  lemma IntBack(a: bv32)
    ensures (a as int) as bv32 == a
  {
  }

  /** The word a byte is. */
  ghost function WordOf(b: Byte): (x: bv32)
    ensures x as int == b
  {
    if b == 0 then 0
    else
      SmallInt(WordOf(b - 1));
      Increment(WordOf(b - 1));
      WordOf(b - 1) + 1
  }

  lemma ByteBits(a: Byte, b: Byte)
    requires a as bv32 == b as bv32
    ensures a == b
  {
    IntBack(WordOf(a));
    IntBack(WordOf(b));
  }

  lemma SmallByte(b: Byte)
    ensures IsByte(b as bv32)
  {
  }
}

// What the checksum of a flash page detects (libs/wayfinder-storage/src/flash.rs,
// `Crc32`): payloads that differ within four bytes never share one.
module FlashCrc {
  import opened CrcWords
  import opened FlashPage
  import opened FlashStore
  import opened Wrappers

  // ------------------------------------------------------------ iterated steps

  lemma {:induction false} IterateLinear<T(!new)>(step: T -> T, op: (T, T) -> T, a: T, b: T, n: nat)
    requires forall x, y :: step(op(x, y)) == op(step(x), step(y))
    ensures Iterate(step, op(a, b), n) == op(Iterate(step, a, n), Iterate(step, b, n))
    decreases n
  {
    if n > 0 {
      IterateLinear(step, op, step(a), step(b), n - 1);
    }
  }

  lemma {:induction false} IterateInjective<T(!new)>(step: T -> T, a: T, b: T, n: nat)
    requires forall x, y :: step(x) == step(y) ==> x == y
    requires Iterate(step, a, n) == Iterate(step, b, n)
    ensures a == b
    decreases n
  {
    if n > 0 {
      IterateInjective(step, step(a), step(b), n - 1);
    }
  }

  // ----------------------------------------------------------------- one bit

  lemma ShiftXor(a: bv32, b: bv32)
    ensures (a ^ b) >> 1 == (a >> 1) ^ (b >> 1)
    ensures (a ^ b) & 1 == (a & 1) ^ (b & 1)
  {
  }

  lemma LowBit(a: bv32)
    ensures a & 1 == 0 || a & 1 == 1
  {
  }

  lemma XorMoves(a: bv32, b: bv32, c: bv32)
    ensures a ^ b ^ c == (a ^ c) ^ b && (a ^ c) ^ (b ^ c) == a ^ b
  {
  }

  lemma BitLinear(a: bv32, b: bv32)
    ensures CrcBit(Xor(a, b)) == Xor(CrcBit(a), CrcBit(b))
  {
    ShiftXor(a, b);
    LowBit(a);
    LowBit(b);
    XorMoves(a >> 1, b >> 1, 0xEDB8_8320);
    XorMoves(b >> 1, a >> 1, 0xEDB8_8320);
  }

  lemma BitInjective(a: bv32, b: bv32)
    requires CrcBit(a) == CrcBit(b)
    ensures a == b
  {
  }

  // ---------------------------------------------------------------- one byte

  function Bits8(s: bv32): bv32
  {
    CrcBits(s, 8)
  }

  lemma BitsLinear(a: bv32, b: bv32)
    ensures Bits8(Xor(a, b)) == Xor(Bits8(a), Bits8(b))
  {
    forall x, y ensures CrcBit(Xor(x, y)) == Xor(CrcBit(x), CrcBit(y)) {
      BitLinear(x, y);
    }
    IterateLinear(CrcBit, Xor, a, b, 8);
  }

  lemma BitsInjective(a: bv32, b: bv32)
    requires Bits8(a) == Bits8(b)
    ensures a == b
  {
    forall x, y | CrcBit(x) == CrcBit(y) ensures x == y {
      BitInjective(x, y);
    }
    IterateInjective(CrcBit, a, b, 8);
  }

  lemma EightBits(s: bv32)
    ensures CrcBits(s, 8) == CrcBit(CrcBit(CrcBit(CrcBit(CrcBit(CrcBit(CrcBit(CrcBit(s))))))))
  {
    assert CrcBits(s, 8) == CrcBits(CrcBit(CrcBit(CrcBit(CrcBit(s)))), 4);
  }

  /** Bits that have not reached the bottom are only moved. */
  lemma ShiftedOut(d: bv32)
    requires Within(d, 3)
    ensures Bits8(Shl8(d)) == d
  {
    EightBits(d << 8);
  }

  lemma WithinMore(d: bv32, k: nat)
    requires k <= 3 && Within(d, k)
    ensures Within(d, 3)
  {
  }

  /** Words under exclusive or. */
  ghost predicate Group<W(!new)>(xor: (W, W) -> W, zero: W)
  {
    && (forall x, y, z :: xor(xor(x, y), z) == xor(x, xor(y, z)))
    && (forall x, y :: xor(x, y) == xor(y, x))
    && (forall x :: xor(x, x) == zero && xor(x, zero) == x)
  }

  lemma CrcGroup()
    ensures Group(Xor, 0)
  {
    forall x, y, z ensures Xor(Xor(x, y), z) == Xor(x, Xor(y, z)) {
      XorAssociative(x, y, z);
    }
    forall x, y ensures Xor(x, y) == Xor(y, x) {
      XorCommutative(x, y);
    }
    forall x ensures Xor(x, x) == 0 && Xor(x, 0) == x {
      XorNil(x);
    }
  }

  /** A byte on either side of a difference can be taken out of it. */
  lemma Regroup<W(!new)>(xor: (W, W) -> W, zero: W, s: W, t: W, a: W, b: W)
    requires Group(xor, zero)
    ensures xor(s, t) == xor(xor(xor(s, a), xor(t, b)), xor(a, b))
    ensures xor(a, b) == zero ==> a == b
  {
    var x, y, c := xor(s, a), xor(t, b), xor(a, b);
    assert xor(x, y) == xor(s, xor(a, xor(t, b)));
    assert xor(a, xor(t, b)) == xor(t, c);
    assert xor(x, y) == xor(xor(s, t), c);
    assert xor(xor(xor(s, t), c), c) == xor(s, t);
    assert xor(xor(a, b), b) == a && xor(zero, b) == b;
  }

  /** How two running checksums differed eight bits earlier. */
  lemma EightBack(x: bv32, y: bv32, d: bv32)
    requires d == Xor(Bits8(x), Bits8(y)) && Within(d, 3)
    ensures Xor(x, y) == Shl8(d)
  {
    BitsLinear(x, y);
    ShiftedOut(d);
    BitsInjective(Xor(x, y), Shl8(d));
  }

  lemma LargerByOne(d: bv32, a: bv32, b: bv32, k: nat)
    requires k <= 3 && Within(d, k) && IsByte(a) && IsByte(b)
    ensures Within(Xor(Shl8(d), Xor(a, b)), k + 1) && (Xor(Shl8(d), Xor(a, b)) == 0 ==> Xor(a, b) == 0)
  {
    XorBytes(a, b);
    OneMoreByte(d, Xor(a, b), k);
    if Xor(Shl8(d), Xor(a, b)) == 0 {
      NoByte(d, Xor(a, b), k);
    }
  }

  /** One byte back: `w` is the difference of two words, `u` that of what bytes made of
      them, and `c` that of the bytes. */
  lemma StepBack(w: bv32, u: bv32, e: bv32, c: bv32, k: nat)
    requires w == Xor(u, c) && u == e && Within(Xor(e, c), k) && (Xor(e, c) == 0 ==> c == 0)
    ensures Within(w, k) && (w == 0 ==> c == 0)
  {
  }

  // ------------------------------------------------------------- four bytes

  lemma FirstByte<T>(step: (T, Byte) -> T, s: T, d: seq<Byte>)
    requires d != []
    ensures Fold(step, s, d) == Fold(step, step(s, d[0]), d[1..])
  {
    assert d == [d[0]] + d[1..];
    FoldInPieces(step, s, [d[0]], d[1..]);
    assert [d[0]][..0] == [];
    assert Fold(step, s, [d[0]]) == step(Fold(step, s, []), d[0]);
  }

  /** `step` pulls states apart: what brings two together within `k` more bytes lies
      within `k + 1` of them, and equal states are brought together by equal bytes. */
  ghost predicate Separates<T(!new)>(step: (T, Byte) -> T, near: (T, T, nat) -> bool)
  {
    && (forall s, t :: near(s, t, 0) <==> s == t)
    && forall s, t, a, b, k: nat :: k <= 3 && near(step(s, a), step(t, b), k) ==>
         near(s, t, k + 1) && (s == t ==> a == b && step(s, a) == step(t, b))
  }

  /** Up to four bytes that bring two states together: these were no further apart than
      the bytes, and if they were equal the bytes are. */
  lemma {:induction false} WindowInjective<T(!new)>(step: (T, Byte) -> T, near: (T, T, nat) -> bool, s: T, t: T,
                                                    d: seq<Byte>, e: seq<Byte>)
    requires Separates(step, near) && |d| == |e| <= 4 && Fold(step, s, d) == Fold(step, t, e)
    ensures near(s, t, |d|)
    ensures s == t ==> d == e
    decreases |d|
  {
    if d != [] {
      FirstByte(step, s, d);
      FirstByte(step, t, e);
      WindowInjective(step, near, step(s, d[0]), step(t, e[0]), d[1..], e[1..]);
      assert near(step(s, d[0]), step(t, e[0]), |d| - 1);
      if s == t {
        assert d == [d[0]] + d[1..] && e == [e[0]] + e[1..];
      }
    }
  }

  lemma CrcSeparates()
    ensures Separates(CrcByte, Near)
  {
    forall s, t ensures Near(s, t, 0) <==> s == t {
      NearNone(s, t);
    }
    forall s, t, a, b, k: nat | k <= 3 && Near(CrcByte(s, a), CrcByte(t, b), k)
      ensures Near(s, t, k + 1) && (s == t ==> a == b && CrcByte(s, a) == CrcByte(t, b))
    {
      FirstOfWindow(s, t, a, b, k);
    }
  }

  lemma FirstOfWindow(s: bv32, t: bv32, a: Byte, b: Byte, k: nat)
    requires k <= 3 && Near(CrcByte(s, a), CrcByte(t, b), k)
    ensures Near(s, t, k + 1) && (s == t ==> a == b && CrcByte(s, a) == CrcByte(t, b))
  {
    SmallByte(a);
    SmallByte(b);
    NearBack(s, t, a as bv32, b as bv32, k);
    if s == t {
      ByteBits(a, b);
    }
  }

  lemma Regrouped(s: bv32, t: bv32, a: bv32, b: bv32)
    ensures Xor(s, t) == Xor(Xor(Xor(s, a), Xor(t, b)), Xor(a, b)) && (Xor(a, b) == 0 ==> a == b)
  {
    CrcGroup();
    Regroup(Xor, 0, s, t, a, b);
  }

  lemma FirstBits(s: bv32, t: bv32, a: bv32, b: bv32, p: bv32, q: bv32, k: nat)
    requires Xor(Xor(s, a), Xor(t, b)) == Shl8(Xor(p, q))
    requires k <= 3 && Near(p, q, k) && IsByte(a) && IsByte(b)
    ensures Near(s, t, k + 1) && (s == t ==> a == b)
  {
    LargerByOne(Xor(p, q), a, b, k);
    Regrouped(s, t, a, b);
    XorNil(s);
    StepBack(Xor(s, t), Xor(Xor(s, a), Xor(t, b)), Shl8(Xor(p, q)), Xor(a, b), k + 1);
  }

  lemma NearBack(s: bv32, t: bv32, a: bv32, b: bv32, k: nat)
    requires k <= 3 && Near(Bits8(Xor(s, a)), Bits8(Xor(t, b)), k) && IsByte(a) && IsByte(b)
    ensures Near(s, t, k + 1) && (s == t ==> a == b)
  {
    var p, q := Bits8(Xor(s, a)), Bits8(Xor(t, b));
    WithinMore(Xor(p, q), k);
    EightBack(Xor(s, a), Xor(t, b), Xor(p, q));
    FirstBits(s, t, a, b, p, q, k);
  }

  /** The state before can be told from the one after the same bytes. */
  lemma {:induction false} FoldInjective<T(!new)>(step: (T, Byte) -> T, s: T, t: T, d: seq<Byte>)
    requires Injective(step) && Fold(step, s, d) == Fold(step, t, d)
    ensures s == t
    decreases |d|
  {
    if d != [] {
      FoldInjective(step, s, t, d[..|d| - 1]);
    }
  }

  lemma StepInjective(x: bv32, y: bv32, b: bv32)
    requires Bits8(Xor(x, b)) == Bits8(Xor(y, b))
    ensures x == y
  {
    BitsInjective(Xor(x, b), Xor(y, b));
    XorOut(x, y, b);
  }

  lemma XorOut(x: bv32, y: bv32, b: bv32)
    requires Xor(x, b) == Xor(y, b)
    ensures x == y
  {
  }

  ghost predicate Injective<T(!new)>(step: (T, Byte) -> T)
  {
    forall x, y, b :: step(x, b) == step(y, b) ==> x == y
  }

  lemma CrcInjective()
    ensures Injective(CrcByte)
  {
    forall x, y, b | CrcByte(x, b) == CrcByte(y, b) ensures x == y {
      StepInjective(x, y, b as bv32);
    }
  }

  /** Different windows leave different states, whatever follows. */
  lemma WindowTells<T(!new)>(step: (T, Byte) -> T, near: (T, T, nat) -> bool, s: T, d: seq<Byte>, e: seq<Byte>,
                             z: seq<Byte>)
    requires Separates(step, near) && Injective(step) && |d| == |e| <= 4 && d != e
    ensures Fold(step, Fold(step, s, d), z) != Fold(step, Fold(step, s, e), z)
  {
    if Fold(step, Fold(step, s, d), z) == Fold(step, Fold(step, s, e), z) {
      FoldInjective(step, Fold(step, s, d), Fold(step, s, e), z);
      WindowInjective(step, near, s, s, d, e);
    }
  }

  lemma FinalUndone(s: bv32)
    ensures (CrcFinal(s) as bv32) ^ 0xFFFF_FFFF == s
  {
    IntBack(s ^ 0xFFFF_FFFF);
  }

  lemma FinalInjective(s: bv32, t: bv32)
    requires CrcFinal(s) == CrcFinal(t)
    ensures s == t
  {
    FinalUndone(s);
    FinalUndone(t);
  }

  lemma CrcInPieces(a: seq<Byte>, d: seq<Byte>, z: seq<Byte>)
    ensures Crc(a + d + z) == CrcFinal(CrcUpdate(CrcUpdate(CrcUpdate(CRC_INIT, a), d), z))
  {
    FoldInPieces(CrcByte, CRC_INIT, a + d, z);
    FoldInPieces(CrcByte, CRC_INIT, a, d);
  }

  /** Payloads that differ only within four consecutive bytes, and do differ, have
      different checksums. */
  lemma FourBytesDetected(a: seq<Byte>, d: seq<Byte>, e: seq<Byte>, z: seq<Byte>)
    requires |d| == |e| <= 4 && d != e
    ensures Crc(a + d + z) != Crc(a + e + z)
  {
    CrcInPieces(a, d, z);
    CrcInPieces(a, e, z);
    CrcSeparates();
    CrcInjective();
    var s := CrcUpdate(CRC_INIT, a);
    WindowTells(CrcByte, Near, s, d, e, z);
    if Crc(a + d + z) == Crc(a + e + z) {
      FinalInjective(CrcUpdate(CrcUpdate(s, d), z), CrcUpdate(CrcUpdate(s, e), z));
    }
  }

  /** In particular payloads of one length that differ in a single byte. */
  lemma OneByteDetected(data: seq<Byte>, other: seq<Byte>, i: nat)
    requires |data| == |other| && i < |data| && data[i] != other[i]
    requires forall j :: 0 <= j < |data| && j != i ==> data[j] == other[j]
    ensures Crc(data) != Crc(other)
  {
    var a, z := data[..i], data[i + 1..];
    assert data == a + [data[i]] + z && other == a + [other[i]] + z;
    FourBytesDetected(a, [data[i]], [other[i]], z);
  }

  /** So a save with no more than its last four bytes missing is never mistaken for
      another blob: a load returns the old one or the new one. */
  lemma NearlyWhole(p: Pages, data: seq<Byte>, size: nat, n: nat)
    requires p.Sized(size) && |data| <= size - HEADER_LEN && HEADER_LEN <= n <= size
    requires n + 4 >= HEADER_LEN + |data|
    ensures !Coincides(p, data, size, n)
    ensures var after := Contents(CutAt(p, data, size, n)); after == Contents(p) || after == Some(data)
  {
    NoCollision(p, data, size, n);
    SaveIsAtomicIff(p, data, size, n);
  }

  lemma NoCollision(p: Pages, data: seq<Byte>, size: nat, n: nat)
    requires p.Sized(size) && |data| <= size - HEADER_LEN && HEADER_LEN <= n <= size
    requires n + 4 >= HEADER_LEN + |data|
    ensures !Coincides(p, data, size, n)
  {
    CoincidenceIsCollision(p, data, size, n);
    if n < HEADER_LEN + |data| {
      TailDetected(data, n - HEADER_LEN);
    }
  }

  lemma TailDetected(data: seq<Byte>, k: nat)
    requires k <= |data| <= k + 4
    ensures !Collides(data, k)
  {
    var missing := Blanks(|data| - k);
    assert data == data[..k] + data[k..] + [] && data[..k] + missing == data[..k] + missing + [];
    if missing != data[k..] {
      FourBytesDetected(data[..k], data[k..], missing, []);
    }
  }

  // ------------------------------------------------------------ a known value

  lemma EightSteps(s: bv32)
    requires s == 0xFFFF_FF9E
    ensures CrcBits(s, 8) == 0x1748_41BC
  {
    EightBits(s);
  }

  lemma LetterBits(b: Byte)
    requires b == 0x61
    ensures CRC_INIT ^ (b as bv32) == 0xFFFF_FF9E
  {
  }

  lemma LetterStep(b: Byte)
    requires b == 0x61
    ensures CrcByte(CRC_INIT, b) == 0x1748_41BC
  {
    LetterBits(b);
    EightSteps(CRC_INIT ^ (b as bv32));
  }

  lemma FinalValue()
    ensures CrcFinal(0x1748_41BC) == 0xE8B7_BE43
  {
  }

  /** The polynomial, the start and the end are those of CRC-32/ISO-HDLC: the checksum
      of the single letter "a". */
  lemma KnownValue(b: Byte)
    requires b == 0x61
    ensures Crc([b]) == 0xE8B7_BE43
  {
    FirstByte(CrcByte, CRC_INIT, [b]);
    LetterStep(b);
    FinalValue();
  }
}
