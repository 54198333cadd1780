// One erase-page of the flash store (libs/wayfinder-storage/src/flash.rs): the
// header, the checksum over the payload, and when a page counts as valid.
module FlashPage {
  import opened Wrappers

  type U32 = x: int | 0 <= x < 0x1_0000_0000

  const BLANK: Byte := 0xFF
  const HEADER_LEN: nat := 16
  const MAGIC: seq<Byte> := [0x57, 0x46, 0x44, 0x31]  // "WFD1"

  // ------------------------------------------------------------------ checksum

  function CrcBit(s: bv32): bv32
  {
    if s & 1 == 1 then (s >> 1) ^ 0xEDB8_8320 else s >> 1
  }

  function CrcBits(s: bv32, n: nat): bv32
  {
    Iterate(CrcBit, s, n)
  }

  /** `n` times `step`. */
  function Iterate<T>(step: T -> T, s: T, n: nat): T
    decreases n
  {
    if n == 0 then s else Iterate(step, step(s), n - 1)
  }

  function CrcByte(s: bv32, b: Byte): bv32
  {
    CrcBits(s ^ (b as bv32), 8)
  }

  /** Feed `data` to `step`, a byte at a time. */
  function Fold<T>(step: (T, Byte) -> T, s: T, data: seq<Byte>): T
  {
    if data == [] then s else step(Fold(step, s, data[..|data| - 1]), data[|data| - 1])
  }

  /** Feeding in pieces gives the same as feeding whole. */
  lemma {:induction false} FoldInPieces<T>(step: (T, Byte) -> T, s: T, a: seq<Byte>, b: seq<Byte>)
    ensures Fold(step, s, a + b) == Fold(step, Fold(step, s, a), b)
    decreases |b|
  {
    if b == [] {
      assert a + b == a;
    } else {
      var t := b[..|b| - 1];
      FoldInPieces(step, s, a, t);
      assert (a + b)[..|a + b| - 1] == a + t;
    }
  }

  /** The running CRC32 after more data. */
  function CrcUpdate(s: bv32, data: seq<Byte>): bv32
  {
    Fold(CrcByte, s, data)
  }

  function CrcFinal(s: bv32): U32
  {
    (s ^ 0xFFFF_FFFF) as int
  }

  const CRC_INIT: bv32 := 0xFFFF_FFFF

  function Crc(data: seq<Byte>): U32
  {
    CrcFinal(CrcUpdate(CRC_INIT, data))
  }

  // ------------------------------------------------------------------- numbers

  function ToLe(x: U32): (bytes: seq<Byte>)
    ensures |bytes| == 4
  {
    [x % 256, x / 256 % 256, x / 0x1_0000 % 256, x / 0x100_0000]
  }

  function FromLe(b: seq<Byte>): U32
    requires |b| == 4
  {
    b[0] as int + 256 * (b[1] as int) + 0x1_0000 * (b[2] as int) + 0x100_0000 * (b[3] as int)
  }

  lemma LeRoundTrip(x: U32)
    ensures FromLe(ToLe(x)) == x
  {
    var a := x / 256;
    var b := a / 256;
    assert x / 0x1_0000 == b && x / 0x100_0000 == b / 256;
    assert x == 256 * a + x % 256 && a == 256 * b + a % 256 && b == 256 * (b / 256) + b % 256;
  }

  // --------------------------------------------------------------------- pages

  datatype Header = Header(generation: U32, len: nat)

  function Generation(page: seq<Byte>): U32
    requires |page| >= HEADER_LEN
  {
    FromLe(page[4..8])
  }

  function Length(page: seq<Byte>): U32
    requires |page| >= HEADER_LEN
  {
    FromLe(page[8..12])
  }

  function Checksum(page: seq<Byte>): U32
    requires |page| >= HEADER_LEN
  {
    FromLe(page[12..16])
  }

  /** Magic, a length that fits, and a payload matching the checksum. */
  predicate Intact(page: seq<Byte>)
    requires |page| >= HEADER_LEN
  {
    && page[0..4] == MAGIC
    && Length(page) <= |page| - HEADER_LEN
    && Crc(page[HEADER_LEN..HEADER_LEN + Length(page)]) == Checksum(page)
  }

  function Payload(page: seq<Byte>): seq<Byte>
    requires |page| >= HEADER_LEN && Intact(page)
  {
    page[HEADER_LEN..HEADER_LEN + Length(page)]
  }

  function HeaderBytes(generation: U32, data: seq<Byte>): (h: seq<Byte>)
    requires |data| < 0x1_0000_0000
    ensures |h| == HEADER_LEN
  {
    MAGIC + ToLe(generation) + ToLe(|data|) + ToLe(Crc(data))
  }

  function Blanks(n: nat): (s: seq<Byte>)
    ensures |s| == n && forall i :: 0 <= i < n ==> s[i] == BLANK
  {
    seq(n, _ => BLANK)
  }

  /** A page of `size` bytes holding `data`: header, payload, and blanks after. */
  function PageOf(generation: U32, data: seq<Byte>, size: nat): (page: seq<Byte>)
    requires |data| + HEADER_LEN <= size < 0x1_0000_0000
    ensures |page| == size
  {
    HeaderBytes(generation, data) + data + Blanks(size - HEADER_LEN - |data|)
  }

  lemma PageFields(generation: U32, data: seq<Byte>, size: nat)
    requires |data| + HEADER_LEN <= size < 0x1_0000_0000
    ensures var page := PageOf(generation, data, size);
            && page[0..4] == MAGIC && page[4..8] == ToLe(generation) && page[8..12] == ToLe(|data|)
            && page[12..16] == ToLe(Crc(data)) && page[HEADER_LEN..HEADER_LEN + |data|] == data
  {
    var page := PageOf(generation, data, size);
    assert page[..HEADER_LEN] == HeaderBytes(generation, data);
    assert page[4..8] == page[..HEADER_LEN][4..8] == ToLe(generation);
    assert page[8..12] == page[..HEADER_LEN][8..12] == ToLe(|data|);
    assert page[12..16] == page[..HEADER_LEN][12..16] == ToLe(Crc(data));
  }

  /** The four bytes from `at` on are `x`, least significant first. */
  predicate LittleEndian(page: seq<Byte>, at: nat, x: U32)
  {
    at + 4 <= |page| &&
    x == page[at] as int + 0x100 * (page[at + 1] as int) + 0x1_0000 * (page[at + 2] as int)
         + 0x100_0000 * (page[at + 3] as int)
  }

  lemma LeBytes(page: seq<Byte>, at: nat, x: U32)
    requires at + 4 <= |page| && page[at..at + 4] == ToLe(x)
    ensures LittleEndian(page, at, x)
  {
    LeRoundTrip(x);
    assert page[at..at + 4][0] == page[at] && page[at..at + 4][1] == page[at + 1];
    assert page[at..at + 4][2] == page[at + 2] && page[at..at + 4][3] == page[at + 3];
  }

  /** Where everything is: "WFD1", the generation, the length, the checksum, the
      payload from the sixteenth byte on, and blanks. */
  lemma PageLayout(generation: U32, data: seq<Byte>, size: nat)
    requires |data| + 16 <= size < 0x1_0000_0000
    ensures var page := PageOf(generation, data, size);
            && page[..4] == [0x57, 0x46, 0x44, 0x31]
            && LittleEndian(page, 4, generation) && LittleEndian(page, 8, |data|) && LittleEndian(page, 12, Crc(data))
            && page[16..16 + |data|] == data
            && forall i :: 16 + |data| <= i < size ==> page[i] == 0xFF
  {
    var page := PageOf(generation, data, size);
    PageFields(generation, data, size);
    assert page[..4] == page[0..4];
    LeBytes(page, 4, generation);
    LeBytes(page, 8, |data|);
    LeBytes(page, 12, Crc(data));
  }

  /** What was put on a page is what is read back from it. */
  lemma PageRoundTrip(generation: U32, data: seq<Byte>, size: nat)
    requires |data| + HEADER_LEN <= size < 0x1_0000_0000
    ensures var page := PageOf(generation, data, size);
            Intact(page) && Generation(page) == generation && Payload(page) == data
  {
    PageFields(generation, data, size);
    LeRoundTrip(generation);
    LeRoundTrip(|data|);
    LeRoundTrip(Crc(data));
  }

  // ------------------------------------------------------------- torn writes

  /** A page on which only the first `n` bytes of a write have landed. */
  function Torn(page: seq<Byte>, n: nat): (t: seq<Byte>)
    requires n <= |page|
    ensures |t| == |page|
  {
    page[..n] + Blanks(|page| - n)
  }

  lemma TornField(page: seq<Byte>, n: nat, a: nat, b: nat)
    requires a <= b <= |page| && n <= |page|
    ensures b <= n ==> Torn(page, n)[a..b] == page[a..b]
    ensures n <= a ==> Torn(page, n)[a..b] == Blanks(b - a)
  {
  }

  /** Losing any part of the magic or of the length makes a page invalid. */
  lemma TornHeaderInvalid(generation: U32, data: seq<Byte>, size: nat, n: nat)
    requires |data| + HEADER_LEN <= size < 0xFF00_0000 && n < 12
    ensures !Intact(Torn(PageOf(generation, data, size), n))
  {
    var page := PageOf(generation, data, size);
    var t := Torn(page, n);
    PageFields(generation, data, size);
    if n < 4 {
      assert t[0..4][3] == t[3] == BLANK;
    } else {
      assert t[8..12][3] == t[11] == BLANK;
      assert Length(t) >= 0xFF00_0000;
    }
  }

  /** Once the length has landed, a torn page passes exactly when the checksum of
      what is there coincides with the checksum field. */
  lemma TornValidIff(generation: U32, data: seq<Byte>, size: nat, n: nat)
    requires |data| + HEADER_LEN <= size < 0x1_0000_0000 && 12 <= n <= size
    ensures var t := Torn(PageOf(generation, data, size), n);
            && Length(t) == |data| && Generation(t) == generation
            && (Intact(t) <==> Crc(t[HEADER_LEN..HEADER_LEN + |data|]) == Checksum(t))
            && (n >= HEADER_LEN ==> Checksum(t) == Crc(data))
            && (n >= HEADER_LEN + |data| ==> t == PageOf(generation, data, size))
  {
    var page := PageOf(generation, data, size);
    var t := Torn(page, n);
    PageFields(generation, data, size);
    TornField(page, n, 0, 4);
    TornField(page, n, 4, 8);
    TornField(page, n, 8, 12);
    TornField(page, n, 12, 16);
    LeRoundTrip(generation);
    LeRoundTrip(|data|);
    LeRoundTrip(Crc(data));
  }
}
