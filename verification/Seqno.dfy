// Sequence-number admission in the routing engine (libs/batman/src/lib.rs): the
// bands a number is judged by, the resynchronisation watch, and the wrapping
// millisecond stamps it is timed with (libs/interfaces/src/time.rs).
module Seqno {
  import opened Wrappers

  const MODULUS: int := 0x1_0000_0000
  const HALF: int := 0x8000_0000

  type U32 = x: int | 0 <= x < 0x1_0000_0000

  /** Truncation to 32 bits. */
  function Wrap(x: int): U32
  {
    x % MODULUS
  }

  /** `a.wrapping_sub(b) as i32`. */
  function Signed(a: U32, b: U32): (d: int)
    ensures -HALF <= d < HALF
  {
    var d := Wrap(a - b);
    if d >= HALF then d - MODULUS else d
  }

  // ------------------------------------------------------------------- stamps

  /** Milliseconds from `earlier` to `now`, or zero when `earlier` reads as later. */
  function ElapsedSince(now: U32, earlier: U32): U32
  {
    var d := Signed(now, earlier);
    if d < 0 then 0 else d
  }

  // -------------------------------------------------------------------- bands

  datatype Bands = Bands(window: nat, tolerance: nat, reset: nat)

  const BROADCAST := Bands(1024, 64, 30_000)
  const OGM := Bands(256, 16, 30_000)

  /** The two band sets that exist; no others can be made. */
  ghost predicate Real(b: Bands)
  {
    b == BROADCAST || b == OGM
  }

  function Saturating(n: U32): U32
  {
    if n + 1 < MODULUS then n + 1 else n
  }

  /** A counter after `k` more events. */
  function Counted(n: U32, k: nat): U32
  {
    if k == 0 then n else Saturating(Counted(n, k - 1))
  }

  /** It counts every one of them, up to the end of its range. */
  lemma {:induction false} CountedAll(n: U32, k: nat)
    ensures Counted(n, k) == if n + k <= 0xFFFF_FFFF then n + k else 0xFFFF_FFFF
  {
    if k > 0 {
      CountedAll(n, k - 1);
    }
  }

  datatype Verdict = Advance | Duplicate | Implausible

  function Classify(b: Bands, high: U32, seqno: U32): Verdict
  {
    var ahead := Signed(seqno, high);
    if 0 < ahead <= b.window then Advance
    else if 0 <= -ahead <= b.tolerance then Duplicate
    else Implausible
  }

  // ---------------------------------------------------------------- admission

  datatype Watch = Watch(since: U32, seqno: U32)

  /** A high-water mark and the run of numbers being held against it. */
  datatype Track = Track(high: U32, watch: Option<Watch>)

  datatype Admission = Advanced | Copy(exact: bool) | Watching | Resynchronised(verdict: Verdict)
  {
    /** The high-water mark now holds this frame's number. */
    predicate Advances()
    {
      Advanced? || (Resynchronised? && verdict.Advance?)
    }

    predicate Wrote()
    {
      Advanced? || Resynchronised?
    }

    predicate Current()
    {
      Advances() || (Copy? && exact)
    }

    predicate Stale()
    {
      Copy? && !exact
    }
  }

  /** Fold one number into a high-water mark. */
  function Admit(b: Bands, t: Track, seqno: U32, now: U32): (Track, Admission)
  {
    match Classify(b, t.high, seqno)
    case Advance => (Track(seqno, None), Advanced)
    case Duplicate => (t, Copy(seqno == t.high))
    case Implausible =>
      var watch := if t.watch.Some? then t.watch.value else Watch(now, seqno);
      if ElapsedSince(now, watch.since) < b.reset then (Track(t.high, Some(watch)), Watching)
      else
        var verdict := Classify(b, watch.seqno, seqno);
        (Track(if verdict.Advance? then seqno else watch.seqno, None), Resynchronised(verdict))
  }

  /** A watch only ever holds a number out of band against the mark it is
      evidence against. */
  ghost predicate WatchJustified(b: Bands, t: Track)
  {
    t.watch.Some? ==> Classify(b, t.high, t.watch.value.seqno) == Implausible
  }

  lemma AdmitKeepsWatchJustified(b: Bands, t: Track, seqno: U32, now: U32)
    requires WatchJustified(b, t)
    ensures WatchJustified(b, Admit(b, t, seqno, now).0)
  {
  }

  // -------------------------------------------------------- wrapping arithmetic

  /** Differences survive wrapping, up to a multiple of the modulus. */
  lemma SignedOfWrapped(x: int, y: int)
    requires -HALF <= x - y < HALF
    ensures Signed(Wrap(x), Wrap(y)) == x - y
  {
    var p, q := x / MODULUS, y / MODULUS;
    assert x == p * MODULUS + Wrap(x) && y == q * MODULUS + Wrap(y);
    var d := Wrap(x) - Wrap(y);
    assert d == (x - y) - (p - q) * MODULUS;
    ModUnique(d, x - y, p - q);
  }

  lemma ModUnique(d: int, e: int, k: int)
    requires d == e - k * MODULUS
    ensures d % MODULUS == e % MODULUS
  {
    assert e == MODULUS * (e / MODULUS) + e % MODULUS;
    assert d == MODULUS * (e / MODULUS - k) + e % MODULUS;
  }

  /** Any mark is the truncation of a counter within half the range of `x`. */
  lemma Unwrapped(high: U32, x: int) returns (h: int)
    ensures Wrap(h) == high && -HALF <= x - h < HALF
  {
    var d := Signed(Wrap(x), high);
    h := x - d;
    Truncates(h, high, x, d);
  }

  lemma Truncates(h: int, high: U32, x: int, d: int)
    requires d == Signed(Wrap(x), high) && h == x - d
    ensures Wrap(h) == high
  {
    var y := Wrap(x) - high;
    assert y == MODULUS * (y / MODULUS) + y % MODULUS;
    assert x == MODULUS * (x / MODULUS) + Wrap(x);
    var k := if y % MODULUS >= HALF then x / MODULUS + y / MODULUS + 1 else x / MODULUS + y / MODULUS;
    assert d == y - MODULUS * (y / MODULUS) - (if y % MODULUS >= HALF then MODULUS else 0);
    assert h == high + k * MODULUS;
    ModUnique(h, high, -k);
  }

  /** Elapsed time is true for gaps under half the range, and reads as none at
      all for the half after that. */
  lemma ElapsedTrue(earlier: nat, now: nat)
    requires earlier <= now < earlier + MODULUS
    ensures ElapsedSince(Wrap(now), Wrap(earlier)) == if now - earlier < HALF then now - earlier else 0
  {
    if now - earlier < HALF {
      SignedOfWrapped(now, earlier);
    } else {
      SignedOfWrapped(now, earlier + MODULUS);
      ModUnique(earlier + MODULUS, earlier, -1);
    }
  }
}
