// The two-page flash store (libs/wayfinder-storage/src/flash.rs): each save goes
// to the page that does not hold the newest intact copy, so that a write cut off
// by power loss leaves the other one to fall back on.
module FlashStore {
  import opened FlashPage
  import opened Wrappers

  const MAX_GENERATION: U32 := 0xFFFF_FFFF
  const CRC_CHUNK: nat := 64

  function Next(generation: U32): U32
  {
    if generation == MAX_GENERATION then 0 else generation + 1
  }

  /** Two pages of one size, as the store addresses them. */
  datatype Pages = Pages(zero: seq<Byte>, one: seq<Byte>)
  {
    predicate Sized(size: nat)
    {
      HEADER_LEN < size < 0xFF00_0000 && |zero| == size && |one| == size
    }

    function Get(i: nat): seq<Byte>
      requires i < 2
    {
      if i == 0 then zero else one
    }

    function Set(i: nat, page: seq<Byte>): Pages
      requires i < 2
    {
      if i == 0 then Pages(page, one) else Pages(zero, page)
    }
  }

  /** The intact page with the higher generation; page 0 on a tie. */
  function Newest(p: Pages): (r: Option<nat>)
    requires |p.zero| >= HEADER_LEN && |p.one| >= HEADER_LEN
    ensures r.Some? ==> r.value < 2
  {
    if !Intact(p.zero) && !Intact(p.one) then None
    else if !Intact(p.one) then Some(0)
    else if !Intact(p.zero) then Some(1)
    else if Generation(p.one) > Generation(p.zero) then Some(1)
    else Some(0)
  }

  /** The blob a load returns, if any. */
  function Contents(p: Pages): Option<seq<Byte>>
    requires |p.zero| >= HEADER_LEN && |p.one| >= HEADER_LEN
  {
    match Newest(p)
    case None => None
    case Some(i) => Some(Payload(p.Get(i)))
  }

  /** Where a save goes and the generation it writes. */
  function Target(p: Pages): (r: (nat, U32))
    requires |p.zero| >= HEADER_LEN && |p.one| >= HEADER_LEN
    ensures r.0 < 2
  {
    match Newest(p)
    case None => (0, 0)
    case Some(i) => (1 - i, Next(Generation(p.Get(i))))
  }

  /** The pages after a completed save. */
  function Saved(p: Pages, data: seq<Byte>, size: nat): Pages
    requires p.Sized(size) && |data| <= size - HEADER_LEN
  {
    p.Set(Target(p).0, PageOf(Target(p).1, data, size))
  }

  /** The generation counter is about to wrap. */
  predicate AtLimit(p: Pages)
    requires |p.zero| >= HEADER_LEN && |p.one| >= HEADER_LEN
  {
    Newest(p).Some? && Generation(p.Get(Newest(p).value)) == MAX_GENERATION
  }

  // ----------------------------------------------------------- what a load sees

  /** Whatever ends up on the page a save was writing, a load still returns the
      blob from before exactly when that page is not intact or is not newer. */
  lemma OtherPageHolds(p: Pages, size: nat, page: seq<Byte>)
    requires p.Sized(size) && |page| == size && Newest(p).Some?
    ensures var i := Newest(p).value;
            var q := p.Set(1 - i, page);
            if Intact(page) && (Generation(page) > Generation(p.Get(i))
                                || (i == 1 && Generation(page) == Generation(p.Get(i))))
            then Newest(q) == Some(1 - i) && Contents(q) == Some(Payload(page))
            else Newest(q) == Some(i) && Contents(q) == Contents(p)
  {
  }

  /** A save is what the next load returns, unless the generation counter was at
      its limit: then the new blob is never seen. */
  lemma SaveThenLoadIff(p: Pages, data: seq<Byte>, size: nat)
    requires p.Sized(size) && |data| <= size - HEADER_LEN
    ensures Saved(p, data, size).Sized(size)
    ensures AtLimit(p) ==> Contents(Saved(p, data, size)) == Contents(p) && AtLimit(Saved(p, data, size))
    ensures !AtLimit(p) ==> Contents(Saved(p, data, size)) == Some(data)
  {
    var (i, g) := Target(p);
    PageRoundTrip(g, data, size);
    if Newest(p).Some? {
      OtherPageHolds(p, size, PageOf(g, data, size));
    }
  }

  function SavedAll(p: Pages, blobs: seq<seq<Byte>>, size: nat): (q: Pages)
    requires p.Sized(size) && forall i :: 0 <= i < |blobs| ==> |blobs[i]| <= size - HEADER_LEN
    ensures q.Sized(size)
  {
    if blobs == [] then p
    else
      var before := SavedAll(p, blobs[..|blobs| - 1], size);
      SaveThenLoadIff(before, blobs[|blobs| - 1], size);
      Saved(before, blobs[|blobs| - 1], size)
  }

  /** At the limit the store is stuck: no number of saves changes what it loads. */
  lemma {:induction false} StuckAtLimit(p: Pages, blobs: seq<seq<Byte>>, size: nat)
    requires p.Sized(size) && AtLimit(p) && forall i :: 0 <= i < |blobs| ==> |blobs[i]| <= size - HEADER_LEN
    ensures AtLimit(SavedAll(p, blobs, size)) && Contents(SavedAll(p, blobs, size)) == Contents(p)
    decreases |blobs|
  {
    if blobs != [] {
      StuckAtLimit(p, blobs[..|blobs| - 1], size);
      SaveThenLoadIff(SavedAll(p, blobs[..|blobs| - 1], size), blobs[|blobs| - 1], size);
    }
  }

  // ------------------------------------------------------------------- power cuts

  /** The pages when power fails after `n` bytes of the save have landed. */
  function CutAt(p: Pages, data: seq<Byte>, size: nat, n: nat): Pages
    requires p.Sized(size) && |data| <= size - HEADER_LEN && n <= size
  {
    p.Set(Target(p).0, Torn(PageOf(Target(p).1, data, size), n))
  }

  /** What has landed passes for a blob, though it is not the one being saved. */
  predicate Coincides(p: Pages, data: seq<Byte>, size: nat, n: nat)
    requires p.Sized(size) && |data| <= size - HEADER_LEN && n <= size
  {
    var t := Torn(PageOf(Target(p).1, data, size), n);
    Intact(t) && Payload(t) != data
  }

  /** Wherever a save is cut off, a load returns the old blob or the new one, and
      nothing else, exactly unless a checksum coincidence makes torn bytes pass; at the
      limit of the counter it returns the old one in any case. */
  lemma SaveIsAtomicIff(p: Pages, data: seq<Byte>, size: nat, n: nat)
    requires p.Sized(size) && |data| <= size - HEADER_LEN && n <= size
    ensures var after := Contents(CutAt(p, data, size, n));
            if AtLimit(p) then after == Contents(p)
            else if Coincides(p, data, size, n)
            then after == Some(Payload(Torn(PageOf(Target(p).1, data, size), n)))
            else after == Contents(p) || after == Some(data)
    ensures n < 12 ==> Contents(CutAt(p, data, size, n)) == Contents(p)
    ensures n >= HEADER_LEN + |data| && !AtLimit(p) ==> Contents(CutAt(p, data, size, n)) == Some(data)
  {
    var (i, g) := Target(p);
    var t := Torn(PageOf(g, data, size), n);
    if n < 12 {
      TornHeaderInvalid(g, data, size, n);
    } else {
      TornValidIff(g, data, size, n);
      PageRoundTrip(g, data, size);
    }
    if Newest(p).Some? {
      OtherPageHolds(p, size, t);
    }
  }

  /** The first `k` bytes of `data`, padded with blanks, have its checksum and are not it. */
  predicate Collides(data: seq<Byte>, k: nat)
    requires k <= |data|
  {
    var torn := data[..k] + Blanks(|data| - k);
    torn != data && Crc(torn) == Crc(data)
  }

  /** A coincidence needs different bytes with one checksum: the payload so far,
      padded with blanks, against the whole of it. */
  lemma CoincidenceIsCollision(p: Pages, data: seq<Byte>, size: nat, n: nat)
    requires p.Sized(size) && |data| <= size - HEADER_LEN && HEADER_LEN <= n <= size
    ensures Coincides(p, data, size, n) ==> n < HEADER_LEN + |data| && Collides(data, n - HEADER_LEN)
  {
    var g := Target(p).1;
    var page := PageOf(g, data, size);
    var t := Torn(page, n);
    TornValidIff(g, data, size, n);
    PageRoundTrip(g, data, size);
    if Coincides(p, data, size, n) {
      var torn := data[..n - HEADER_LEN] + Blanks(|data| - (n - HEADER_LEN));
      TornPayload(g, data, size, n);
    }
  }

  /** And where the cut falls inside the checksum: the blanks in the payload's place
      would need the part of the checksum that landed, followed by blanks. */
  lemma CoincidenceInChecksum(p: Pages, data: seq<Byte>, size: nat, n: nat)
    requires p.Sized(size) && |data| <= size - HEADER_LEN && 12 <= n < HEADER_LEN
    ensures Coincides(p, data, size, n) ==>
              Crc(Blanks(|data|)) == FromLe(ToLe(Crc(data))[..n - 12] + Blanks(HEADER_LEN - n))
  {
    var g := Target(p).1;
    TornValidIff(g, data, size, n);
    TornChecksum(g, data, size, n);
  }

  lemma TornChecksum(g: U32, data: seq<Byte>, size: nat, n: nat)
    requires |data| + HEADER_LEN <= size < 0x1_0000_0000 && 12 <= n < HEADER_LEN
    ensures var t := Torn(PageOf(g, data, size), n);
            && t[HEADER_LEN..HEADER_LEN + |data|] == Blanks(|data|)
            && t[12..16] == ToLe(Crc(data))[..n - 12] + Blanks(HEADER_LEN - n)
  {
    var page := PageOf(g, data, size);
    PageFields(g, data, size);
    assert page[12..n] == page[12..16][..n - 12];
  }

  /** What the payload's place holds after `n` bytes of a page have landed. */
  lemma TornPayload(g: U32, data: seq<Byte>, size: nat, n: nat)
    requires |data| + HEADER_LEN <= size < 0x1_0000_0000 && HEADER_LEN <= n < HEADER_LEN + |data|
    ensures Torn(PageOf(g, data, size), n)[HEADER_LEN..HEADER_LEN + |data|]
         == data[..n - HEADER_LEN] + Blanks(|data| - (n - HEADER_LEN))
  {
    PageFields(g, data, size);
    var page := PageOf(g, data, size);
    assert page[HEADER_LEN..n] == page[HEADER_LEN..HEADER_LEN + |data|][..n - HEADER_LEN];
  }

  // -------------------------------------------------------- interrupted erases

  /** The bits of `a` also set in `b`, low `n` bits. */
  function And(a: nat, b: nat, n: nat): nat
  {
    if n == 0 then 0 else (if a % 2 == 1 && b % 2 == 1 then 1 else 0) + 2 * And(a / 2, b / 2, n - 1)
  }

  function Pow2(n: nat): nat
  {
    if n == 0 then 1 else 2 * Pow2(n - 1)
  }

  lemma {:induction false} AndBlank(b: nat, n: nat)
    requires b < Pow2(n)
    ensures And(Pow2(n) - 1, b, n) == b && And(b, Pow2(n) - 1, n) == b
    decreases n
  {
    if n > 0 {
      AndBlank(b / 2, n - 1);
      assert (Pow2(n) - 1) / 2 == Pow2(n - 1) - 1 && (Pow2(n) - 1) % 2 == 1;
    }
  }

  lemma {:induction false} AndSelf(b: nat, n: nat)
    requires b < Pow2(n)
    ensures And(b, b, n) == b
    decreases n
  {
    if n > 0 {
      AndSelf(b / 2, n - 1);
    }
  }

  lemma EightBits()
    ensures Pow2(8) == 256
  {
    assert Pow2(4) == 16;
  }

  /** An erase drives every bit to one; cut off, each bit is where it was or
      already there. */
  ghost predicate ErasedInPart(before: seq<Byte>, page: seq<Byte>)
  {
    |page| == |before| && forall i :: 0 <= i < |page| ==> And(page[i], before[i], 8) == before[i]
  }

  /** The page with every bit of its generation driven to one. */
  function GenerationErased(page: seq<Byte>): (r: seq<Byte>)
    requires |page| >= HEADER_LEN
    ensures |r| == |page|
  {
    page[..4] + Blanks(4) + page[8..]
  }

  /** No page can be taken for newer than this store's: it is at its limit, on the page
      that wins a tie. */
  predicate Unbeatable(p: Pages)
    requires |p.zero| >= HEADER_LEN && |p.one| >= HEADER_LEN
  {
    AtLimit(p) && Newest(p) == Some(0)
  }

  /** The checksum does not cover the generation, so an erase cut off while only
      the generation has cleared brings the older blob back: this is reachable
      from every store that holds two intact copies, unless it is unbeatable. */
  lemma CutEraseRevivesOlder(p: Pages, size: nat)
    requires p.Sized(size) && Intact(p.zero) && Intact(p.one) && !Unbeatable(p)
    ensures var i := Newest(p).value;
            var older := p.Get(1 - i);
            var page := GenerationErased(older);
            && ErasedInPart(older, page)
            && Contents(p.Set(1 - i, page)) == Some(Payload(older))
            && AtLimit(p.Set(1 - i, page))
  {
    var i := Newest(p).value;
    var older := p.Get(1 - i);
    ErasedGeneration(older);
    ErasedStaysIntact(older);
    OtherPageHolds(p, size, GenerationErased(older));
  }

  lemma ErasedStaysIntact(older: seq<Byte>)
    requires |older| >= HEADER_LEN && Intact(older)
    ensures var page := GenerationErased(older);
            Intact(page) && Payload(page) == Payload(older) && Generation(page) == MAX_GENERATION
  {
    var page := GenerationErased(older);
    assert page[0..4] == older[0..4] && page[8..12] == older[8..12] && page[12..16] == older[12..16];
    assert page[HEADER_LEN..HEADER_LEN + Length(page)] == older[HEADER_LEN..HEADER_LEN + Length(page)];
    assert page[4..8] == Blanks(4);
  }

  lemma ErasedGeneration(older: seq<Byte>)
    requires |older| >= HEADER_LEN
    ensures ErasedInPart(older, GenerationErased(older))
  {
    var page := GenerationErased(older);
    forall k | 0 <= k < |page| ensures And(page[k], older[k], 8) == older[k] {
      EightBits();
      AndBlank(older[k], 8);
      AndSelf(older[k], 8);
      assert page[k] == older[k] || page[k] == BLANK;
    }
  }

  // ---------------------------------------------------------------- the store

  /** A flash write: it can only clear bits. */
  function NorWrite(page: seq<Byte>, at: nat, bytes: seq<Byte>): (r: seq<Byte>)
    requires at + |bytes| <= |page|
    ensures |r| == |page|
  {
    seq(|page|, k requires 0 <= k < |page| =>
      if at <= k < at + |bytes| then Cleared(page[k], bytes[k - at]) else page[k])
  }

  function Cleared(cell: Byte, b: Byte): Byte
  {
    AndFits(cell, b, 8);
    EightBits();
    And(cell, b, 8)
  }

  lemma {:induction false} AndFits(a: nat, b: nat, n: nat)
    ensures And(a, b, n) < Pow2(n)
    decreases n
  {
    if n > 0 {
      AndFits(a / 2, b / 2, n - 1);
    }
  }

  /** On erased cells a write lands as it is: the torn page grows. */
  lemma WriteExtends(page: seq<Byte>, n: nat, bytes: seq<Byte>)
    requires n + |bytes| <= |page| && bytes == page[n..n + |bytes|]
    ensures NorWrite(Torn(page, n), n, bytes) == Torn(page, n + |bytes|)
  {
    var r := NorWrite(Torn(page, n), n, bytes);
    forall k | 0 <= k < |page| ensures r[k] == Torn(page, n + |bytes|)[k] {
      if n <= k < n + |bytes| {
        EightBits();
        AndBlank(page[k], 8);
        assert bytes[k - n] == page[k];
      }
    }
  }

  datatype SaveResult = Written | BlobTooLarge(len: nat, capacity: nat) | FlashFailed

  datatype LoadResult = Empty | Loaded(blob: seq<Byte>) | BufferTooSmall(len: nat, buf: nat)

  /** Feed a payload to `step`, read a bounded chunk at a time. */
  method Stream<T>(step: (T, Byte) -> T, init: T, payload: seq<Byte>) returns (s: T)
    ensures s == Fold(step, init, payload)
  {
    s := init;
    var done := 0;
    while done < |payload|
      invariant 0 <= done <= |payload| && s == Fold(step, init, payload[..done])
    {
      var n := if |payload| - done < CRC_CHUNK then |payload| - done else CRC_CHUNK;
      FoldInPieces(step, init, payload[..done], payload[done..done + n]);
      assert payload[..done] + payload[done..done + n] == payload[..done + n];
      s := Fold(step, s, payload[done..done + n]);
      done := done + n;
    }
    assert payload[..|payload|] == payload;
  }

  method StreamCrc(payload: seq<Byte>) returns (crc: U32)
    ensures crc == Crc(payload)
  {
    var s := Stream(CrcByte, CRC_INIT, payload);
    crc := CrcFinal(s);
  }

  /** A page that is to hold `header` and `data`, and blanks after them. */
  ghost predicate Holds(whole: seq<Byte>, header: seq<Byte>, data: seq<Byte>)
  {
    && |header| == HEADER_LEN && HEADER_LEN + |data| <= |whole|
    && whole[0..HEADER_LEN] == header
    && whole[HEADER_LEN..HEADER_LEN + |data|] == data
    && whole[HEADER_LEN + |data|..] == Blanks(|whole| - HEADER_LEN - |data|)
  }

  lemma TornWhole(whole: seq<Byte>, header: seq<Byte>, data: seq<Byte>, n: nat)
    requires Holds(whole, header, data) && HEADER_LEN + |data| <= n <= |whole|
    ensures Torn(whole, n) == whole
  {
    forall k | n <= k < |whole| ensures whole[k] == BLANK {
      assert whole[k] == whole[HEADER_LEN + |data|..][k - HEADER_LEN - |data|];
    }
  }

  lemma TailSlice(whole: seq<Byte>, header: seq<Byte>, data: seq<Byte>, aligned: nat, word: nat)
    requires Holds(whole, header, data) && aligned <= |data| <= aligned + word
    requires HEADER_LEN + aligned + word <= |whole|
    ensures data[aligned..] + Blanks(word - (|data| - aligned))
         == whole[HEADER_LEN + aligned..HEADER_LEN + aligned + word]
  {
    var tail := data[aligned..] + Blanks(word - (|data| - aligned));
    forall k | 0 <= k < word ensures tail[k] == whole[HEADER_LEN + aligned + k] {
      if aligned + k < |data| {
        assert whole[HEADER_LEN + aligned + k] == whole[HEADER_LEN..HEADER_LEN + |data|][aligned + k];
      } else {
        assert whole[HEADER_LEN + aligned + k] == whole[HEADER_LEN + |data|..][aligned + k - |data|];
      }
    }
  }

  /** One write of the next bytes of `whole` onto the cells after the first `n`. */
  method WriteNext(ghost whole: seq<Byte>, page: seq<Byte>, n: nat, bytes: seq<Byte>) returns (after: seq<Byte>)
    requires n + |bytes| <= |whole| && bytes == whole[n..n + |bytes|] && page == Torn(whole, n)
    ensures after == Torn(whole, n + |bytes|)
  {
    WriteExtends(whole, n, bytes);
    after := NorWrite(page, n, bytes);
  }

  /** Erase a page, then write header, whole words and padded last word to it.
      Operation number `failing` fails if it is reached: `landed` is how much of
      the page was written by then, or -1 when it was not even erased. `aligned`
      bytes of the payload are whole words. */
  method Program(ghost whole: seq<Byte>, before: seq<Byte>, word: nat, aligned: nat, header: seq<Byte>,
                 data: seq<Byte>, failing: nat)
    returns (ok: bool, page: seq<Byte>, ghost landed: int)
    requires |whole| == |before| && Holds(whole, header, data) && aligned <= |data| <= aligned + word
    requires aligned < |data| ==> HEADER_LEN + aligned + word <= |before|
    ensures -1 <= landed <= |whole| && page == if landed == -1 then before else Torn(whole, landed)
    ensures ok ==> page == whole
    ensures failing >= 4 ==> ok
  {
    page, ok, landed := before, false, -1;
    if failing == 0 {
      return;
    }
    page, landed := Blanks(|before|), 0;
    if failing == 1 {
      return;
    }
    page := WriteNext(whole, page, 0, header);
    landed := HEADER_LEN;
    var done := 2;
    if aligned > 0 {
      if failing == done {
        return;
      }
      assert data[..aligned] == whole[HEADER_LEN..HEADER_LEN + aligned];
      page := WriteNext(whole, page, HEADER_LEN, data[..aligned]);
      landed, done := HEADER_LEN + aligned, done + 1;
    }
    if |data| > aligned {
      if failing == done {
        return;
      }
      TailSlice(whole, header, data, aligned, word);
      page := WriteNext(whole, page, HEADER_LEN + aligned, data[aligned..] + Blanks(word - (|data| - aligned)));
      landed := HEADER_LEN + aligned + word;
    }
    TornWhole(whole, header, data, landed);
    ok := true;
  }

  /** How much of a payload is whole write words. */
  method WholeWords(len: nat, size: nat, word: nat) returns (aligned: nat)
    requires word > 0 && HEADER_LEN % word == 0 && size % word == 0 && len <= size - HEADER_LEN
    ensures aligned <= len < aligned + word && aligned == word * (len / word)
    ensures aligned < len ==> HEADER_LEN + aligned + word <= size
  {
    aligned := len - len % word;
    if len > aligned {
      TailFits(len, size, word);
    }
  }

  class Store {
    const size: nat
    const word: nat
    var pages: Pages

    /** Pages are a whole number of write words, and so is the header. */
    ghost predicate Valid()
      reads this
    {
      pages.Sized(size) && 0 < word <= 16 && HEADER_LEN % word == 0 && size % word == 0
    }

    constructor (size: nat, word: nat, pages: Pages)
      requires pages.Sized(size) && 0 < word <= 16 && HEADER_LEN % word == 0 && size % word == 0
      ensures Valid() && this.size == size && this.word == word && this.pages == pages
    {
      this.size, this.word, this.pages := size, word, pages;
    }

    /** Validate a page, streaming its payload through the checksum. */
    method ReadValidHeader(i: nat) returns (h: Option<Header>)
      requires Valid() && i < 2
      ensures h.Some? <==> Intact(pages.Get(i))
      ensures h.Some? ==> h.value == Header(Generation(pages.Get(i)), Length(pages.Get(i)))
    {
      var page := pages.Get(i);
      if page[0..4] != MAGIC {
        return None;
      }
      var generation, len, want := FromLe(page[4..8]), FromLe(page[8..12]), FromLe(page[12..16]);
      if len > size - HEADER_LEN {
        return None;
      }
      var crc := StreamCrc(page[HEADER_LEN..HEADER_LEN + len]);
      if crc != want {
        return None;
      }
      return Some(Header(generation, len));
    }

    method NewestValid() returns (r: Option<(nat, Header)>)
      requires Valid()
      ensures r.None? <==> Newest(pages).None?
      ensures r.Some? ==> Newest(pages) == Some(r.value.0)
                          && r.value.1 == Header(Generation(pages.Get(r.value.0)), Length(pages.Get(r.value.0)))
    {
      var h0 := ReadValidHeader(0);
      var h1 := ReadValidHeader(1);
      match (h0, h1)
      case (None, None) => return None;
      case (Some(h), None) => return Some((0, h));
      case (None, Some(h)) => return Some((1, h));
      case (Some(a), Some(b)) =>
        if b.generation > a.generation {
          return Some((1, b));
        }
        return Some((0, a));
    }

    method Load(buf: nat) returns (r: LoadResult)
      requires Valid()
      ensures r == match Contents(pages)
                   case None => Empty
                   case Some(blob) => if |blob| <= buf then Loaded(blob) else BufferTooSmall(|blob|, buf)
    {
      var newest := NewestValid();
      if newest.None? {
        return Empty;
      }
      var (i, header) := newest.value;
      if header.len > buf {
        return BufferTooSmall(header.len, buf);
      }
      return Loaded(pages.Get(i)[HEADER_LEN..HEADER_LEN + header.len]);
    }

    /** Save a blob. Flash operation number `failing` (the erase, then each write)
        fails, if it is reached. */
    method Save(data: seq<Byte>, failing: nat) returns (r: SaveResult, ghost landed: int)
      requires Valid()
      modifies this
      ensures Valid()
      ensures r.BlobTooLarge? <==> |data| > size - HEADER_LEN
      ensures r.BlobTooLarge? ==> pages == old(pages) && r == BlobTooLarge(|data|, size - HEADER_LEN)
      ensures r.Written? ==> pages == Saved(old(pages), data, size)
      ensures r.FlashFailed? ==>
                && -1 <= landed <= size
                && pages == if landed == -1 then old(pages) else CutAt(old(pages), data, size, landed)
      ensures failing >= 4 ==> !r.FlashFailed?
    {
      if |data| > size - HEADER_LEN {
        return BlobTooLarge(|data|, size - HEADER_LEN), -1;
      }
      var newest := NewestValid();
      var target, next := 0, 0;
      if newest.Some? {
        target, next := 1 - newest.value.0, Next(newest.value.1.generation);
      }
      ghost var whole := PageOf(next, data, size);
      PageHolds(next, data, size);
      var aligned := WholeWords(|data|, size, word);
      var ok, page, n := Program(whole, pages.Get(target), word, aligned, HeaderBytes(next, data), data, failing);
      landed := n;
      pages := pages.Set(target, page);
      r := if ok then Written else FlashFailed;
    }

    method PageIsBlank(i: nat) returns (blank: bool)
      requires Valid() && i < 2
      ensures blank <==> pages.Get(i) == Blanks(size)
    {
      var page := pages.Get(i);
      var done := 0;
      while done < size
        invariant 0 <= done <= size && page[..done] == Blanks(done)
      {
        var n := if size - done < CRC_CHUNK then size - done else CRC_CHUNK;
        if page[done..done + n] != Blanks(n) {
          return false;
        }
        assert page[..done + n] == page[..done] + page[done..done + n];
        done := done + n;
      }
      return true;
    }

    method EraseIfWritten(i: nat)
      requires Valid() && i < 2
      modifies this
      ensures Valid() && pages == old(pages).Set(i, Blanks(size))
    {
      var blank := PageIsBlank(i);
      if !blank {
        pages := pages.Set(i, Blanks(size));
      }
    }

    /** Leave nothing behind but the newest blob: what a load returns is kept, and
        every other page is blank. */
    method Scrub()
      requires Valid()
      modifies this
      ensures Valid() && pages == OnlyNewest(old(pages), size)
      ensures Contents(pages) == old(Contents(pages)) && Newest(pages) == old(Newest(pages))
    {
      ScrubbedKeeps(pages, size);
      var newest := NewestValid();
      if newest.None? || newest.value.0 != 0 {
        EraseIfWritten(0);
      }
      if newest.None? || newest.value.0 != 1 {
        EraseIfWritten(1);
      }
    }

    method Erase()
      requires Valid()
      modifies this
      ensures Valid() && pages == Pages(Blanks(size), Blanks(size)) && Contents(pages).None?
    {
      BlankIsNotIntact(size);
      EraseIfWritten(0);
      EraseIfWritten(1);
    }
  }

  lemma PageHolds(generation: U32, data: seq<Byte>, size: nat)
    requires |data| + HEADER_LEN <= size < 0x1_0000_0000
    ensures Holds(PageOf(generation, data, size), HeaderBytes(generation, data), data)
  {
  }

  lemma BlankIsNotIntact(size: nat)
    requires size >= HEADER_LEN
    ensures !Intact(Blanks(size))
  {
    assert Blanks(size)[0..4][0] == BLANK;
  }

  /** The newest page as it was, and every other one blank. */
  function OnlyNewest(p: Pages, size: nat): Pages
    requires p.Sized(size)
  {
    Pages(if Newest(p) == Some(0) then p.zero else Blanks(size), if Newest(p) == Some(1) then p.one else Blanks(size))
  }

  /** Blanking the others changes nothing a load sees. */
  lemma ScrubbedKeeps(p: Pages, size: nat)
    requires p.Sized(size)
    ensures var q := OnlyNewest(p, size); q.Sized(size) && Newest(q) == Newest(p) && Contents(q) == Contents(p)
  {
    BlankIsNotIntact(size);
    if Newest(p) != Some(0) {
      OnlyPage(Blanks(size), p.one, p.zero);
    }
    if Newest(p) != Some(1) {
      OnlyPageZero(OnlyNewest(p, size).zero, Blanks(size), p.one);
    }
  }

  lemma OnlyPage(blank: seq<Byte>, one: seq<Byte>, was: seq<Byte>)
    requires |blank| >= HEADER_LEN && |one| >= HEADER_LEN && |was| >= HEADER_LEN
    requires !Intact(blank) && Newest(Pages(was, one)) != Some(0)
    ensures Newest(Pages(blank, one)) == Newest(Pages(was, one))
  {
  }

  lemma OnlyPageZero(zero: seq<Byte>, blank: seq<Byte>, was: seq<Byte>)
    requires |zero| >= HEADER_LEN && |blank| >= HEADER_LEN && |was| >= HEADER_LEN
    requires !Intact(blank) && Newest(Pages(zero, was)) != Some(1)
    ensures Newest(Pages(zero, blank)) == Newest(Pages(zero, was))
  {
  }

  /** The padded last word stays on the page. */
  lemma TailFits(len: nat, size: nat, word: nat)
    requires word > 0 && HEADER_LEN % word == 0 && size % word == 0 && len <= size - HEADER_LEN && len % word > 0
    ensures HEADER_LEN + (len - len % word) + word <= size
  {
    var h, s, q := HEADER_LEN / word, size / word, len / word;
    assert HEADER_LEN == word * h && size == word * s && len - len % word == word * q;
    assert word * (h + q) < word * s;
    assert h + q < s;
    assert word * (h + q + 1) <= word * s;
  }
}
