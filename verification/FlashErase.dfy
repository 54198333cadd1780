// Power lost while a save erases its page (libs/wayfinder-storage/src/flash.rs,
// `save`): when that cannot change what is loaded, and when it can.
module FlashErase {
  import opened FlashPage
  import opened FlashStore
  import opened Wrappers

  /** The page a save is about to erase. */
  function TargetPage(p: Pages): seq<Byte>
    requires |p.zero| >= HEADER_LEN && |p.one| >= HEADER_LEN
  {
    p.Get(Target(p).0)
  }

  /** A bit is set in the magic's place where the magic has none. Erasing only sets
      bits, so such a page cannot come to hold the magic. */
  predicate MagicLost(page: seq<Byte>)
    requires |page| >= HEADER_LEN
  {
    exists k :: 0 <= k < 4 && And(MAGIC[k], page[k], 8) != page[k]
  }

  lemma NeverIntact(before: seq<Byte>, page: seq<Byte>)
    requires |before| >= HEADER_LEN && MagicLost(before) && ErasedInPart(before, page)
    ensures !Intact(page)
  {
    var k :| 0 <= k < 4 && And(MAGIC[k], before[k], 8) != before[k];
    assert page[0..4][k] == page[k];
  }

  /** A blank page stays blank however its erase is cut off. */
  lemma BlankStaysBlank(n: nat, page: seq<Byte>)
    requires ErasedInPart(Blanks(n), page)
    ensures page == Blanks(n)
  {
    forall i | 0 <= i < n ensures page[i] == BLANK {
      EightBits();
      AndBlank(page[i], 8);
    }
  }

  lemma BlankHasNoMagic(n: nat)
    requires n >= HEADER_LEN
    ensures MagicLost(Blanks(n))
  {
    EightBits();
    AndBlank(MAGIC[0], 8);
    assert And(MAGIC[0], Blanks(n)[0], 8) != Blanks(n)[0];
  }

  /** Wherever the erase that begins a save of `data` is cut off, a load returns the
      old blob or the new one. */
  ghost predicate EraseHarmless(p: Pages, data: seq<Byte>, size: nat)
    requires p.Sized(size)
  {
    forall page :: ErasedInPart(TargetPage(p), page) ==>
      Contents(p.Set(Target(p).0, page)) == Contents(p) || Contents(p.Set(Target(p).0, page)) == Some(data)
  }

  /** Raising bits of the target page can give an intact page of a blob that is
      neither the old one nor the one being saved, whatever its generation. */
  ghost predicate CanRevive(p: Pages, data: seq<Byte>)
    requires |p.zero| >= HEADER_LEN && |p.one| >= HEADER_LEN
  {
    exists page :: ErasedInPart(TargetPage(p), page) && Third(p, data, page)
  }

  predicate Third(p: Pages, data: seq<Byte>, page: seq<Byte>)
    requires |p.zero| >= HEADER_LEN && |p.one| >= HEADER_LEN
  {
    |page| >= HEADER_LEN && Intact(page) && Payload(page) != data && Contents(p) != Some(Payload(page))
  }

  lemma RaisedGeneration(before: seq<Byte>, page: seq<Byte>)
    requires |before| >= HEADER_LEN && ErasedInPart(before, page)
    ensures ErasedInPart(before, GenerationErased(page))
  {
    var raised := GenerationErased(page);
    forall k | 0 <= k < |raised| ensures And(raised[k], before[k], 8) == before[k] {
      EightBits();
      AndBlank(before[k], 8);
      assert raised[k] == page[k] || raised[k] == BLANK;
    }
  }

  /** A page of a third blob, its generation raised all the way, is loaded. */
  lemma ThirdRevives(p: Pages, data: seq<Byte>, size: nat, page: seq<Byte>)
    requires p.Sized(size) && !Unbeatable(p) && ErasedInPart(TargetPage(p), page) && Third(p, data, page)
    ensures !EraseHarmless(p, data, size)
  {
    var raised := GenerationErased(page);
    RaisedGeneration(TargetPage(p), page);
    ErasedStaysIntact(page);
    if Newest(p).Some? {
      OtherPageHolds(p, size, raised);
    }
    assert Contents(p.Set(Target(p).0, raised)) == Some(Payload(page));
  }

  /** Without one, the target is loaded only if it holds the old blob or the new. */
  lemma NoThirdHarmless(p: Pages, data: seq<Byte>, size: nat, page: seq<Byte>)
    requires p.Sized(size) && ErasedInPart(TargetPage(p), page) && (Unbeatable(p) || !Third(p, data, page))
    ensures var q := p.Set(Target(p).0, page); Contents(q) == Contents(p) || Contents(q) == Some(data)
  {
    if Newest(p).Some? {
      OtherPageHolds(p, size, page);
    }
  }

  /** An erase cut off anywhere is harmless if and only if the store is unbeatable or
      the target page cannot be completed to a third blob: never if its magic is lost,
      as a blank page's is, and always if it still holds one. */
  lemma EraseHarmlessIff(p: Pages, data: seq<Byte>, size: nat)
    requires p.Sized(size)
    ensures EraseHarmless(p, data, size) <==> Unbeatable(p) || !CanRevive(p, data)
    ensures MagicLost(TargetPage(p)) ==> !CanRevive(p, data)
    ensures Third(p, data, TargetPage(p)) ==> CanRevive(p, data)
  {
    if Unbeatable(p) || !CanRevive(p, data) {
      forall page | ErasedInPart(TargetPage(p), page)
        ensures var q := p.Set(Target(p).0, page); Contents(q) == Contents(p) || Contents(q) == Some(data)
      {
        NoThirdHarmless(p, data, size, page);
      }
    } else {
      var page :| ErasedInPart(TargetPage(p), page) && Third(p, data, page);
      ThirdRevives(p, data, size, page);
    }
    WhatRevives(p, data);
  }

  lemma WhatRevives(p: Pages, data: seq<Byte>)
    requires |p.zero| >= HEADER_LEN && |p.one| >= HEADER_LEN
    ensures MagicLost(TargetPage(p)) ==> !CanRevive(p, data)
    ensures Third(p, data, TargetPage(p)) ==> CanRevive(p, data)
  {
    var target := TargetPage(p);
    if MagicLost(target) {
      forall page | ErasedInPart(target, page) ensures !Third(p, data, page) {
        NeverIntact(target, page);
      }
    }
    forall k | 0 <= k < |target| ensures And(target[k], target[k], 8) == target[k] {
      EightBits();
      AndSelf(target[k], 8);
    }
    assert ErasedInPart(target, target);
  }

  /** Where power fails during a save: some way through the erase, or with `n` bytes of
      the page written after it. */
  datatype Cut = Erasing(page: seq<Byte>) | Writing(n: nat)

  ghost predicate During(p: Pages, size: nat, cut: Cut)
    requires p.Sized(size)
  {
    match cut
    case Erasing(page) => ErasedInPart(TargetPage(p), page)
    case Writing(n) => n <= size
  }

  ghost function AfterCut(p: Pages, data: seq<Byte>, size: nat, cut: Cut): Pages
    requires p.Sized(size) && |data| <= size - HEADER_LEN && During(p, size, cut)
  {
    match cut
    case Erasing(page) => p.Set(Target(p).0, page)
    case Writing(n) => CutAt(p, data, size, n)
  }

  ghost predicate OldOrNew(p: Pages, data: seq<Byte>, size: nat, cut: Cut)
    requires p.Sized(size) && |data| <= size - HEADER_LEN && During(p, size, cut)
  {
    var after := Contents(AfterCut(p, data, size, cut));
    after == Contents(p) || after == Some(data)
  }

  /** Wherever the save is cut off, a load returns the old blob or the new one. */
  ghost predicate Atomic(p: Pages, data: seq<Byte>, size: nat)
    requires p.Sized(size) && |data| <= size - HEADER_LEN
  {
    && (forall page :: During(p, size, Erasing(page)) ==> OldOrNew(p, data, size, Erasing(page)))
    && forall n :: During(p, size, Writing(n)) ==> OldOrNew(p, data, size, Writing(n))
  }

  /** What `n` bytes of the save leave passes for a third blob. */
  predicate Mistaken(p: Pages, data: seq<Byte>, size: nat, n: nat)
    requires p.Sized(size) && |data| <= size - HEADER_LEN && n <= size
  {
    Coincides(p, data, size, n) && Contents(p) != Some(Payload(Torn(PageOf(Target(p).1, data, size), n)))
  }

  lemma WriteAtomicIff(p: Pages, data: seq<Byte>, size: nat, n: nat)
    requires p.Sized(size) && |data| <= size - HEADER_LEN && n <= size
    ensures OldOrNew(p, data, size, Writing(n)) <==> AtLimit(p) || !Mistaken(p, data, size, n)
  {
    SaveIsAtomicIff(p, data, size, n);
  }

  /** A save is atomic, in its erase and at every byte of its write, if and only if
      neither raising bits of the page it erases nor the bytes it has written can pass
      for a third blob and be taken for the newest. */
  lemma AtomicIff(p: Pages, data: seq<Byte>, size: nat)
    requires p.Sized(size) && |data| <= size - HEADER_LEN
    ensures Atomic(p, data, size) <==>
              && (Unbeatable(p) || !CanRevive(p, data))
              && (AtLimit(p) || forall n: nat :: n <= size ==> !Mistaken(p, data, size, n))
  {
    EraseAtomicIff(p, data, size);
    forall n: nat | n <= size
      ensures OldOrNew(p, data, size, Writing(n)) <==> AtLimit(p) || !Mistaken(p, data, size, n)
    {
      WriteAtomicIff(p, data, size, n);
    }
  }

  lemma EraseAtomicIff(p: Pages, data: seq<Byte>, size: nat)
    requires p.Sized(size) && |data| <= size - HEADER_LEN
    ensures (forall page :: During(p, size, Erasing(page)) ==> OldOrNew(p, data, size, Erasing(page)))
            <==> Unbeatable(p) || !CanRevive(p, data)
  {
    EraseHarmlessIff(p, data, size);
    forall page | ErasedInPart(TargetPage(p), page)
      ensures AfterCut(p, data, size, Erasing(page)) == p.Set(Target(p).0, page)
    {
    }
  }

  /** A store is scrubbed when every page but the newest is blank. */
  predicate Scrubbed(p: Pages, size: nat)
    requires p.Sized(size)
  {
    p == OnlyNewest(p, size)
  }

  /** A save into a scrubbed store is atomic wherever it is cut off, in the erase or in
      the write, unless a checksum coincides. */
  lemma ScrubbedSaveIsAtomic(p: Pages, data: seq<Byte>, size: nat, cut: Cut)
    requires p.Sized(size) && |data| <= size - HEADER_LEN && Scrubbed(p, size) && During(p, size, cut)
    ensures MagicLost(TargetPage(p)) && (cut.Erasing? ==> AfterCut(p, data, size, cut) == p)
    ensures cut.Writing? && !Coincides(p, data, size, cut.n) ==>
              var after := Contents(AfterCut(p, data, size, cut));
              after == Contents(p) || after == Some(data)
  {
    assert TargetPage(p) == Blanks(size);
    BlankHasNoMagic(size);
    match cut
    case Erasing(page) =>
      BlankStaysBlank(size, page);
    case Writing(n) =>
      SaveIsAtomicIff(p, data, size, n);
  }
}
