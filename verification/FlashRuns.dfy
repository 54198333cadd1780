// Many saves, any of them cut off while it writes (libs/wayfinder-storage/src/flash.rs,
// `save` and `load`): what is loaded afterwards is never older than the last save that
// was written in full.
module FlashRuns {
  import opened FlashPage
  import opened FlashStore
  import opened Wrappers

  /** A save of `data` of which the first `landed` bytes of the page were written. */
  datatype Save = Save(data: seq<Byte>, landed: nat)
  {
    predicate Fits(size: nat)
    {
      |data| <= size - HEADER_LEN && landed <= size
    }

    /** Header and payload have landed. */
    predicate InFull()
    {
      landed >= HEADER_LEN + |data|
    }
  }

  predicate AllFit(saves: seq<Save>, size: nat)
  {
    forall i :: 0 <= i < |saves| ==> saves[i].Fits(size)
  }

  function After(p: Pages, saves: seq<Save>, size: nat): (q: Pages)
    requires p.Sized(size) && AllFit(saves, size)
    ensures q.Sized(size)
  {
    if saves == [] then p
    else
      var last := saves[|saves| - 1];
      assert last.Fits(size);
      CutAt(After(p, saves[..|saves| - 1], size), last.data, size, last.landed)
  }

  /** The generation a load goes by, or -1 for an empty store. */
  function Age(p: Pages): int
    requires |p.zero| >= HEADER_LEN && |p.one| >= HEADER_LEN
  {
    if Newest(p).Some? then Generation(p.Get(Newest(p).value)) else -1
  }

  /** A completed save is one whose whole page was written. */
  lemma CompletedIsInFull(p: Pages, data: seq<Byte>, size: nat)
    requires p.Sized(size) && |data| <= size - HEADER_LEN
    ensures CutAt(p, data, size, size) == Saved(p, data, size) && Save(data, size).InFull()
  {
    var page := PageOf(Target(p).1, data, size);
    assert Torn(page, size) == page;
  }

  /** A save, however far it gets, ages the store by at most one generation. */
  lemma AgesByOne(p: Pages, data: seq<Byte>, size: nat, n: nat)
    requires p.Sized(size) && |data| <= size - HEADER_LEN && n <= size && !AtLimit(p)
    ensures Age(CutAt(p, data, size, n)) <= Age(p) + 1
  {
    var (i, g) := Target(p);
    var t := Torn(PageOf(g, data, size), n);
    if n < 12 {
      TornHeaderInvalid(g, data, size, n);
    } else {
      TornValidIff(g, data, size, n);
    }
    if Newest(p).Some? {
      OtherPageHolds(p, size, t);
    }
  }

  /** What may be loaded: what a save in full wrote, or, after others, what might have
      been loaded before or what the last of them was writing. */
  function Candidates(p: Pages, saves: seq<Save>): set<Option<seq<Byte>>>
    requires |p.zero| >= HEADER_LEN && |p.one| >= HEADER_LEN
  {
    if saves == [] then {Contents(p)}
    else
      var last := saves[|saves| - 1];
      {Some(last.data)} + if last.InFull() then {} else Candidates(p, saves[..|saves| - 1])
  }

  /** No torn page of the run passes for a blob it is not. */
  predicate NoCoincidence(p: Pages, saves: seq<Save>, size: nat)
    requires p.Sized(size) && AllFit(saves, size)
  {
    saves == [] ||
    (var last := saves[|saves| - 1];
     var before := After(p, saves[..|saves| - 1], size);
     && last.Fits(size) && !Coincides(before, last.data, size, last.landed)
     && NoCoincidence(p, saves[..|saves| - 1], size))
  }

  lemma {:induction false} AgesWithSaves(p: Pages, saves: seq<Save>, size: nat)
    requires p.Sized(size) && AllFit(saves, size) && Age(p) + |saves| <= MAX_GENERATION
    ensures Age(After(p, saves, size)) <= Age(p) + |saves|
    decreases |saves|
  {
    if saves != [] {
      var front, last := saves[..|saves| - 1], saves[|saves| - 1];
      AgesWithSaves(p, front, size);
      assert last.Fits(size);
      AgesByOne(After(p, front, size), last.data, size, last.landed);
    }
  }

  /** Over any run of saves, each complete or cut off at any byte of its write, short of
      the counter's limit and of a checksum coincidence, a load returns a candidate. */
  lemma {:induction false} LoadsCandidate(p: Pages, saves: seq<Save>, size: nat)
    requires p.Sized(size) && AllFit(saves, size) && NoCoincidence(p, saves, size)
    requires Age(p) + |saves| <= MAX_GENERATION
    ensures Contents(After(p, saves, size)) in Candidates(p, saves)
    decreases |saves|
  {
    if saves != [] {
      var front, last := saves[..|saves| - 1], saves[|saves| - 1];
      LoadsCandidate(p, front, size);
      AgesWithSaves(p, front, size);
      SaveIsAtomicIff(After(p, front, size), last.data, size, last.landed);
    }
  }

  /** And a candidate is never older than a save that was written in full: it is what
      that save or a later one wrote. */
  lemma {:induction false} CandidateNoOlder(p: Pages, saves: seq<Save>, k: nat, blob: Option<seq<Byte>>)
    returns (j: nat)
    requires |p.zero| >= HEADER_LEN && |p.one| >= HEADER_LEN
    requires k < |saves| && saves[k].InFull() && blob in Candidates(p, saves)
    ensures k <= j < |saves| && blob == Some(saves[j].data)
    decreases |saves|
  {
    var last := |saves| - 1;
    if blob == Some(saves[last].data) {
      j := last;
    } else {
      j := CandidateNoOlder(p, saves[..last], k, blob);
    }
  }

  /** So no sequence of power cuts loses a save that was written in full. */
  lemma NothingCompleteIsLost(p: Pages, saves: seq<Save>, size: nat, k: nat) returns (j: nat)
    requires p.Sized(size) && AllFit(saves, size) && NoCoincidence(p, saves, size)
    requires Age(p) + |saves| <= MAX_GENERATION && k < |saves| && saves[k].InFull()
    ensures k <= j < |saves| && Contents(After(p, saves, size)) == Some(saves[j].data)
  {
    LoadsCandidate(p, saves, size);
    j := CandidateNoOlder(p, saves, k, Contents(After(p, saves, size)));
  }
}
