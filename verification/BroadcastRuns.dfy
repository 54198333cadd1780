// Runs of received broadcasts (libs/batman/src/engine.rs, `handle_broadcast`): a
// frame is delivered and flooded once, however many copies of it arrive.
module BroadcastRuns {
  import opened Finite
  import opened Seqno
  import opened SeqnoHealing
  import opened BroadcastDedup
  import opened Wrappers

  datatype Reception = Reception(orig: Mac, seqno: U32, at: nat)

  ghost predicate HandledAt(self: Mac, capacity: nat, tables: seq<Table>, rs: seq<Reception>, k: int)
    requires |tables| == |rs| + 1 && 0 <= k < |rs|
  {
    Handles(self, capacity, tables[k], rs[k].orig, rs[k].seqno, Wrap(rs[k].at), tables[k + 1])
  }

  /** The tables a run of receptions leads through. */
  ghost predicate Receives(self: Mac, capacity: nat, tables: seq<Table>, rs: seq<Reception>)
  {
    |tables| == |rs| + 1 && forall k :: 0 <= k < |rs| ==> HandledAt(self, capacity, tables, rs, k)
  }

  /** Reception `k` is delivered, and flooded while TTL remains. */
  predicate NewAt(self: Mac, tables: seq<Table>, rs: seq<Reception>, k: nat)
    requires k < |rs| < |tables|
  {
    New(self, tables[k], rs[k].orig, rs[k].seqno, Wrap(rs[k].at))
  }

  /** Reception `k` corrects the mark of its originator. */
  predicate ResyncAt(tables: seq<Table>, rs: seq<Reception>, k: nat)
    requires k < |rs| < |tables|
  {
    rs[k].orig in tables[k] &&
    Admit(BROADCAST, tables[k][rs[k].orig].track, rs[k].seqno, Wrap(rs[k].at)).1.Resynchronised?
  }

  /** The frames of `o` among receptions `a` to `b`. */
  function FramesOf(rs: seq<Reception>, o: Mac, a: nat, b: nat): (fs: seq<Frame>)
    requires a <= b <= |rs|
    ensures |fs| <= b - a
  {
    if a == b then []
    else FramesOf(rs, o, a, b - 1) + if rs[b - 1].orig == o then [Frame(rs[b - 1].seqno, rs[b - 1].at)] else []
  }

  /** Neither evicted nor corrected between receptions `a` and `b`. */
  ghost predicate Kept(tables: seq<Table>, rs: seq<Reception>, o: Mac, a: nat, b: nat)
    requires a <= b <= |rs| < |tables|
  {
    && (forall k :: a <= k <= b ==> o in tables[k])
    && (forall k :: a <= k < b && rs[k].orig == o ==> !ResyncAt(tables, rs, k))
  }

  /** Receptions of others leave the entry of `o` alone, unless they evict it. */
  lemma OthersKeep(self: Mac, capacity: nat, tables: seq<Table>, rs: seq<Reception>, o: Mac, k: nat)
    requires Receives(self, capacity, tables, rs) && k < |rs| && rs[k].orig != o
    requires o in tables[k] && o in tables[k + 1]
    ensures tables[k + 1][o] == tables[k][o]
  {
    assert HandledAt(self, capacity, tables, rs, k);
  }

  lemma OwnMoves(self: Mac, capacity: nat, tables: seq<Table>, rs: seq<Reception>, o: Mac, k: nat)
    requires Receives(self, capacity, tables, rs) && k < |rs| && rs[k].orig == o != self && o in tables[k]
    ensures o in tables[k + 1]
    ensures tables[k + 1][o].track == SeqnoHealing.Step(BROADCAST, tables[k][o].track, Frame(rs[k].seqno, rs[k].at)).0
  {
    assert HandledAt(self, capacity, tables, rs, k);
  }

  lemma {:induction false} TrackFollows(self: Mac, capacity: nat, tables: seq<Table>, rs: seq<Reception>,
                                        o: Mac, a: nat, b: nat)
    requires Receives(self, capacity, tables, rs) && a <= b <= |rs| && o != self && Kept(tables, rs, o, a, b)
    ensures Follows(BROADCAST, tables[a][o].track, FramesOf(rs, o, a, b), tables[b][o].track)
    decreases b
  {
    if a < b {
      var k := b - 1;
      TrackFollows(self, capacity, tables, rs, o, a, k);
      if rs[k].orig == o {
        OwnMoves(self, capacity, tables, rs, o, k);
        assert !ResyncAt(tables, rs, k);
        FollowsMore(BROADCAST, tables[a][o].track, FramesOf(rs, o, a, k), Frame(rs[k].seqno, rs[k].at),
                    tables[k][o].track);
      } else {
        OthersKeep(self, capacity, tables, rs, o, k);
        assert FramesOf(rs, o, a, b) == FramesOf(rs, o, a, k);
      }
    }
  }

  /** A new frame leaves its number as the mark. */
  lemma NewSetsMark(self: Mac, capacity: nat, tables: seq<Table>, rs: seq<Reception>, i: nat)
    requires Receives(self, capacity, tables, rs) && i < |rs| && NewAt(self, tables, rs, i)
    ensures rs[i].orig in tables[i + 1] && tables[i + 1][rs[i].orig].track.high == rs[i].seqno
  {
    assert HandledAt(self, capacity, tables, rs, i);
  }

  /** Each originator's number is delivered and flooded once, until the originator is
      evicted, its mark is corrected, or it has sent enough frames to run its counter
      right round. */
  lemma FloodedOnce(self: Mac, capacity: nat, tables: seq<Table>, rs: seq<Reception>, i: nat, j: nat)
    requires Receives(self, capacity, tables, rs) && i < j < |rs|
    requires rs[i].orig == rs[j].orig && rs[i].seqno == rs[j].seqno
    requires NewAt(self, tables, rs, i) && NewAt(self, tables, rs, j)
    requires Kept(tables, rs, rs[i].orig, i + 1, j + 1)
    ensures |FramesOf(rs, rs[i].orig, i + 1, j + 1)| * BROADCAST.window >= MODULUS
  {
    var o := rs[i].orig;
    NewSetsMark(self, capacity, tables, rs, i);
    NewSetsMark(self, capacity, tables, rs, j);
    var t, u := tables[i + 1][o].track, tables[j][o].track;
    var fs, f := FramesOf(rs, o, i + 1, j), Frame(rs[j].seqno, rs[j].at);
    assert Kept(tables, rs, o, i + 1, j);
    TrackFollows(self, capacity, tables, rs, o, i + 1, j);
    OwnMoves(self, capacity, tables, rs, o, j);
    assert !ResyncAt(tables, rs, j);
    FollowsMore(BROADCAST, t, fs, f, u);
    AllTheWayRound(BROADCAST, t, fs + [f], tables[j + 1][o].track);
  }

  // ------------------------------------------------------------ who is evicted

  /** Reception `k` writes the mark of its originator. */
  predicate WroteAt(self: Mac, tables: seq<Table>, rs: seq<Reception>, k: nat)
    requires k < |rs| < |tables|
  {
    NewAt(self, tables, rs, k) || ResyncAt(tables, rs, k)
  }

  /** Reception `j` is the last before `k` to write the mark of `o`. */
  ghost predicate LastWrite(self: Mac, tables: seq<Table>, rs: seq<Reception>, o: Mac, k: nat, j: nat)
    requires k <= |rs| < |tables|
  {
    && j < k && rs[j].orig == o && WroteAt(self, tables, rs, j)
    && forall i :: j < i < k && rs[i].orig == o ==> !WroteAt(self, tables, rs, i)
  }

  lemma {:induction false} NeverSelf(self: Mac, capacity: nat, tables: seq<Table>, rs: seq<Reception>, k: nat)
    requires Receives(self, capacity, tables, rs) && tables[0] == map[] && k <= |rs|
    ensures self !in tables[k]
  {
    if k > 0 {
      NeverSelf(self, capacity, tables, rs, k - 1);
      assert HandledAt(self, capacity, tables, rs, k - 1);
    }
  }

  lemma OwnUpdated(self: Mac, capacity: nat, tables: seq<Table>, rs: seq<Reception>, k: nat)
    requires Receives(self, capacity, tables, rs) && k < |rs| && rs[k].orig != self
    ensures var o := rs[k].orig;
            && o in tables[k + 1]
            && (WroteAt(self, tables, rs, k) ==> tables[k + 1][o].updated == Wrap(rs[k].at))
            && (!WroteAt(self, tables, rs, k) ==> o in tables[k] && tables[k + 1][o].updated == tables[k][o].updated)
  {
    assert HandledAt(self, capacity, tables, rs, k);
  }

  /** The stamp of an entry is the time its mark was last written. */
  lemma {:induction false} StampIsLastWrite(self: Mac, capacity: nat, tables: seq<Table>, rs: seq<Reception>, o: Mac,
                                            k: nat) returns (j: nat)
    requires Receives(self, capacity, tables, rs) && tables[0] == map[] && k <= |rs| && o in tables[k]
    ensures LastWrite(self, tables, rs, o, k, j) && tables[k][o].updated == Wrap(rs[j].at)
  {
    NeverSelf(self, capacity, tables, rs, k);
    var last := k - 1;
    if rs[last].orig == o {
      OwnUpdated(self, capacity, tables, rs, last);
    } else {
      assert HandledAt(self, capacity, tables, rs, last);
      OthersKeep(self, capacity, tables, rs, o, last);
    }
    if rs[last].orig == o && WroteAt(self, tables, rs, last) {
      j := last;
    } else {
      j := StampIsLastWrite(self, capacity, tables, rs, o, last);
    }
  }

  lemma OneLastWrite(self: Mac, tables: seq<Table>, rs: seq<Reception>, o: Mac, k: nat, i: nat, j: nat)
    requires k <= |rs| < |tables|
    requires LastWrite(self, tables, rs, o, k, i) && LastWrite(self, tables, rs, o, k, j)
    ensures i == j
  {
  }

  /** An originator is evicted only to make room for another in a full table, and only
      if no other's mark has gone longer without being written. */
  lemma EvictsOldest(self: Mac, capacity: nat, tables: seq<Table>, rs: seq<Reception>, k: nat, o: Mac, m: Mac, i: nat,
                     j: nat)
    requires Receives(self, capacity, tables, rs) && tables[0] == map[] && k < |rs|
    requires o in tables[k] && o !in tables[k + 1] && m in tables[k]
    requires LastWrite(self, tables, rs, o, k, i) && LastWrite(self, tables, rs, m, k, j)
    ensures rs[k].orig !in tables[k] && rs[k].orig in tables[k + 1] && |tables[k]| >= capacity
    ensures ElapsedSince(Wrap(rs[k].at), Wrap(rs[j].at)) <= ElapsedSince(Wrap(rs[k].at), Wrap(rs[i].at))
  {
    var a := StampIsLastWrite(self, capacity, tables, rs, o, k);
    var b := StampIsLastWrite(self, capacity, tables, rs, m, k);
    OneLastWrite(self, tables, rs, o, k, i, a);
    OneLastWrite(self, tables, rs, m, k, j, b);
    assert HandledAt(self, capacity, tables, rs, k);
  }

  /** And a new originator is refused its place by nobody. */
  lemma NewcomerKept(self: Mac, capacity: nat, tables: seq<Table>, rs: seq<Reception>, k: nat)
    requires Receives(self, capacity, tables, rs) && k < |rs| && rs[k].orig != self
    ensures rs[k].orig in tables[k + 1]
    ensures |tables[k]| < capacity ==> forall m :: m in tables[k] ==> m in tables[k + 1]
  {
    assert HandledAt(self, capacity, tables, rs, k);
  }
}
