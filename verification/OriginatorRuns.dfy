// Runs of received OGMs (libs/batman/src/engine.rs, `handle_ogm`): along any chain of
// nodes an OGM runs out of hops, and one node sends each number on once.
module OriginatorRuns {
  import opened Finite
  import opened Seqno
  import opened SeqnoHealing
  import opened Originators
  import opened Wrappers

  type Table = map<Mac, Record>

  // ----------------------------------------------------------- from node to node

  ghost predicate PassedAt(chain: seq<Ogm>, relays: seq<Relay>, k: int)
    requires |chain| == |relays| + 1 && 0 <= k < |relays|
  {
    SentOn(chain[k], relays[k], chain[k + 1])
  }

  /** An OGM as node after node receives it and sends it on. */
  ghost predicate Passed(chain: seq<Ogm>, relays: seq<Relay>)
  {
    |chain| == |relays| + 1 && forall k :: 0 <= k < |relays| ==> PassedAt(chain, relays, k)
  }

  /** Every node that sends it on costs a hop and at least ten of its quality, so it is
      sent on fewer times than its TTL, whatever loops the nodes form. */
  lemma {:induction false} ChainEnds(chain: seq<Ogm>, relays: seq<Relay>, k: nat)
    requires Passed(chain, relays) && k <= |relays|
    ensures chain[k].orig == chain[0].orig && chain[k].seqno == chain[0].seqno
    ensures k > 0 ==> k <= chain[0].ttl - 1
    ensures chain[k].ttl == chain[0].ttl - k
    ensures chain[k].tq <= (if chain[0].tq < 10 * k then 0 else chain[0].tq - 10 * k)
    ensures forall j :: 0 <= j < k && relays[j].quality.Some? ==> chain[k].tq <= relays[j].quality.value
  {
    if k > 0 {
      ChainEnds(chain, relays, k - 1);
      assert PassedAt(chain, relays, k - 1);
    }
  }

  // ------------------------------------------------------------ at one node

  /** What happens to the table: an OGM arrives, or records are pruned and dropped. */
  datatype Event = Heard(o: Ogm, relay: Relay, echo: bool, at: nat) | Pruned

  ghost predicate SameTracks(table: Table, after: Table)
  {
    forall m :: m in after ==> m in table && after[m].track == table[m].track
  }

  ghost predicate HappensAt(self: Mac, capacity: nat, tables: seq<Table>, es: seq<Event>, k: int)
    requires |tables| == |es| + 1 && 0 <= k < |es|
  {
    match es[k]
    case Pruned => SameTracks(tables[k], tables[k + 1])
    case Heard(o, relay, echo, at) => Hears(self, capacity, tables[k], o, relay, echo, Wrap(at), tables[k + 1])
  }

  ghost predicate Happens(self: Mac, capacity: nat, tables: seq<Table>, es: seq<Event>)
  {
    |tables| == |es| + 1 && forall k :: 0 <= k < |es| ==> HappensAt(self, capacity, tables, es, k)
  }

  /** The purge is such a pruning. */
  lemma PurgePrunes(table: Table, rest: set<Mac>, after: Table, lost: bool, now: U32, seed: U32,
                    selectable: Mac -> bool)
    requires Purging(table, rest, after, lost, now, seed, selectable)
    ensures SameTracks(table, after)
  {
  }

  /** Event `k` is an OGM of `o` that is taken in. */
  predicate From(self: Mac, es: seq<Event>, o: Mac, k: nat)
    requires k < |es|
  {
    es[k].Heard? && es[k].o.orig == o != self && !es[k].echo
  }

  /** Event `k` is sent on. */
  predicate SentOnAt(self: Mac, tables: seq<Table>, es: seq<Event>, k: nat)
    requires k < |es| < |tables|
  {
    es[k].Heard? && From(self, es, es[k].o.orig, k) && News(tables[k], es[k].o, Wrap(es[k].at)) && es[k].o.ttl > 1
  }

  predicate CorrectedAt(tables: seq<Table>, es: seq<Event>, o: Mac, k: nat)
    requires k < |es| < |tables|
  {
    es[k].Heard? && o in tables[k] && Admit(OGM, tables[k][o].track, es[k].o.seqno, Wrap(es[k].at)).1.Resynchronised?
  }

  function FramesOf(self: Mac, es: seq<Event>, o: Mac, a: nat, b: nat): (fs: seq<Frame>)
    requires a <= b <= |es|
    ensures |fs| <= b - a
  {
    if a == b then []
    else FramesOf(self, es, o, a, b - 1) +
         if From(self, es, o, b - 1) then [Frame(es[b - 1].o.seqno, es[b - 1].at)] else []
  }

  /** The record of `o` is neither dropped nor its mark corrected. */
  ghost predicate Kept(self: Mac, tables: seq<Table>, es: seq<Event>, o: Mac, a: nat, b: nat)
    requires a <= b <= |es| < |tables|
  {
    && (forall k :: a <= k <= b ==> o in tables[k])
    && (forall k :: a <= k < b && From(self, es, o, k) ==> !CorrectedAt(tables, es, o, k))
  }

  lemma OthersKeep(self: Mac, capacity: nat, tables: seq<Table>, es: seq<Event>, o: Mac, k: nat)
    requires Happens(self, capacity, tables, es) && k < |es| && o != self && !From(self, es, o, k)
    requires o in tables[k] && o in tables[k + 1]
    ensures tables[k + 1][o].track == tables[k][o].track
  {
    assert HappensAt(self, capacity, tables, es, k);
  }

  lemma OwnMoves(self: Mac, capacity: nat, tables: seq<Table>, es: seq<Event>, o: Mac, k: nat)
    requires Happens(self, capacity, tables, es) && k < |es| && From(self, es, o, k) && o in tables[k]
    ensures o in tables[k + 1]
    ensures tables[k + 1][o].track == SeqnoHealing.Step(OGM, tables[k][o].track, Frame(es[k].o.seqno, es[k].at)).0
  {
    assert HappensAt(self, capacity, tables, es, k);
  }

  lemma {:induction false} TrackFollows(self: Mac, capacity: nat, tables: seq<Table>, es: seq<Event>,
                                        o: Mac, a: nat, b: nat)
    requires Happens(self, capacity, tables, es) && a <= b <= |es| && o != self && Kept(self, tables, es, o, a, b)
    ensures Follows(OGM, tables[a][o].track, FramesOf(self, es, o, a, b), tables[b][o].track)
    decreases b
  {
    if a < b {
      var k := b - 1;
      TrackFollows(self, capacity, tables, es, o, a, k);
      if From(self, es, o, k) {
        OwnMoves(self, capacity, tables, es, o, k);
        assert !CorrectedAt(tables, es, o, k);
        FollowsMore(OGM, tables[a][o].track, FramesOf(self, es, o, a, k), Frame(es[k].o.seqno, es[k].at),
                    tables[k][o].track);
      } else {
        OthersKeep(self, capacity, tables, es, o, k);
        assert FramesOf(self, es, o, a, b) == FramesOf(self, es, o, a, k);
      }
    }
  }

  /** What is sent on leaves its number as the mark. */
  lemma SentSetsMark(self: Mac, capacity: nat, tables: seq<Table>, es: seq<Event>, i: nat)
    requires Happens(self, capacity, tables, es) && i < |es| && SentOnAt(self, tables, es, i)
    ensures var o := es[i].o; o.orig in tables[i + 1] && tables[i + 1][o.orig].track.high == o.seqno
  {
    assert HappensAt(self, capacity, tables, es, i);
  }

  /** One node sends each number of an originator on once, until its record is dropped,
      its mark is corrected, or enough OGMs have come to run the counter right round. */
  lemma SentOnOnce(self: Mac, capacity: nat, tables: seq<Table>, es: seq<Event>, i: nat, j: nat)
    requires Happens(self, capacity, tables, es) && i < j < |es|
    requires SentOnAt(self, tables, es, i) && SentOnAt(self, tables, es, j)
    requires es[i].o.orig == es[j].o.orig && es[i].o.seqno == es[j].o.seqno
    requires Kept(self, tables, es, es[i].o.orig, i + 1, j + 1)
    ensures |FramesOf(self, es, es[i].o.orig, i + 1, j + 1)| * 256 >= MODULUS
  {
    var o := es[i].o.orig;
    SentSetsMark(self, capacity, tables, es, i);
    SentSetsMark(self, capacity, tables, es, j);
    var t, u := tables[i + 1][o].track, tables[j][o].track;
    var fs, f := FramesOf(self, es, o, i + 1, j), Frame(es[j].o.seqno, es[j].at);
    assert Kept(self, tables, es, o, i + 1, j);
    TrackFollows(self, capacity, tables, es, o, i + 1, j);
    OwnMoves(self, capacity, tables, es, o, j);
    assert !CorrectedAt(tables, es, o, j);
    FollowsMore(OGM, t, fs, f, u);
    AllTheWayRound(OGM, t, fs + [f], tables[j + 1][o].track);
  }

  /** A record is evicted only for the OGM of an originator not yet known, in a full
      table, and only if none has gone unheard for longer. */
  lemma EvictsLongestUnheard(self: Mac, capacity: nat, table: Table, o: Ogm, relay: Relay, echo: bool, now: U32,
                             after: Table, lost: Mac, m: Mac)
    requires Hears(self, capacity, table, o, relay, echo, now, after) && lost in table && lost !in after && m in table
    ensures o.orig != self && !echo && o.orig !in table && o.orig in after && |table| >= capacity
    ensures ElapsedSince(now, table[m].heard) <= ElapsedSince(now, table[lost].heard)
  {
  }

  /** Nothing but its own OGM changes a record, and no OGM is refused a place. */
  lemma OwnRecordOnly(self: Mac, capacity: nat, table: Table, o: Ogm, relay: Relay, echo: bool, now: U32,
                      after: Table, m: Mac)
    requires Hears(self, capacity, table, o, relay, echo, now, after)
    ensures m != o.orig && m in after ==> m in table && after[m] == table[m]
    ensures o.orig != self && !echo ==> o.orig in after
    ensures |table| < capacity && m in table ==> m in after
  {
  }
}
