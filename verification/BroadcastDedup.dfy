// Flooded broadcasts in the routing engine (libs/batman/src/engine.rs,
// `handle_broadcast`): the bounded table that decides, per originator, whether a
// frame is new enough to deliver and flood onward.
module BroadcastDedup {
  import opened Finite
  import opened Seqno
  import opened Wrappers

  type Mac = nat

  datatype Entry = Entry(track: Track, updated: U32)

  /** What the caller is told to do. A frame to flood carries its new TTL, and is
      missing when it did not fit the reply. */
  datatype Action = Consumed | DeliverLocal | DeliverAndFlood(sent: Option<nat>)

  type Table = map<Mac, Entry>

  /** A frame of `orig` is new to the table: unknown, or ahead of its mark. */
  predicate New(self: Mac, table: Table, orig: Mac, seqno: U32, now: U32)
  {
    orig != self && (orig in table ==> Admit(BROADCAST, table[orig].track, seqno, now).1.Advances())
  }

  /** What a reception does to the table: nothing for a frame of ours, an admission for
      a known originator, and otherwise a new entry, in the place of the longest
      untouched one when the table is full. */
  ghost predicate Handles(self: Mac, capacity: nat, table: Table, orig: Mac, seqno: U32, now: U32, after: Table)
  {
    if orig == self then after == table
    else if orig in table then
      var (t, verdict) := Admit(BROADCAST, table[orig].track, seqno, now);
      after == table[orig := Entry(t, if verdict.Wrote() then now else table[orig].updated)]
    else if |table| < capacity then after == table[orig := Entry(Track(seqno, None), now)]
    else exists victim: Mac :: LongestUntouched(table, now, victim)
           && after == (table - {victim})[orig := Entry(Track(seqno, None), now)]
  }

  /** By number: up to 1024 ahead of the mark is new and becomes the mark, up to 64 behind
      it is a copy and leaves the table alone, and anything else is new only if it
      completes a correction, never within 30 seconds of the first such number. */
  lemma NewByNumber(self: Mac, capacity: nat, table: Table, orig: Mac, seqno: U32, now: U32, after: Table)
    requires orig != self && orig in table && Handles(self, capacity, table, orig, seqno, now, after)
    ensures var ahead := Signed(seqno, table[orig].track.high);
            && (1 <= ahead <= 1024 ==>
                  New(self, table, orig, seqno, now) && after == table[orig := Entry(Track(seqno, None), now)])
            && (-64 <= ahead <= 0 ==> !New(self, table, orig, seqno, now) && after == table)
            && (!(-64 <= ahead <= 1024) && table[orig].track.watch.None? ==>
                  !New(self, table, orig, seqno, now)
                  && var watched := Track(table[orig].track.high, Some(Watch(now, seqno)));
                     after == table[orig := table[orig].(track := watched)])
            && (!(-64 <= ahead <= 1024) && table[orig].track.watch.Some?
                && ElapsedSince(now, table[orig].track.watch.value.since) < 30_000 ==>
                  !New(self, table, orig, seqno, now) && after == table)
  {
    SelfElapsed(now);
  }

  lemma SelfElapsed(now: U32)
    ensures ElapsedSince(now, now) == 0
  {
  }

  /** `victim` has gone longest without its mark being written. */
  ghost predicate LongestUntouched(table: Table, now: U32, victim: Mac)
  {
    victim in table
    && forall m :: m in table ==> ElapsedSince(now, table[m].updated) <= ElapsedSince(now, table[victim].updated)
  }

  class Dedup {
    const self: Mac
    const capacity: nat
    var table: Table
    var resyncs: U32
    var refusals: U32
    var evictions: U32
    var oversize: U32

    ghost predicate Valid()
      reads this
    {
      && capacity > 0 && |table| <= capacity && self !in table
      && forall m :: m in table ==> WatchJustified(BROADCAST, table[m].track)
    }

    constructor (self: Mac, capacity: nat)
      requires capacity > 0
      ensures Valid() && table == map[] && this.self == self && this.capacity == capacity
    {
      this.self, this.capacity := self, capacity;
      table, resyncs, refusals, evictions, oversize := map[], 0, 0, 0, 0;
    }

    method FindVictim(now: U32) returns (victim: Mac)
      requires table != map[]
      ensures LongestUntouched(table, now, victim)
    {
      var rest := table.Keys;
      victim :| victim in rest;
      while rest != {}
        invariant rest <= table.Keys && victim in table
        invariant forall m :: m in table.Keys - rest ==>
                    ElapsedSince(now, table[m].updated) <= ElapsedSince(now, table[victim].updated)
        decreases rest
      {
        var m :| m in rest;
        if ElapsedSince(now, table[victim].updated) <= ElapsedSince(now, table[m].updated) {
          victim := m;
        }
        rest := rest - {m};
      }
    }

    /** Receive a broadcast; `fits` says the flooded copy fits the reply. It is
        delivered exactly when it is new, and every way it is dropped is counted. */
    method HandleBroadcast(orig: Mac, seqno: U32, ttl: nat, now: U32, fits: bool) returns (a: Action)
      requires Valid()
      modifies this
      ensures Valid() && Handles(self, capacity, old(table), orig, seqno, now, table)
      ensures a == Consumed <==> !New(self, old(table), orig, seqno, now)
      ensures New(self, old(table), orig, seqno, now) ==>
                a == if ttl <= 1 then DeliverLocal else DeliverAndFlood(if fits then Some(ttl - 1) else None)
      ensures orig != self && orig in old(table) ==>
                var verdict := Admit(BROADCAST, old(table)[orig].track, seqno, now).1;
                && resyncs == (if verdict.Resynchronised? then Saturating(old(resyncs)) else old(resyncs))
                && refusals == (if verdict.Advances() || verdict.Copy? then old(refusals)
                                else Saturating(old(refusals)))
      ensures orig == self || orig !in old(table) ==> resyncs == old(resyncs) && refusals == old(refusals)
      ensures evictions == if orig != self && orig !in old(table) && |old(table)| >= capacity
                           then Saturating(old(evictions)) else old(evictions)
      ensures oversize == if a == DeliverAndFlood(None) then Saturating(old(oversize)) else old(oversize)
    {
      if orig == self {
        return Consumed;
      }
      if orig in table {
        var entry := table[orig];
        AdmitKeepsWatchJustified(BROADCAST, entry.track, seqno, now);
        var (t, verdict) := Admit(BROADCAST, entry.track, seqno, now);
        table := table[orig := Entry(t, if verdict.Wrote() then now else entry.updated)];
        assert table.Keys == old(table).Keys;
        SameSize(old(table), table);
        if verdict.Resynchronised? {
          resyncs := Saturating(resyncs);
        }
        if !verdict.Advances() {
          if !verdict.Copy? {
            refusals := Saturating(refusals);
          }
          return Consumed;
        }
      } else {
        Admitted(orig, seqno, now);
      }
      if ttl <= 1 {
        return DeliverLocal;
      }
      if !fits {
        oversize := Saturating(oversize);
        return DeliverAndFlood(None);
      }
      return DeliverAndFlood(Some(ttl - 1));
    }

    /** Take an unknown originator on trust. */
    method Admitted(orig: Mac, seqno: U32, now: U32)
      requires Valid() && orig != self && orig !in table
      modifies this`table, this`evictions
      ensures Valid() && Handles(self, capacity, old(table), orig, seqno, now, table)
      ensures evictions == if |old(table)| >= capacity then Saturating(old(evictions)) else old(evictions)
    {
      if |table| >= capacity {
        var victim := FindVictim(now);
        RemoveSize(table, victim);
        table := table - {victim};
        evictions := Saturating(evictions);
      }
      PutSize(table, orig, Entry(Track(seqno, None), now));
      table := table[orig := Entry(Track(seqno, None), now)];
    }
  }
}
