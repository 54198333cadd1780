// What a run of frames does to a high-water mark: numbers are admitted once, a
// wrong mark is corrected by the originator's own traffic, and exactly how fast
// that traffic may be for the correction to work.
module SeqnoHealing {
  import opened Seqno
  import opened Wrappers

  /** A frame's number and the millisecond it arrives at, counted from boot. */
  datatype Frame = Frame(seqno: U32, at: nat)

  function Step(b: Bands, t: Track, f: Frame): (Track, Admission)
  {
    Admit(b, t, f.seqno, Wrap(f.at))
  }

  /** The track after the first `i` frames. */
  function StateAt(b: Bands, t: Track, fs: seq<Frame>, i: nat): Track
    requires i <= |fs|
  {
    if i == 0 then t else Step(b, StateAt(b, t, fs, i - 1), fs[i - 1]).0
  }

  /** What became of frame `i`. */
  function OutcomeAt(b: Bands, t: Track, fs: seq<Frame>, i: nat): Admission
    requires i < |fs|
  {
    Step(b, StateAt(b, t, fs, i), fs[i]).1
  }

  /** An originator's own frames: numbered one after the other from `s`, in the
      order of their arrival. */
  ghost predicate Sent(fs: seq<Frame>, s: int)
  {
    && (forall i :: 0 <= i < |fs| ==> fs[i].seqno == Wrap(s + i))
    && (forall i, j :: 0 <= i <= j < |fs| ==> fs[i].at <= fs[j].at)
  }

  lemma NextState(b: Bands, t: Track, fs: seq<Frame>, i: nat)
    requires i < |fs|
    ensures StateAt(b, t, fs, i + 1) == Step(b, StateAt(b, t, fs, i), fs[i]).0
  {
  }

  // ------------------------------------------------------------- permanence

  /** Once one frame of the originator is admitted, every later one is. */
  lemma {:induction false} OnceAdmittedAlways(b: Bands, t: Track, fs: seq<Frame>, s: int, k: nat, i: nat)
    requires Real(b) && Sent(fs, s) && k <= i < |fs| && OutcomeAt(b, t, fs, k).Advances()
    ensures OutcomeAt(b, t, fs, i).Advances()
    ensures StateAt(b, t, fs, i + 1) == Track(fs[i].seqno, None)
    decreases i
  {
    if i > k {
      OnceAdmittedAlways(b, t, fs, s, k, i - 1);
      SignedOfWrapped(s + i, s + i - 1);
      NextState(b, t, fs, i);
    }
  }

  /** A number a little behind the mark is dropped quietly, and so are those
      after it until one passes the mark. */
  lemma {:induction false} WalksUp(b: Bands, t: Track, fs: seq<Frame>, s: int, k: nat, h: int)
    requires Real(b) && Sent(fs, s) && k < |fs|
    requires Wrap(h) == StateAt(b, t, fs, k).high && 0 <= h - (s + k) <= b.tolerance
    requires h - s + 1 < |fs|
    ensures OutcomeAt(b, t, fs, h - s + 1).Advances()
    decreases h - s - k
  {
    SignedOfWrapped(s + k, h);
    NextState(b, t, fs, k);
    assert StateAt(b, t, fs, k + 1) == StateAt(b, t, fs, k);
    if h == s + k {
      SignedOfWrapped(s + k + 1, h);
    } else {
      WalksUp(b, t, fs, s, k + 1, h);
    }
  }

  // ---------------------------------------------------------------- correction

  /** From an implausible frame `k` that opens a watch, up to frame `i`: either
      some frame has got through, or the mark and the watch stand. */
  lemma {:induction false} WatchStands(b: Bands, t: Track, fs: seq<Frame>, s: int, k: nat, i: nat) returns (w: int)
    requires Real(b) && Sent(fs, s) && k < i && i + b.tolerance + 1 < |fs|
    requires StateAt(b, t, fs, k).watch.None?
    requires Classify(b, StateAt(b, t, fs, k).high, fs[k].seqno).Implausible?
    requires fs[i - 1].at - fs[k].at < b.reset
    ensures w == -1 || (k <= w <= i + b.tolerance && OutcomeAt(b, t, fs, w).Advances())
    ensures w == -1 ==>
              StateAt(b, t, fs, i) == Track(StateAt(b, t, fs, k).high, Some(Watch(Wrap(fs[k].at), fs[k].seqno)))
    decreases i
  {
    NextState(b, t, fs, i - 1);
    if i == k + 1 {
      ElapsedTrue(fs[k].at, fs[k].at);
      w := -1;
    } else {
      w := WatchStands(b, t, fs, s, k, i - 1);
      if w == -1 {
        w := FrameAgainstWatch(b, t, fs, s, k, i - 1);
      }
    }
  }

  /** One more frame while the watch stands and its time has not come. */
  lemma FrameAgainstWatch(b: Bands, t: Track, fs: seq<Frame>, s: int, k: nat, m: nat) returns (w: int)
    requires Real(b) && Sent(fs, s) && k < m && m + 1 + b.tolerance + 1 < |fs|
    requires StateAt(b, t, fs, m).watch == Some(Watch(Wrap(fs[k].at), fs[k].seqno))
    requires fs[m].at - fs[k].at < b.reset
    ensures w == -1 || (m <= w <= m + b.tolerance + 1 && OutcomeAt(b, t, fs, w).Advances())
    ensures w == -1 ==> StateAt(b, t, fs, m + 1) == StateAt(b, t, fs, m)
  {
    var u := StateAt(b, t, fs, m);
    NextState(b, t, fs, m);
    match Classify(b, u.high, fs[m].seqno)
    case Advance => w := m;
    case Duplicate => w := Quietly(b, t, fs, s, m);
    case Implausible =>
      ElapsedTrue(fs[k].at, fs[m].at);
      w := -1;
  }

  /** A duplicate of the originator's leads to an admission within the tolerance. */
  lemma Quietly(b: Bands, t: Track, fs: seq<Frame>, s: int, m: nat) returns (w: int)
    requires Real(b) && Sent(fs, s) && m + b.tolerance + 1 < |fs|
    requires Classify(b, StateAt(b, t, fs, m).high, fs[m].seqno).Duplicate?
    ensures m < w <= m + b.tolerance + 1 && OutcomeAt(b, t, fs, w).Advances()
  {
    var h := Unwrapped(StateAt(b, t, fs, m).high, s + m);
    SignedOfWrapped(s + m, h);
    WalksUp(b, t, fs, s, m, h);
    w := h - s + 1;
  }

  /** With no watch open at frame `k`, the originator is heard again by the first
      frame `j` a reset period later, if it has not sent more than a window's
      worth by then. */
  lemma FreshWatchHeals(b: Bands, t: Track, fs: seq<Frame>, s: int, k: nat, j: nat) returns (w: int)
    requires Real(b) && Sent(fs, s) && k < j <= k + b.window && j + b.tolerance + 1 < |fs|
    requires StateAt(b, t, fs, k).watch.None?
    requires fs[j - 1].at - fs[k].at < b.reset <= fs[j].at - fs[k].at < HALF
    ensures k <= w <= j + b.tolerance + 1 && OutcomeAt(b, t, fs, w).Advances()
  {
    match Classify(b, StateAt(b, t, fs, k).high, fs[k].seqno)
    case Advance => w := k;
    case Duplicate => w := Quietly(b, t, fs, s, k);
    case Implausible =>
      w := WatchStands(b, t, fs, s, k, j);
      if w == -1 {
        match Classify(b, StateAt(b, t, fs, j).high, fs[j].seqno)
        case Advance => w := j;
        case Duplicate => w := Quietly(b, t, fs, s, j);
        case Implausible =>
          ElapsedTrue(fs[k].at, fs[j].at);
          SignedOfWrapped(s + j, s + k);
          w := j;
      }
  }

  /** A watch somebody else opened at `since` is gone by frame `j`, a reset period
      on, unless the originator has been heard already. */
  lemma {:induction false} ForeignWatchCloses(b: Bands, t: Track, fs: seq<Frame>, s: int, since: nat, k: nat, j: nat)
    returns (w: int, n: nat)
    requires Real(b) && Sent(fs, s) && k <= j && j + b.tolerance + 1 < |fs|
    requires StateAt(b, t, fs, k).watch.Some? && StateAt(b, t, fs, k).watch.value.since == Wrap(since)
    requires since <= fs[k].at && b.reset <= fs[j].at - since < HALF
    ensures w == -1 || (k <= w <= j + b.tolerance + 1 && OutcomeAt(b, t, fs, w).Advances())
    ensures w == -1 ==> k < n <= j + 1 && StateAt(b, t, fs, n).watch.None?
    decreases j - k
  {
    var u := StateAt(b, t, fs, k);
    n := k + 1;
    w := -1;
    NextState(b, t, fs, k);
    match Classify(b, u.high, fs[k].seqno)
    case Advance => w := k;
    case Duplicate => w := Quietly(b, t, fs, s, k);
    case Implausible =>
      ElapsedTrue(since, fs[k].at);
      if fs[k].at - since < b.reset {
        w, n := ForeignWatchCloses(b, t, fs, s, since, k + 1, j);
      }
  }

  /** The originator's pace: a reset period after frame `i` it is at most a
      window further on. `j` is the first frame that late. */
  ghost predicate Paced(b: Bands, fs: seq<Frame>, i: nat, j: nat)
  {
    && i < j <= i + b.window && j + b.tolerance + 1 < |fs|
    && fs[j - 1].at - fs[i].at < b.reset <= fs[j].at - fs[i].at
  }

  ghost predicate KeepsPace(b: Bands, fs: seq<Frame>, i: nat, last: nat)
  {
    exists j: nat :: j <= last && Paced(b, fs, i, j)
  }

  /** Whatever the mark and the watch hold, and whoever put it there, a paced
      originator's own frames correct it: from some frame on, every one is
      admitted. `first` is the first frame a reset period on, `last` bounds the
      first frame a reset period after any of those. */
  lemma Heals(b: Bands, t: Track, fs: seq<Frame>, s: int, since: nat, first: nat, last: nat) returns (w: nat)
    requires Real(b) && Sent(fs, s) && Paced(b, fs, 0, first) && first <= last < |fs|
    requires forall i :: 0 <= i <= first + 1 ==> KeepsPace(b, fs, i, last)
    requires t.watch.Some? ==> t.watch.value.since == Wrap(since)
    requires since <= fs[0].at && fs[|fs| - 1].at - since < HALF
    ensures w <= last + b.tolerance + 1
    ensures forall i :: w <= i < |fs| ==> OutcomeAt(b, t, fs, i).Advances()
  {
    var v: int := -1;
    var n: nat := 0;
    if t.watch.Some? {
      v, n := ForeignWatchCloses(b, t, fs, s, since, 0, first);
    }
    if v == -1 {
      assert KeepsPace(b, fs, n, last);
      var j: nat :| j <= last && Paced(b, fs, n, j);
      v := FreshWatchHeals(b, t, fs, s, n, j);
    }
    w := v;
    forall i | w <= i < |fs| ensures OutcomeAt(b, t, fs, i).Advances() {
      OnceAdmittedAlways(b, t, fs, s, w, i);
    }
  }

  // ------------------------------------------------- how fast is too fast, exactly

  ghost predicate Spaced(b: Bands, fs: seq<Frame>, i: nat, j: nat)
    requires i <= j < |fs|
  {
    fs[j].at - fs[i].at >= b.reset ==> j - i > b.window
  }

  /** Every reset period spans more frames than the window is wide. */
  ghost predicate TooFast(b: Bands, fs: seq<Frame>)
  {
    forall i, j :: 0 <= i <= j < |fs| ==> Spaced(b, fs, i, j)
  }

  /** No frame is anywhere near the mark. */
  ghost predicate Poisoned(b: Bands, high: U32, fs: seq<Frame>)
  {
    forall i :: 0 <= i < |fs| ==> Classify(b, high, fs[i].seqno).Implausible?
  }

  /** The originator's number `c`. */
  ghost function Nth(s: int, c: nat): U32
  {
    Wrap(s + c)
  }

  /** The mark frame `i` meets: the poisoned one, or a number of the originator's
      own that it has since left more than a window behind. */
  ghost predicate LeftBehind(b: Bands, poison: U32, high: U32, s: int, i: nat)
  {
    high == poison || exists c: nat :: c + b.window < i && high == Nth(s, c)
  }

  lemma LeftBehindImplausible(b: Bands, poison: U32, high: U32, fs: seq<Frame>, s: int, i: nat)
    requires Real(b) && Sent(fs, s) && Poisoned(b, poison, fs) && i < |fs| <= HALF
    requires LeftBehind(b, poison, high, s, i)
    ensures Classify(b, high, fs[i].seqno).Implausible?
  {
    if high != poison {
      var c: nat :| c + b.window < i && high == Nth(s, c);
      SignedOfWrapped(s + i, s + c);
    }
  }

  lemma ElapsedAtMost(earlier: nat, now: nat)
    requires earlier <= now
    ensures ElapsedSince(Wrap(now), Wrap(earlier)) <= now - earlier
  {
    var k := (now - earlier) / MODULUS;
    var near := now - k * MODULUS;
    ModUnique(near, now, k);
    ElapsedTrue(earlier, near);
  }

  /** The track frame `i` of a too fast originator meets: out of its reach, with
      at most a watch of its own making. */
  ghost predicate Suppressing(b: Bands, poison: U32, u: Track, fs: seq<Frame>, s: int, i: nat)
    requires i <= |fs|
  {
    && LeftBehind(b, poison, u.high, s, i)
    && (u.watch.None? ||
        exists a: nat :: a < i && u.watch == Some(Watch(Wrap(fs[a].at), Nth(s, a))))
  }

  lemma SuppressedAgain(b: Bands, poison: U32, u: Track, fs: seq<Frame>, s: int, i: nat)
    requires Real(b) && Sent(fs, s) && Poisoned(b, poison, fs) && TooFast(b, fs) && i < |fs| <= HALF
    requires Suppressing(b, poison, u, fs, s, i)
    ensures !Step(b, u, fs[i]).1.Advances() && Suppressing(b, poison, Step(b, u, fs[i]).0, fs, s, i + 1)
  {
    LeftBehindImplausible(b, poison, u.high, fs, s, i);
    if u.watch.Some? {
      var a: nat :| a < i && u.watch == Some(Watch(Wrap(fs[a].at), Nth(s, a)));
      ElapsedAtMost(fs[a].at, fs[i].at);
      assert Spaced(b, fs, a, i);
      SignedOfWrapped(s + i, s + a);
    } else {
      ElapsedTrue(fs[i].at, fs[i].at);
    }
  }

  /** A too fast originator stays suppressed: each correction restores a number
      it has already left a window behind. */
  lemma {:induction false} TooFastNeverHeals(b: Bands, t: Track, fs: seq<Frame>, s: int, i: nat)
    requires Real(b) && Sent(fs, s) && Poisoned(b, t.high, fs) && TooFast(b, fs)
    requires t.watch.None? && i < |fs| <= HALF
    ensures !OutcomeAt(b, t, fs, i).Advances()
    ensures Suppressing(b, t.high, StateAt(b, t, fs, i), fs, s, i)
    decreases i
  {
    if i > 0 {
      TooFastNeverHeals(b, t, fs, s, i - 1);
      SuppressedAgain(b, t.high, StateAt(b, t, fs, i - 1), fs, s, i - 1);
      NextState(b, t, fs, i - 1);
    }
    SuppressedAgain(b, t.high, StateAt(b, t, fs, i), fs, s, i);
  }

  /** Frames `d` milliseconds apart. */
  ghost function Steady(s: int, at: nat, d: nat, n: nat): (fs: seq<Frame>)
    ensures |fs| == n && forall i :: 0 <= i < n ==> fs[i] == Frame(Wrap(s + i), at + i * d)
  {
    seq(n, i requires 0 <= i < n => Frame(Wrap(s + i), at + i * d))
  }

  lemma MulMonotone(i: nat, j: nat, d: nat)
    requires i <= j
    ensures i * d <= j * d && j * d - i * d == (j - i) * d
  {
  }

  lemma SteadySent(s: int, at: nat, d: nat, n: nat)
    ensures Sent(Steady(s, at, d, n), s)
  {
    var fs := Steady(s, at, d, n);
    forall i, j | 0 <= i <= j < n ensures fs[i].at <= fs[j].at {
      MulMonotone(i, j, d);
    }
  }

  /** The least number of `d`-millisecond steps that fill a reset period. */
  lemma StepsToReset(reset: nat, d: nat, window: nat) returns (l: nat)
    requires 0 < reset <= window * d
    ensures 0 < l <= window && (l - 1) * d < reset <= l * d
  {
    l := 0;
    while l * d < reset
      invariant l <= window
      invariant l > 0 ==> (l - 1) * d < reset
      decreases window - l
    {
      if l == window {
        assert false;
      }
      l := l + 1;
    }
  }

  lemma SteadyTooFast(b: Bands, s: int, at: nat, d: nat, n: nat)
    requires d * b.window < b.reset
    ensures TooFast(b, Steady(s, at, d, n))
  {
    var fs := Steady(s, at, d, n);
    forall i, j | 0 <= i <= j < |fs| ensures Spaced(b, fs, i, j) {
      MulMonotone(i, j, d);
      if j - i <= b.window {
        MulMonotone(j - i, b.window, d);
      }
    }
  }

  /** An originator sending every `d` milliseconds against a poisoned mark gets
      through if and only if a window of its frames lasts a reset period. */
  lemma SteadyHealsIff(b: Bands, t: Track, s: int, at: nat, d: nat, n: nat)
    requires Real(b) && t.watch.None? && Poisoned(b, t.high, Steady(s, at, d, n))
    requires b.window + b.tolerance + 1 < n <= HALF && d + b.reset < HALF
    ensures (exists i :: 0 <= i < n && OutcomeAt(b, t, Steady(s, at, d, n), i).Advances())
       <==> d * b.window >= b.reset
  {
    var fs := Steady(s, at, d, n);
    SteadySent(s, at, d, n);
    if d * b.window >= b.reset {
      var l := StepsToReset(b.reset, d, b.window);
      assert l * d == (l - 1) * d + d;
      var w := FreshWatchHeals(b, t, fs, s, 0, l);
    } else {
      SteadyTooFast(b, s, at, d, n);
      forall i | 0 <= i < n ensures !OutcomeAt(b, t, fs, i).Advances() {
        TooFastNeverHeals(b, t, fs, s, i);
      }
    }
  }

  lemma SteadyPaced(b: Bands, s: int, at: nat, d: nat, n: nat, l: nat, i: nat)
    requires 0 < l <= b.window && (l - 1) * d < b.reset <= l * d && i + l + b.tolerance + 1 < n
    ensures Paced(b, Steady(s, at, d, n), i, i + l)
  {
    MulMonotone(i, i + l, d);
    MulMonotone(i, i + l - 1, d);
  }

  lemma SteadyKeepsPace(b: Bands, s: int, at: nat, d: nat, n: nat, l: nat, i: nat, last: nat)
    requires 0 < l <= b.window && (l - 1) * d < b.reset <= l * d && i + l <= last && last + b.tolerance + 1 < n
    ensures KeepsPace(b, Steady(s, at, d, n), i, last)
  {
    SteadyPaced(b, s, at, d, n, l, i);
  }

  lemma SteadyHealsAfter(b: Bands, t: Track, s: int, fs: seq<Frame>, since: nat, l: nat, last: nat) returns (w: nat)
    requires Real(b) && Sent(fs, s) && l <= b.window && last == 2 * l + 1 && last < |fs|
    requires Paced(b, fs, 0, l) && forall i :: 0 <= i <= l + 1 ==> KeepsPace(b, fs, i, last)
    requires t.watch.Some? ==> t.watch.value.since == Wrap(since)
    requires since <= fs[0].at && fs[|fs| - 1].at - since < HALF
    ensures w <= 2 * b.window + b.tolerance + 2
    ensures forall i :: w <= i < |fs| ==> OutcomeAt(b, t, fs, i).Advances()
  {
    w := Heals(b, t, fs, s, since, l, last);
  }

  /** Paced broadly enough, a steady sender is heard again whatever mark is held
      against it and whatever watch someone else has left open: within two windows of
      frames, and from then on for good. */
  lemma SteadyHeals(b: Bands, t: Track, s: int, at: nat, d: nat, n: nat, since: nat) returns (w: nat)
    requires Real(b) && d * b.window >= b.reset && 2 * b.window + b.tolerance + 3 < n
    requires t.watch.Some? ==> t.watch.value.since == Wrap(since)
    requires since <= at && at + n * d - since < HALF
    ensures w <= 2 * b.window + b.tolerance + 2
    ensures forall i :: w <= i < n ==> OutcomeAt(b, t, Steady(s, at, d, n), i).Advances()
  {
    var fs := Steady(s, at, d, n);
    SteadySent(s, at, d, n);
    MulMonotone(n - 1, n, d);
    var l := StepsToReset(b.reset, d, b.window);
    var last := 2 * l + 1;
    SteadyPaced(b, s, at, d, n, l, 0);
    forall i | 0 <= i <= l + 1 ensures KeepsPace(b, fs, i, last) {
      SteadyKeepsPace(b, s, at, d, n, l, i, last);
    }
    w := SteadyHealsAfter(b, t, s, fs, since, l, last);
  }

  const POISONED: U32 := 0x4000_0000

  lemma FarBehind(i: nat)
    requires i < 0x3FFF_FFBF
    ensures Classify(BROADCAST, POISONED, Wrap(0 + i)).Implausible?
  {
  }

  /** A mark forged far ahead of a node that then broadcasts every 29 ms: not one of
      its frames is admitted, in most of a year. */
  lemma TwentyNineMilliseconds(n: nat, i: nat)
    requires i < n < 0x3FFF_FFBF
    ensures !OutcomeAt(BROADCAST, Track(POISONED, None), Steady(0, 0, 29, n), i).Advances()
  {
    var fs := Steady(0, 0, 29, n);
    SteadySent(0, 0, 29, n);
    SteadyTooFast(BROADCAST, 0, 0, 29, n);
    forall k | 0 <= k < n ensures Classify(BROADCAST, POISONED, fs[k].seqno).Implausible? {
      FarBehind(k);
    }
    TooFastNeverHeals(BROADCAST, Track(POISONED, None), fs, 0, i);
  }

  /** For broadcasts the line falls between 29 and 30 milliseconds. */
  lemma BroadcastPace(d: nat)
    ensures d * BROADCAST.window >= BROADCAST.reset <==> d >= 30
    ensures d * OGM.window >= OGM.reset <==> d >= 118
  {
  }

  // ----------------------------------------------------------- ageing of a watch

  /** An implausible frame trips a watch opened at `since` exactly while its age
      is at least the reset period and under half the stamp range; once older,
      the watch suppresses the originator all over again. */
  lemma WatchTripsIff(b: Bands, t: Track, since: nat, f: Frame)
    requires Real(b) && t.watch.Some? && t.watch.value.since == Wrap(since)
    requires since <= f.at < since + MODULUS && Classify(b, t.high, f.seqno).Implausible?
    ensures Step(b, t, f).1.Resynchronised? <==> b.reset <= f.at - since < HALF
    ensures !Step(b, t, f).1.Resynchronised? ==> Step(b, t, f) == (t, Watching)
  {
    ElapsedTrue(since, f.at);
  }

  // ------------------------------------------------------------- at most once

  /** The farthest `n` admitted frames can carry the mark. */
  ghost function Windows(b: Bands, n: nat): nat
  {
    if n == 0 then 0 else Windows(b, n - 1) + b.window
  }

  lemma {:induction false} WindowsProduct(b: Bands, n: nat)
    ensures Windows(b, n) == n * b.window
  {
    if n > 0 {
      WindowsProduct(b, n - 1);
    }
  }

  /** Between resynchronisations the mark only moves forward, by at least one and
      at most a window per admitted frame. */
  lemma {:induction false} MarkMovesForward(b: Bands, t: Track, fs: seq<Frame>, i: nat, j: nat) returns (moved: nat)
    requires i < j <= |fs|
    requires forall k :: i <= k < j ==> !OutcomeAt(b, t, fs, k).Resynchronised?
    ensures StateAt(b, t, fs, j).high == Wrap(StateAt(b, t, fs, i).high + moved)
    ensures moved <= Windows(b, j - i)
    ensures OutcomeAt(b, t, fs, j - 1).Advanced? ==> moved > 0
    decreases j
  {
    var before: nat := 0;
    if j > i + 1 {
      before := MarkMovesForward(b, t, fs, i, j - 1);
    }
    NextState(b, t, fs, j - 1);
    assert !OutcomeAt(b, t, fs, j - 1).Resynchronised?;
    var d := MarkStep(b, StateAt(b, t, fs, j - 1), fs[j - 1]);
    moved := before + d;
    WrapAdds(StateAt(b, t, fs, i).high + before, d);
  }

  /** One frame moves the mark forward by at most a window. */
  lemma MarkStep(b: Bands, u: Track, f: Frame) returns (d: nat)
    requires !Step(b, u, f).1.Resynchronised?
    ensures d <= b.window && Step(b, u, f).0.high == Wrap(u.high + d)
    ensures Step(b, u, f).1.Advanced? ==> d > 0
  {
    d := 0;
    if Step(b, u, f).1.Advanced? {
      d := Signed(f.seqno, u.high);
      SignedAdds(f.seqno, u.high);
    }
  }

  lemma SignedAdds(next: U32, high: U32)
    ensures next == Wrap(high + Signed(next, high))
  {
  }

  lemma WrapAdds(x: int, d: int)
    ensures Wrap(Wrap(x) + d) == Wrap(x + d)
  {
    ModUnique(Wrap(x) + d, x + d, x / MODULUS);
  }

  /** Between resynchronisations a number is admitted once: a second admission
      takes enough frames to run the counter right round. */
  lemma AdmittedOnce(b: Bands, t: Track, fs: seq<Frame>, i: nat, j: nat)
    requires i < j < |fs| && fs[i].seqno == fs[j].seqno
    requires OutcomeAt(b, t, fs, i).Advances() && OutcomeAt(b, t, fs, j).Advances()
    requires forall k :: i < k <= j ==> !OutcomeAt(b, t, fs, k).Resynchronised?
    ensures (j - i) * b.window >= MODULUS
  {
    var moved := MarkMovesForward(b, t, fs, i + 1, j + 1);
    NextState(b, t, fs, i);
    NextState(b, t, fs, j);
    FullTurn(fs[i].seqno, moved);
    WindowsProduct(b, j - i);
  }

  lemma FullTurn(x: U32, moved: nat)
    requires Wrap(x + moved) == x && moved > 0
    ensures moved >= MODULUS
  {
  }

  // ------------------------------------------------- tracks followed through a run

  lemma {:induction false} StatePrefix(b: Bands, t: Track, fs: seq<Frame>, f: Frame, i: nat)
    requires i <= |fs|
    ensures StateAt(b, t, fs + [f], i) == StateAt(b, t, fs, i)
  {
    if i > 0 {
      StatePrefix(b, t, fs, f, i - 1);
    }
  }

  /** The track of `o` after a run of frames none of which resynchronises it. */
  ghost predicate Follows(b: Bands, t: Track, fs: seq<Frame>, after: Track)
  {
    && after == StateAt(b, t, fs, |fs|)
    && forall k :: 0 <= k < |fs| ==> !OutcomeAt(b, t, fs, k).Resynchronised?
  }

  lemma FollowsMore(b: Bands, t: Track, fs: seq<Frame>, f: Frame, u: Track)
    requires Follows(b, t, fs, u) && !Step(b, u, f).1.Resynchronised?
    ensures Follows(b, t, fs + [f], Step(b, u, f).0)
    ensures OutcomeAt(b, t, fs + [f], |fs|) == Step(b, u, f).1
  {
    forall k | 0 <= k <= |fs| ensures StateAt(b, t, fs + [f], k) == StateAt(b, t, fs, k) {
      StatePrefix(b, t, fs, f, k);
    }
    forall k | 0 <= k < |fs| ensures !OutcomeAt(b, t, fs + [f], k).Resynchronised? {
      assert !OutcomeAt(b, t, fs, k).Resynchronised?;
    }
  }

  /** Admitted again with no correction in between: the counter has been all the way
      round, at most a window per frame. */
  lemma AllTheWayRound(b: Bands, t: Track, fs: seq<Frame>, after: Track)
    requires Follows(b, t, fs, after) && fs != [] && t.high == after.high
    requires OutcomeAt(b, t, fs, |fs| - 1).Advanced?
    ensures |fs| * b.window >= MODULUS
  {
    var moved := MarkMovesForward(b, t, fs, 0, |fs|);
    FullTurn(t.high, moved);
    WindowsProduct(b, |fs|);
  }
}
