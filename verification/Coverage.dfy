// Greedy relay placement (sim/scenarios/coverage_per_relay.py): each relay goes
// to the candidate site that adds the most track samples to those already
// covered. Shares are kept as exact sample counts.
module Coverage {
  import opened Finite
  import opened Wrappers

  /** The samples a row of the coverage matrix marks. */
  function Marked(row: seq<bool>): set<nat>
  {
    set t: nat | t < |row| && row[t]
  }

  /** Every site has one flag per track sample. */
  ghost predicate Rectangular(matrix: seq<seq<bool>>, samples: nat)
  {
    forall i :: 0 <= i < |matrix| ==> |matrix[i]| == samples
  }

  /** The samples that at least one of `sites` covers. */
  ghost function Covered(matrix: seq<seq<bool>>, sites: seq<nat>): set<nat>
    requires forall i :: 0 <= i < |sites| ==> sites[i] < |matrix|
  {
    if sites == [] then {}
    else Covered(matrix, sites[..|sites| - 1]) + Marked(matrix[sites[|sites| - 1]])
  }

  /** How many samples site `i` adds to those `sites` already cover. */
  ghost function Gain(matrix: seq<seq<bool>>, sites: seq<nat>, i: nat): nat
    requires (forall j :: 0 <= j < |sites| ==> sites[j] < |matrix|) && i < |matrix|
  {
    |Marked(matrix[i]) - Covered(matrix, sites)|
  }

  /** `b` is the first of the unused sites that add the most. */
  ghost predicate Best(matrix: seq<seq<bool>>, sites: seq<nat>, b: nat)
    requires forall j :: 0 <= j < |sites| ==> sites[j] < |matrix|
  {
    && b < |matrix| && b !in sites
    && (forall i :: 0 <= i < |matrix| && i !in sites ==> Gain(matrix, sites, i) <= Gain(matrix, sites, b))
    && (forall i :: 0 <= i < b && i !in sites ==> Gain(matrix, sites, i) < Gain(matrix, sites, b))
  }

  /** Each site of `order` was the best choice after the ones before it. */
  ghost predicate Greedy(matrix: seq<seq<bool>>, order: seq<nat>)
  {
    && (forall j :: 0 <= j < |order| ==> order[j] < |matrix|)
    && forall j :: 0 <= j < |order| ==> BestAt(matrix, order, j)
  }

  ghost predicate BestAt(matrix: seq<seq<bool>>, order: seq<nat>, j: nat)
    requires j < |order| && forall i :: 0 <= i < |order| ==> order[i] < |matrix|
  {
    Best(matrix, order[..j], order[j])
  }

  /** The coverage after the first `j` relays of a greedy order. */
  ghost function CoverageAfter(matrix: seq<seq<bool>>, order: seq<nat>, j: nat): nat
    requires j <= |order| && forall i :: 0 <= i < |order| ==> order[i] < |matrix|
  {
    |Covered(matrix, order[..j])|
  }

  // ------------------------------------------------------------- submodularity

  lemma {:induction false} CoveredGrows(matrix: seq<seq<bool>>, sites: seq<nat>, j: nat)
    requires j <= |sites| && forall i :: 0 <= i < |sites| ==> sites[i] < |matrix|
    ensures Covered(matrix, sites[..j]) <= Covered(matrix, sites)
    decreases |sites|
  {
    if j < |sites| {
      var t := sites[..|sites| - 1];
      CoveredGrows(matrix, t, j);
      assert t[..j] == sites[..j];
    } else {
      assert sites[..j] == sites;
    }
  }

  lemma {:induction false} CoveredContains(matrix: seq<seq<bool>>, sites: seq<nat>, i: nat)
    requires i in sites && forall j :: 0 <= j < |sites| ==> sites[j] < |matrix|
    ensures Marked(matrix[i]) <= Covered(matrix, sites)
    decreases |sites|
  {
    var t := sites[..|sites| - 1];
    if i != sites[|sites| - 1] {
      assert i in t;
      CoveredContains(matrix, t, i);
    }
  }

  /** A site adds no more late than early. */
  lemma GainShrinks(matrix: seq<seq<bool>>, sites: seq<nat>, j: nat, i: nat)
    requires j <= |sites| && i < |matrix| && forall k :: 0 <= k < |sites| ==> sites[k] < |matrix|
    ensures Gain(matrix, sites, i) <= Gain(matrix, sites[..j], i)
  {
    CoveredGrows(matrix, sites, j);
    SubsetSize(Marked(matrix[i]) - Covered(matrix, sites), Marked(matrix[i]) - Covered(matrix, sites[..j]));
  }

  /** No site at all, used or not, adds more than the best unused one. */
  lemma BestBeatsAll(matrix: seq<seq<bool>>, sites: seq<nat>, b: nat, i: nat)
    requires forall j :: 0 <= j < |sites| ==> sites[j] < |matrix|
    requires Best(matrix, sites, b) && i < |matrix|
    ensures Gain(matrix, sites, i) <= Gain(matrix, sites, b)
  {
    if i in sites {
      CoveredContains(matrix, sites, i);
      assert Marked(matrix[i]) - Covered(matrix, sites) == {};
    }
  }

  /** Adding a relay adds exactly its gain. */
  lemma GainAdds(matrix: seq<seq<bool>>, order: seq<nat>, j: nat)
    requires j < |order| && forall i :: 0 <= i < |order| ==> order[i] < |matrix|
    ensures CoverageAfter(matrix, order, j + 1)
         == CoverageAfter(matrix, order, j) + Gain(matrix, order[..j], order[j])
  {
    var before := Covered(matrix, order[..j]);
    assert order[..j + 1][..j] == order[..j];
    assert before + Marked(matrix[order[j]]) == before + (Marked(matrix[order[j]]) - before);
  }

  lemma UnionSize(a: set<nat>, b: set<nat>)
    ensures |a + b| <= |a| + |b|
  {
    assert a + b == a + (b - a);
    SubsetSize(b - a, b);
  }

  ghost predicate AtMostTimes(n: nat, m: nat, g: nat)
  {
    n <= m * g
  }

  /** One more rival site adds at most one more best gain. */
  lemma RivalStep(rest: set<nat>, row: set<nat>, k: nat, g: nat)
    requires AtMostTimes(|rest|, k, g) && |row| <= g
    ensures AtMostTimes(|rest + row|, k + 1, g)
  {
    UnionSize(rest, row);
    assert (k + 1) * g == k * g + g;
  }

  lemma DifferenceOfUnion(a: set<nat>, b: set<nat>, c: set<nat>)
    ensures (a + b) - c == (a - c) + (b - c)
  {
  }

  /** Any rival layout covers at most what is covered already plus, for each of
      its sites, what the best single site would add now. */
  lemma {:induction false} RivalBound(matrix: seq<seq<bool>>, sites: seq<nat>, b: nat, rival: seq<nat>, g: nat)
    requires forall j :: 0 <= j < |sites| ==> sites[j] < |matrix|
    requires forall j :: 0 <= j < |rival| ==> rival[j] < |matrix|
    requires Best(matrix, sites, b) && g == Gain(matrix, sites, b)
    ensures AtMostTimes(|Covered(matrix, rival) - Covered(matrix, sites)|, |rival|, g)
    decreases |rival|
  {
    if rival == [] {
      assert Covered(matrix, rival) - Covered(matrix, sites) == {};
    } else {
      var k := |rival| - 1;
      RivalBound(matrix, sites, b, rival[..k], g);
      BestBeatsAll(matrix, sites, b, rival[k]);
      var rest := Covered(matrix, rival[..k]) - Covered(matrix, sites);
      var row := Marked(matrix[rival[k]]) - Covered(matrix, sites);
      RivalStep(rest, row, k, g);
      DifferenceOfUnion(Covered(matrix, rival[..k]), Marked(matrix[rival[k]]), Covered(matrix, sites));
    }
  }

  /** Going from `c` to `next` closes at least a `k`-th of the gap to `opt`. */
  ghost predicate ClosesShare(opt: int, c: int, next: int, k: nat)
  {
    opt - c <= k * (next - c)
  }

  /** `r` is `1/k`. */
  ghost predicate ShareOf(r: real, k: nat)
  {
    r * k as real == 1.0 && 0.0 < r <= 1.0
  }

  /** Covering `c` samples is covering at least the share `s` of `opt` of them. */
  ghost predicate CoversShare(c: nat, s: real, opt: nat)
  {
    c as real >= s * opt as real
  }

  /** One relay closes at least a `k`-th of the gap to any `k`-site layout. */
  lemma GapStep(matrix: seq<seq<bool>>, order: seq<nat>, j: nat, rival: seq<nat>, k: nat)
    requires Greedy(matrix, order) && j < |order|
    requires |rival| <= k && forall i :: 0 <= i < |rival| ==> rival[i] < |matrix|
    ensures ClosesShare(|Covered(matrix, rival)|, CoverageAfter(matrix, order, j),
                        CoverageAfter(matrix, order, j + 1), k)
    ensures CoverageAfter(matrix, order, j) <= CoverageAfter(matrix, order, j + 1)
  {
    var c, g := Covered(matrix, order[..j]), Gain(matrix, order[..j], order[j]);
    assert BestAt(matrix, order, j);
    RivalBound(matrix, order[..j], order[j], rival, g);
    GainAdds(matrix, order, j);
    var all := Covered(matrix, rival);
    SubsetSize(all, c + (all - c));
    UnionSize(c, all - c);
    GapCount(|all|, |c|, |all - c|, g, |rival|, k);
  }

  lemma GapCount(all: nat, c: nat, rest: nat, g: nat, m: nat, k: nat)
    requires all <= c + rest && AtMostTimes(rest, m, g) && m <= k
    ensures ClosesShare(all, c, c + g, k)
  {
    assert m * g <= k * g;
  }

  // ------------------------------------------------------------- approximation

  ghost function Pow(x: real, n: nat): real
  {
    if n == 0 then 1.0 else x * Pow(x, n - 1)
  }

  /** Closing a `k`-th of a gap, where `r` is `1/k`, scales its bound by `1 - r`. */
  lemma Contract(gap: real, next: real, k: real, r: real, bound: real)
    requires r * k == 1.0 && 0.0 < r <= 1.0 && gap <= k * (gap - next) && gap <= bound
    ensures next <= (1.0 - r) * bound
  {
    Cancel(r, k, gap - next);
    ShrinkBy(gap, k * (gap - next), r, 1.0 - r, bound);
  }

  lemma ShrinkBy(gap: real, q: real, r: real, s: real, bound: real)
    requires 0.0 < r <= 1.0 && s == 1.0 - r && gap <= q && gap <= bound
    ensures gap - r * q <= s * bound
  {
    ProductMonotone(r, gap, q);
    ProductMonotone(s, gap, bound);
    SplitShare(r, s, gap);
    Chain(r * gap, r * q, gap, s * gap, s * bound);
  }

  lemma SplitShare(r: real, s: real, y: real)
    requires s == 1.0 - r
    ensures s * y == y - r * y
  {
  }

  /** The products as atoms, so that what is left is linear. */
  lemma Chain(rGap: real, rq: real, gap: real, sGap: real, sBound: real)
    requires rGap <= rq && sGap == gap - rGap && sGap <= sBound
    ensures gap - rq <= sBound
  {
  }

  lemma Cancel(r: real, k: real, d: real)
    requires r * k == 1.0
    ensures r * (k * d) == d
  {
    assert r * (k * d) == (r * k) * d;
    TimesOne(r * k, d);
  }

  lemma TimesOne(p: real, d: real)
    requires p == 1.0
    ensures p * d == d
  {
  }

  /** What is left of `y` after `j` steps that each take the share `r`. */
  ghost function Decay(r: real, j: nat, y: real): real
  {
    if j == 0 then y else (1.0 - r) * Decay(r, j - 1, y)
  }

  lemma {:induction false} DecayIsPower(r: real, j: nat, y: real)
    ensures Decay(r, j, y) == Pow(1.0 - r, j) * y
  {
    if j > 0 {
      DecayIsPower(r, j - 1, y);
      var x, p := 1.0 - r, Pow(1.0 - r, j - 1);
      assert x * (p * y) == (x * p) * y;
    }
  }

  lemma DecayStep(opt: int, c: int, c': int, k: nat, r: real, j: nat)
    requires ShareOf(r, k) && j > 0
    requires ClosesShare(opt, c, c', k) && (opt - c) as real <= Decay(r, j - 1, opt as real)
    ensures (opt - c') as real <= Decay(r, j, opt as real)
  {
    ToReal(opt - c, k, c' - c);
    Contract((opt - c) as real, (opt - c') as real, k as real, r, Decay(r, j - 1, opt as real));
  }

  /** After `j` greedy relays the gap to any `k`-site layout has shrunk by
      `1 - 1/k` per relay; `r` is `1/k`. */
  lemma {:induction false} GapShrinks(matrix: seq<seq<bool>>, order: seq<nat>, j: nat, rival: seq<nat>, k: nat,
                                      r: real)
    requires Greedy(matrix, order) && j <= |order|
    requires |rival| <= k && forall i :: 0 <= i < |rival| ==> rival[i] < |matrix|
    requires ShareOf(r, k)
    ensures (|Covered(matrix, rival)| - CoverageAfter(matrix, order, j)) as real
         <= Decay(r, j, |Covered(matrix, rival)| as real)
    decreases j
  {
    if j > 0 {
      var i := j - 1;
      GapShrinks(matrix, order, i, rival, k, r);
      GapStep(matrix, order, i, rival, k);
      DecayStep(|Covered(matrix, rival)|, CoverageAfter(matrix, order, i), CoverageAfter(matrix, order, j), k, r, j);
    }
  }

  lemma ToReal(a: int, k: int, b: int)
    requires a <= k * b
    ensures a as real <= k as real * b as real
  {
    assert (k * b) as real == k as real * b as real;
  }

  /** The guarantee: `k` greedy relays cover at least `1 - (1 - 1/k)^k` of what
      any `k` sites cover; `r` is `1/k`. */
  lemma GreedyGuarantee(matrix: seq<seq<bool>>, order: seq<nat>, rival: seq<nat>, k: nat, r: real)
    requires Greedy(matrix, order) && k <= |order| && r * k as real == 1.0
    requires |rival| <= k && forall i :: 0 <= i < |rival| ==> rival[i] < |matrix|
    ensures CoversShare(CoverageAfter(matrix, order, k), 1.0 - Pow(1.0 - r, k), |Covered(matrix, rival)|)
  {
    ShareBounds(k, r);
    GapShrinks(matrix, order, k, rival, k, r);
    Complement(|Covered(matrix, rival)|, CoverageAfter(matrix, order, k), r, k);
  }

  lemma ShareBounds(k: nat, r: real)
    requires r * k as real == 1.0
    ensures k >= 1 && ShareOf(r, k)
  {
    assert k == 0 ==> r * k as real == 0.0;
    if r <= 0.0 {
      ProductMonotone(k as real, r, 0.0);
      assert false;
    }
    if r > 1.0 {
      ProductMonotone(r, 1.0, k as real);
      assert false;
    }
  }

  lemma ProductMonotone(c: real, a: real, b: real)
    requires c >= 0.0 && a <= b
    ensures c * a <= c * b
  {
  }

  lemma Complement(opt: nat, c: nat, r: real, k: nat)
    requires (opt - c) as real <= Decay(r, k, opt as real)
    ensures CoversShare(c, 1.0 - Pow(1.0 - r, k), opt)
  {
    DecayIsPower(r, k, opt as real);
    var p := Pow(1.0 - r, k);
    assert (1.0 - p) * opt as real == opt as real - p * opt as real;
  }

  // ------------------------------------------------------ the 63% of the docstring

  /** The terms of degree one to four in the binomial expansion of `(1 + x)^n`,
      built by Pascal's rule. */
  datatype Terms = Terms(t1: real, t2: real, t3: real, t4: real)
  {
    ghost function Sum(): real
    {
      1.0 + t1 + t2 + t3 + t4
    }

    ghost function Next(x: real): Terms
    {
      Terms(t1 + x, t2 + x * t1, t3 + x * t2, t4 + x * t3)
    }

    ghost predicate NonNegative()
    {
      t1 >= 0.0 && t2 >= 0.0 && t3 >= 0.0 && t4 >= 0.0
    }
  }

  ghost predicate Bounded(t: Terms, p: real)
  {
    t.NonNegative() && p >= t.Sum()
  }

  lemma NextBound(t: Terms, u: Terms, p: real, x: real, a: real)
    requires x >= 0.0 && a == 1.0 + x && Bounded(t, p) && u == t.Next(x)
    ensures Bounded(u, a * p)
  {
    var s := t.Sum();
    ProductMonotone(a, s, p);
    SplitGrowth(a, x, s);
    Distribute(x, s, t);
    NonNegativeProduct(x, t.t1);
    NonNegativeProduct(x, t.t2);
    NonNegativeProduct(x, t.t3);
    NonNegativeProduct(x, t.t4);
    Collect(t, u, x, a * p, a * s, x * s, x * t.t1, x * t.t2, x * t.t3, x * t.t4);
  }

  lemma Collect(t: Terms, u: Terms, x: real, ap: real, az: real, xz: real, p1: real, p2: real, p3: real, p4: real)
    requires ap >= az && az == t.Sum() + xz && xz == x + p1 + p2 + p3 + p4
    requires x >= 0.0 && p1 >= 0.0 && p2 >= 0.0 && p3 >= 0.0 && p4 >= 0.0 && t.NonNegative()
    requires u == Terms(t.t1 + x, t.t2 + p1, t.t3 + p2, t.t4 + p3)
    ensures Bounded(u, ap)
  {
  }

  lemma SplitGrowth(a: real, x: real, y: real)
    requires a == 1.0 + x
    ensures a * y == y + x * y
  {
  }

  lemma Distribute(x: real, s: real, t: Terms)
    requires s == t.Sum()
    ensures x * s == x + x * t.t1 + x * t.t2 + x * t.t3 + x * t.t4
  {
    assert x * (1.0 + t.t1 + t.t2 + t.t3 + t.t4) == x + x * t.t1 + x * t.t2 + x * t.t3 + x * t.t4;
  }

  lemma NonNegativeProduct(x: real, y: real)
    requires x >= 0.0 && y >= 0.0
    ensures x * y >= 0.0
  {
  }

  /** The closed form of the terms, with `y` standing for `n * x`. */
  ghost predicate Closed(t: Terms, y: real, x: real)
  {
    && t.t1 == y
    && Ratio(2.0, t.t1, t.t2, y - x)
    && Ratio(3.0, t.t2, t.t3, y - 2.0 * x)
    && Ratio(4.0, t.t3, t.t4, y - 3.0 * x)
  }

  ghost predicate Ratio(m: real, b: real, c: real, w: real)
  {
    m * c == b * w
  }

  lemma ClosedStep(t: Terms, y: real, x: real)
    requires Closed(t, y, x)
    ensures Closed(t.Next(x), y + x, x)
  {
    assert Ratio(1.0, 1.0, t.t1, y);
    PascalStep(2.0, 1.0, t.t1, t.t2, y, x);
    PascalStep(3.0, t.t1, t.t2, t.t3, y - x, x);
    PascalStep(4.0, t.t2, t.t3, t.t4, y - 2.0 * x, x);
  }

  /** Three neighbouring terms `a`, `b`, `c` and the rule for their successors. */
  lemma PascalStep(m: real, a: real, b: real, c: real, w: real, x: real)
    requires Ratio(m, b, c, w - x) && Ratio(m - 1.0, a, b, w)
    ensures Ratio(m, b + x * a, c + x * b, w)
  {
    calc {
      m * (c + x * b);
      m * c + x * ((m - 1.0) * b) + x * b;
      b * (w - x) + x * (a * w) + x * b;
      (b + x * a) * w;
    }
  }

  ghost predicate Multiple(y: real, n: int, x: real)
  {
    y == n as real * x
  }

  lemma OneFewer(y: real, n: int, x: real)
    requires Multiple(y, n, x)
    ensures Multiple(y - x, n - 1, x)
  {
    assert (n - 1) as real == n as real - 1.0;
  }

  ghost predicate Multiplied(a: real, p: real, q: real)
  {
    q == a * p
  }

  lemma PowStep(a: real, n: nat)
    requires n > 0
    ensures Multiplied(a, Pow(a, n - 1), Pow(a, n))
  {
  }

  /** One more factor of `a`, where `a` is `1 + x`. */
  lemma MoreTerms(t: Terms, y: real, y': real, x: real, a: real, p: real, q: real) returns (u: Terms)
    requires x >= 0.0 && a == 1.0 + x && y' == y + x && Multiplied(a, p, q) && Closed(t, y, x) && Bounded(t, p)
    ensures Closed(u, y', x) && Bounded(u, q)
  {
    u := t.Next(x);
    ClosedStep(t, y, x);
    NextBound(t, u, p, x, a);
  }

  lemma NoTerms(y: real, x: real) returns (t: Terms)
    requires Multiple(y, 0, x)
    ensures Closed(t, y, x) && Bounded(t, 1.0)
  {
    t := Terms(0.0, 0.0, 0.0, 0.0);
  }

  /** Terms in closed form whose sum `(1 + x)^n` is at least. */
  lemma {:induction false} Expansion(n: nat, y: real, x: real, a: real) returns (t: Terms)
    requires x >= 0.0 && a == 1.0 + x && Multiple(y, n, x)
    ensures Closed(t, y, x) && Bounded(t, Pow(a, n))
    decreases n
  {
    if n == 0 {
      t := NoTerms(y, x);
    } else {
      OneFewer(y, n, x);
      PowStep(a, n);
      var s := Expansion(n - 1, y - x, x, a);
      t := MoreTerms(s, y - x, y, x, a, Pow(a, n - 1), Pow(a, n));
    }
  }

  lemma ClosedAtEnd(t: Terms, x: real)
    requires 0.0 <= x <= 1.0 && Closed(t, 1.0 + x, x)
    ensures t.Sum() >= 65.0 / 24.0
  {
    var s := x * x;
    var c := s * x;
    assert 2.0 * t.t2 == 1.0 + x;
    assert 6.0 * t.t3 == (1.0 + x) * (1.0 - x) == 1.0 - s;
    assert 24.0 * t.t4 == (1.0 - s) * (1.0 - 2.0 * x) == 1.0 - 2.0 * x - s + 2.0 * c;
    ProductMonotone(x, x, 1.0);
    ProductMonotone(s, 0.0, x);
  }

  lemma {:induction false} PowProduct(a: real, b: real, n: nat)
    requires a * b == 1.0
    ensures Pow(a, n) * Pow(b, n) == 1.0
  {
    if n > 0 {
      PowProduct(a, b, n - 1);
      var p, q := Pow(a, n - 1), Pow(b, n - 1);
      Regroup(a, p, b, q);
      TimesOne(a * b, p * q);
    }
  }

  lemma Regroup(a: real, p: real, b: real, q: real)
    ensures (a * p) * (b * q) == (a * b) * (p * q)
  {
  }

  lemma {:induction false} PowNonNegative(a: real, n: nat)
    requires a >= 0.0
    ensures Pow(a, n) >= 0.0
  {
    if n > 0 {
      PowNonNegative(a, n - 1);
    }
  }

  lemma GrowthBound(k: nat, x: real, y: real)
    requires y == k as real * x && y == 1.0 + x && 0.0 < x <= 1.0
    ensures Pow(y, k) >= 65.0 / 24.0
  {
    var t := Expansion(k, y, x, y);
    ClosedAtEnd(t, x);
  }

  lemma UncoveredAt(k: nat, r: real, x: real)
    requires r * k as real == 1.0 && (k as real - 1.0) * x == 1.0 && 0.0 < x <= 1.0 && r <= 1.0
    ensures Pow(1.0 - r, k) <= 0.37
  {
    var y := k as real * x;
    assert y == 1.0 + x;
    GrowthBound(k, x, y);
    Inverse(r, k as real, x);
    PowProduct(1.0 - r, y, k);
    PowNonNegative(1.0 - r, k);
    Cross(Pow(1.0 - r, k), Pow(y, k));
  }

  /** `(1 - 1/k)^k` is below 24/65, hence below 0.37, for every `k`. */
  lemma UncoveredShare(k: nat, r: real)
    requires r * k as real == 1.0
    ensures Pow(1.0 - r, k) <= 0.37
  {
    ShareBounds(k, r);
    if k == 1 {
      assert r == 1.0;
      assert Pow(1.0 - r, 1) == 0.0 * Pow(0.0, 0);
    } else {
      var x := Reciprocal(k - 1);
      ShareBounds(k - 1, x);
      UncoveredAt(k, r, x);
    }
  }

  lemma Inverse(r: real, k: real, x: real)
    requires r * k == 1.0 && (k - 1.0) * x == 1.0
    ensures (1.0 - r) * (1.0 + x) == 1.0
  {
    // x - r == r * x, since multiplying both sides by k*(k - 1) gives 1 == 1.
    assert x * k == 1.0 + x;
    assert r * (x * k) == x * (r * k);
    assert r * (1.0 + x) == x;
  }

  lemma Cross(p: real, q: real)
    requires p * q == 1.0 && p >= 0.0 && q >= 65.0 / 24.0
    ensures p <= 0.37
  {
    assert p * q >= p * (65.0 / 24.0);
  }

  lemma Reciprocal(k: nat) returns (r: real)
    requires k > 0
    ensures r * k as real == 1.0
  {
    r := 1.0 / k as real;
  }

  /** At least 63% of the best possible coverage, whatever the sites. */
  lemma SixtyThreePercent(matrix: seq<seq<bool>>, order: seq<nat>, rival: seq<nat>, k: nat)
    requires Greedy(matrix, order) && 0 < k <= |order|
    requires |rival| <= k && forall i :: 0 <= i < |rival| ==> rival[i] < |matrix|
    ensures CoversShare(CoverageAfter(matrix, order, k), 0.63, |Covered(matrix, rival)|)
  {
    var r := Reciprocal(k);
    ShareBounds(k, r);
    GapShrinks(matrix, order, k, rival, k, r);
    DecaySmall(k, r, |Covered(matrix, rival)| as real);
  }

  lemma DecaySmall(k: nat, r: real, y: real)
    requires r * k as real == 1.0 && y >= 0.0
    ensures Decay(r, k, y) <= 0.37 * y
  {
    UncoveredShare(k, r);
    DecayIsPower(r, k, y);
    ProductMonotone(y, Pow(1.0 - r, k), 0.37);
  }

  /** Coverage never falls and each relay adds no more than the one before. */
  lemma MarginalsFall(matrix: seq<seq<bool>>, order: seq<nat>, j: nat)
    requires Greedy(matrix, order) && j + 1 < |order|
    ensures 0 <= CoverageAfter(matrix, order, j + 2) - CoverageAfter(matrix, order, j + 1)
              <= CoverageAfter(matrix, order, j + 1) - CoverageAfter(matrix, order, j)
  {
    GainAdds(matrix, order, j);
    GainAdds(matrix, order, j + 1);
    assert BestAt(matrix, order, j);
    assert order[..j + 1][..j] == order[..j];
    GainShrinks(matrix, order[..j + 1], j, order[j + 1]);
    BestBeatsAll(matrix, order[..j], order[j], order[j + 1]);
  }

  // ---------------------------------------------------------------- the planner

  lemma MarkedStep(row: seq<bool>, i: nat)
    requires i < |row|
    ensures Marked(row[..i + 1]) == if row[i] then Marked(row[..i]) + {i} else Marked(row[..i])
    ensures i !in Marked(row[..i])
  {
  }

  lemma NewSamplesStep(covered: seq<bool>, row: seq<bool>, i: nat)
    requires i < |row| == |covered|
    ensures |Marked(row[..i + 1]) - Marked(covered)|
         == |Marked(row[..i]) - Marked(covered)| + if row[i] && !covered[i] then 1 else 0
  {
    MarkedStep(row, i);
    var before := Marked(row[..i]) - Marked(covered);
    var after := Marked(row[..i + 1]) - Marked(covered);
    if row[i] && !covered[i] {
      assert after == before + {i};
    } else {
      assert after == before;
    }
  }

  /** The samples a row would add to those already covered. */
  method CountGain(covered: seq<bool>, row: seq<bool>) returns (gain: nat)
    requires |covered| == |row|
    ensures gain == |Marked(row) - Marked(covered)|
  {
    gain := 0;
    for i := 0 to |row|
      invariant gain == |Marked(row[..i]) - Marked(covered)|
    {
      NewSamplesStep(covered, row, i);
      if row[i] && !covered[i] {
        gain := gain + 1;
      }
    }
    assert row[..|row|] == row;
  }

  method CountCovered(covered: seq<bool>) returns (n: nat)
    ensures n == |Marked(covered)|
  {
    n := 0;
    for i := 0 to |covered|
      invariant n == |Marked(covered[..i])|
    {
      MarkedStep(covered, i);
      if covered[i] {
        n := n + 1;
      }
    }
    assert covered[..|covered|] == covered;
  }

  function Union(covered: seq<bool>, row: seq<bool>): (r: seq<bool>)
    requires |covered| == |row|
    ensures |r| == |row| && Marked(r) == Marked(covered) + Marked(row)
  {
    seq(|row|, t requires 0 <= t < |row| => covered[t] || row[t])
  }

  /** One round: the first unused site that adds the most, if any is unused. */
  method PickSite(matrix: seq<seq<bool>>, samples: nat, covered: seq<bool>, chosen: seq<nat>) returns (best: int)
    requires Rectangular(matrix, samples) && |covered| == samples
    requires forall j :: 0 <= j < |chosen| ==> chosen[j] < |matrix|
    requires Marked(covered) == Covered(matrix, chosen)
    ensures best == -1 ==> forall i :: 0 <= i < |matrix| ==> i in chosen
    ensures best != -1 ==> best >= 0 && Best(matrix, chosen, best)
  {
    ghost var gains := Gains(matrix, chosen);
    best := -1;
    var bestGain: int := -1;
    for i := 0 to |matrix|
      invariant Leads(gains, chosen, i, best, bestGain)
    {
      if i !in chosen {
        var gain := CountGain(covered, matrix[i]);
        assert gain == gains[i];
        LeadsStep(gains, chosen, i, best, bestGain);
        if gain > bestGain {
          best, bestGain := i, gain;
        }
      } else {
        LeadsStep(gains, chosen, i, best, bestGain);
      }
    }
    LeaderIsBest(matrix, chosen, best, bestGain);
  }

  ghost function Gains(matrix: seq<seq<bool>>, chosen: seq<nat>): (r: seq<nat>)
    requires forall j :: 0 <= j < |chosen| ==> chosen[j] < |matrix|
    ensures |r| == |matrix| && forall i :: 0 <= i < |r| ==> r[i] == Gain(matrix, chosen, i)
  {
    seq(|matrix|, i requires 0 <= i < |matrix| => Gain(matrix, chosen, i))
  }

  /** `best` is the first of the unused sites below `n` that add the most. */
  ghost predicate Leads(gains: seq<nat>, chosen: seq<nat>, n: nat, best: int, bestGain: int)
    requires n <= |gains|
  {
    && -1 <= best < n
    && (if best == -1 then bestGain == -1 && forall j :: 0 <= j < n ==> j in chosen
        else best !in chosen && bestGain == gains[best])
    && (forall j :: 0 <= j < n && j !in chosen ==> gains[j] <= bestGain)
    && (forall j :: 0 <= j < best && j !in chosen ==> gains[j] < bestGain)
  }

  lemma LeadsStep(gains: seq<nat>, chosen: seq<nat>, n: nat, best: int, bestGain: int)
    requires n < |gains| && Leads(gains, chosen, n, best, bestGain)
    ensures if n !in chosen && gains[n] > bestGain then Leads(gains, chosen, n + 1, n, gains[n])
            else Leads(gains, chosen, n + 1, best, bestGain)
  {
  }

  lemma LeaderIsBest(matrix: seq<seq<bool>>, chosen: seq<nat>, best: int, bestGain: int)
    requires forall j :: 0 <= j < |chosen| ==> chosen[j] < |matrix|
    requires Leads(Gains(matrix, chosen), chosen, |matrix|, best, bestGain)
    ensures best != -1 ==> best >= 0 && Best(matrix, chosen, best)
  {
  }

  /** Layout `j` is the first `j + 1` sites of `order`, with what they cover. */
  ghost predicate Recorded(matrix: seq<seq<bool>>, order: seq<nat>, layouts: seq<(seq<nat>, nat)>)
    requires forall i :: 0 <= i < |order| ==> order[i] < |matrix|
  {
    |layouts| == |order| &&
    forall j :: 0 <= j < |layouts| ==> layouts[j] == (order[..j + 1], CoverageAfter(matrix, order, j + 1))
  }

  lemma RecordMore(matrix: seq<seq<bool>>, order: seq<nat>, b: nat, layouts: seq<(seq<nat>, nat)>)
    requires (forall i :: 0 <= i < |order| ==> order[i] < |matrix|) && b < |matrix|
    requires Recorded(matrix, order, layouts)
    ensures Recorded(matrix, order + [b], layouts + [(order + [b], |Covered(matrix, order + [b])|)])
  {
    var more := order + [b];
    assert more[..|more|] == more;
    forall j | 0 <= j < |order| ensures layouts[j] == (more[..j + 1], CoverageAfter(matrix, more, j + 1)) {
      assert more[..j + 1] == order[..j + 1];
    }
  }

  /** The layouts for 1, 2, ... relays: nested prefixes of one greedy order, each
      with the number of samples it covers; fewer than asked for only when the
      sites run out. */
  method GreedyLayouts(matrix: seq<seq<bool>>, samples: nat, maxRelays: int)
    returns (layouts: seq<(seq<nat>, nat)>, ghost order: seq<nat>)
    requires Rectangular(matrix, samples)
    ensures Greedy(matrix, order)
    ensures Recorded(matrix, order, layouts)
    ensures |layouts| <= |matrix|
    ensures |layouts| < maxRelays ==> |layouts| == |matrix|
    ensures maxRelays <= 0 ==> layouts == []
    ensures maxRelays > 0 ==> |layouts| <= maxRelays
  {
    var covered := seq(samples, _ => false);
    var chosen: seq<nat> := [];
    layouts := [];
    while |chosen| < maxRelays
      invariant |covered| == samples
      invariant maxRelays > 0 ==> |chosen| <= maxRelays
      invariant maxRelays <= 0 ==> chosen == []
      invariant Greedy(matrix, chosen) && Marked(covered) == Covered(matrix, chosen)
      invariant Recorded(matrix, chosen, layouts)
      decreases maxRelays - |chosen|
    {
      var best := PickSite(matrix, samples, covered, chosen);
      if best == -1 {
        GreedyFits(matrix, chosen);
        order := chosen;
        return;
      }
      ghost var was := chosen;
      chosen := chosen + [best];
      covered := Union(covered, matrix[best]);
      GreedyExtend(matrix, was, best);
      var n := CountCovered(covered);
      RecordMore(matrix, was, best, layouts);
      layouts := layouts + [(chosen, n)];
    }
    GreedyFits(matrix, chosen);
    order := chosen;
  }

  lemma GreedyExtend(matrix: seq<seq<bool>>, order: seq<nat>, b: nat)
    requires Greedy(matrix, order) && Best(matrix, order, b)
    ensures Greedy(matrix, order + [b]) && Covered(matrix, order + [b]) == Covered(matrix, order) + Marked(matrix[b])
  {
    var more := order + [b];
    assert more[..|order|] == order;
    forall j | 0 <= j < |more| ensures BestAt(matrix, more, j) {
      if j < |order| {
        assert BestAt(matrix, order, j);
        assert more[..j] == order[..j];
      }
    }
  }

  /** A greedy order never repeats a site, so it cannot outrun the sites. */
  lemma GreedyFits(matrix: seq<seq<bool>>, order: seq<nat>)
    requires Greedy(matrix, order)
    ensures |order| <= |matrix|
    ensures |order| == |matrix| <==> forall i :: 0 <= i < |matrix| ==> i in order
  {
    forall i, j | 0 <= i < j < |order| ensures order[i] != order[j] {
      assert BestAt(matrix, order, j);
      assert order[i] in order[..j];
    }
    DistinctFits(order, |matrix|);
  }

  // ------------------------------------------------------------------- the knee

  const KNEE_GAIN := 0.03

  /** The first layout after which one more relay adds under `KNEE_GAIN`, else the
      last; `None` stands for the error an empty list raises. */
  method Knee(values: seq<real>) returns (at: Option<nat>)
    ensures at.None? <==> values == []
    ensures at.Some? ==> at.value < |values|
    ensures at.Some? ==> forall i, j :: 0 <= i < at.value && j == i + 1 ==> values[j] - values[i] >= 0.03
    ensures at.Some? && at.value + 1 < |values| ==> values[at.value + 1] - values[at.value] < 0.03
  {
    if values == [] {
      return None;
    }
    for j := 0 to |values| - 1
      invariant forall i, k :: 0 <= i < j && k == i + 1 ==> values[k] - values[i] >= KNEE_GAIN
    {
      if values[j + 1] - values[j] < KNEE_GAIN {
        return Some(j);
      }
    }
    return Some(|values| - 1);
  }

  /** The planned share of each layout of a greedy order. */
  ghost predicate PlannedShares(matrix: seq<seq<bool>>, samples: nat, order: seq<nat>, shares: seq<real>)
    requires Greedy(matrix, order) && samples > 0
  {
    && |shares| == |order|
    && forall j :: 0 <= j < |shares| ==> shares[j] == CoverageAfter(matrix, order, j + 1) as real / samples as real
  }

  /** On planned shares the knee is final: every relay after it adds under
      `KNEE_GAIN`, because marginal gains never rise again. */
  lemma {:induction false} KneeIsFinal(matrix: seq<seq<bool>>, samples: nat, order: seq<nat>, shares: seq<real>,
                                       at: nat, j: nat)
    requires Greedy(matrix, order) && samples > 0 && PlannedShares(matrix, samples, order, shares)
    requires at <= j && j + 1 < |shares| && shares[at + 1] - shares[at] < KNEE_GAIN
    ensures shares[j + 1] - shares[j] < KNEE_GAIN
    decreases j
  {
    if j > at {
      KneeIsFinal(matrix, samples, order, shares, at, j - 1);
      MarginalsFall(matrix, order, j);
      ShareStep(CoverageAfter(matrix, order, j), CoverageAfter(matrix, order, j + 1),
                CoverageAfter(matrix, order, j + 2), samples);
    }
  }

  lemma ShareStep(a: nat, b: nat, c: nat, samples: nat)
    requires samples > 0 && c - b <= b - a
    ensures c as real / samples as real - b as real / samples as real
         <= b as real / samples as real - a as real / samples as real
  {
    var n := samples as real;
    Quotient(c, b, n);
    Quotient(b, a, n);
    OverMonotone((c - b) as real, (b - a) as real, n);
  }

  lemma Quotient(a: int, b: int, n: real)
    requires n > 0.0
    ensures a as real / n - b as real / n == (a - b) as real / n
  {
    assert (a - b) as real == a as real - b as real;
  }

  lemma OverMonotone(a: real, b: real, n: real)
    requires a <= b && n > 0.0
    ensures a / n <= b / n
  {
  }
}
