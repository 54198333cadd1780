// scripts/stack-budget.py: stack frames read off a disassembly listing, and the
// gate that checks an image against its part and its per-task budget.
module StackBudget {
  /** A listing line as the two patterns classify it. */
  datatype Line = Heading(symbol: string) | Reserve(bytes: nat) | Other

  type Frames = seq<(string, nat)>

  // ------------------------------------------------- what a listing reserves

  /** The heading the next line stands under. */
  function Current(lines: seq<Line>): string
  {
    if lines == [] then "<unknown>"
    else
      var last := lines[|lines| - 1];
      if last.Heading? then last.symbol else Current(lines[..|lines| - 1])
  }

  /** All that is reserved under `symbol`, in every place it is a heading. */
  function Under(lines: seq<Line>, symbol: string): nat
  {
    if lines == [] then 0
    else
      var front, last := lines[..|lines| - 1], lines[|lines| - 1];
      Under(front, symbol) + if last.Reserve? && Current(front) == symbol then last.bytes else 0
  }

  function AllReserved(lines: seq<Line>): nat
  {
    if lines == [] then 0
    else
      var last := lines[|lines| - 1];
      AllReserved(lines[..|lines| - 1]) + if last.Reserve? then last.bytes else 0
  }

  /** The symbols with at least one reservation. */
  function Reserving(lines: seq<Line>): set<string>
  {
    if lines == [] then {}
    else
      var front, last := lines[..|lines| - 1], lines[|lines| - 1];
      Reserving(front) + if last.Reserve? then {Current(front)} else {}
  }

  /** No line of a block is a heading. */
  predicate Block(body: seq<Line>)
  {
    forall i :: 0 <= i < |body| ==> !body[i].Heading?
  }

  lemma {:induction false} ReservedConcat(a: seq<Line>, b: seq<Line>)
    ensures AllReserved(a + b) == AllReserved(a) + AllReserved(b)
    decreases |b|
  {
    if b == [] {
      assert a + b == a;
    } else {
      ReservedConcat(a, b[..|b| - 1]);
      assert (a + b)[..|a + b| - 1] == a + b[..|b| - 1];
    }
  }

  lemma ReservedOne(line: Line)
    ensures AllReserved([line]) == match line case Reserve(n) => n case _ => 0
  {
    assert [line][..0] == [];
  }

  /** What stands under a heading is counted for its symbol, all of it and for no other;
      what stands before any heading is nobody's. */
  lemma {:induction false} BlockCounts(lines: seq<Line>, heading: string, body: seq<Line>, symbol: string)
    requires Block(body)
    ensures Under(lines + [Heading(heading)] + body, symbol) ==
            Under(lines, symbol) + if symbol == heading then AllReserved(body) else 0
    ensures Current(lines + [Heading(heading)] + body) == heading
    ensures symbol in Reserving(lines + [Heading(heading)] + body) <==>
              symbol in Reserving(lines) || (symbol == heading && exists i :: 0 <= i < |body| && body[i].Reserve?)
    decreases |body|
  {
    var all := lines + [Heading(heading)] + body;
    if body == [] {
      assert all[..|all| - 1] == lines;
    } else {
      var front := body[..|body| - 1];
      BlockCounts(lines, heading, front, symbol);
      assert all[..|all| - 1] == lines + [Heading(heading)] + front;
      assert (exists i :: 0 <= i < |body| && body[i].Reserve?) <==>
             (exists i :: 0 <= i < |front| && front[i].Reserve?) || body[|body| - 1].Reserve?;
    }
  }

  lemma {:induction false} UnknownCounts(body: seq<Line>, symbol: string)
    requires Block(body)
    ensures Under(body, symbol) == if symbol == "<unknown>" then AllReserved(body) else 0
    ensures Current(body) == "<unknown>"
    ensures symbol in Reserving(body) <==> symbol == "<unknown>" && exists i :: 0 <= i < |body| && body[i].Reserve?
    decreases |body|
  {
    if body != [] {
      var front := body[..|body| - 1];
      UnknownCounts(front, symbol);
      assert (exists i :: 0 <= i < |body| && body[i].Reserve?) <==>
             (exists i :: 0 <= i < |front| && front[i].Reserve?) || body[|body| - 1].Reserve?;
    }
  }

  // ------------------------------------------------------------ the tally

  function Symbols(rows: Frames): set<string>
  {
    set r | r in rows :: r.0
  }

  function Size(rows: Frames, symbol: string): nat
  {
    if rows == [] then 0 else (if rows[0].0 == symbol then rows[0].1 else 0) + Size(rows[1..], symbol)
  }

  function Sum(rows: Frames): nat
  {
    if rows == [] then 0 else rows[0].1 + Sum(rows[1..])
  }

  lemma {:induction false} SumConcat(a: Frames, b: Frames)
    ensures Sum(a + b) == Sum(a) + Sum(b)
  {
    if a == [] {
      assert a + b == b;
    } else {
      SumConcat(a[1..], b);
      assert (a + b)[1..] == a[1..] + b;
    }
  }

  predicate Unrepeated(rows: Frames)
  {
    rows == [] || (rows[0].0 !in Symbols(rows[1..]) && Unrepeated(rows[1..]))
  }

  /** Add `bytes` to the entry of `symbol`, making one if there is none. */
  function Bump(rows: Frames, symbol: string, bytes: nat): Frames
  {
    if rows == [] then [(symbol, bytes)]
    else if rows[0].0 == symbol then [(symbol, rows[0].1 + bytes)] + rows[1..]
    else [rows[0]] + Bump(rows[1..], symbol, bytes)
  }

  lemma SymbolsOf(row: (string, nat), rows: Frames)
    ensures Symbols([row] + rows) == {row.0} + Symbols(rows)
  {
  }

  lemma {:induction false} BumpSymbols(rows: Frames, symbol: string, bytes: nat)
    ensures Symbols(Bump(rows, symbol, bytes)) == Symbols(rows) + {symbol}
    ensures Sum(Bump(rows, symbol, bytes)) == Sum(rows) + bytes
  {
    if rows != [] {
      assert rows == [rows[0]] + rows[1..];
      SymbolsOf(rows[0], rows[1..]);
      if rows[0].0 == symbol {
        SymbolsOf((symbol, rows[0].1 + bytes), rows[1..]);
      } else {
        BumpSymbols(rows[1..], symbol, bytes);
        SymbolsOf(rows[0], Bump(rows[1..], symbol, bytes));
      }
    }
  }

  lemma {:induction false} BumpSizes(rows: Frames, symbol: string, bytes: nat, other: string)
    requires Unrepeated(rows)
    ensures Unrepeated(Bump(rows, symbol, bytes))
    ensures Size(Bump(rows, symbol, bytes), other) == Size(rows, other) + if other == symbol then bytes else 0
  {
    if rows != [] && rows[0].0 != symbol {
      BumpSizes(rows[1..], symbol, bytes, other);
      BumpSymbols(rows[1..], symbol, bytes);
      assert Bump(rows, symbol, bytes)[1..] == Bump(rows[1..], symbol, bytes);
    } else if rows != [] {
      assert Bump(rows, symbol, bytes)[1..] == rows[1..];
    }
  }

  // ------------------------------------------------------------ the ranking

  predicate Descending(rows: Frames)
  {
    rows == [] || ((forall x :: x in rows[1..] ==> x.1 <= rows[0].1) && Descending(rows[1..]))
  }

  /** After every row at least as large, so that equal sizes keep their order. */
  function Place(rows: Frames, row: (string, nat)): (r: Frames)
    requires Descending(rows)
    ensures Descending(r) && multiset(r) == multiset(rows) + multiset{row}
    ensures forall x :: x in r ==> x in rows || x == row
  {
    if rows == [] || rows[0].1 < row.1 then
      assert ([row] + rows)[1..] == rows;
      [row] + rows
    else
      assert rows == [rows[0]] + rows[1..];
      var rest := Place(rows[1..], row);
      assert ([rows[0]] + rest)[1..] == rest;
      [rows[0]] + rest
  }

  function Ranked(rows: Frames): (r: Frames)
    ensures Descending(r) && multiset(r) == multiset(rows)
  {
    if rows == [] then []
    else
      var last := rows[|rows| - 1];
      assert rows == rows[..|rows| - 1] + [last];
      Place(Ranked(rows[..|rows| - 1]), last)
  }

  /** The rows of one size, in order. */
  function OfSize(rows: Frames, n: nat): Frames
  {
    if rows == [] then [] else (if rows[0].1 == n then [rows[0]] else []) + OfSize(rows[1..], n)
  }

  lemma {:induction false} OfSizeMore(rows: Frames, row: (string, nat), n: nat)
    ensures OfSize(rows + [row], n) == OfSize(rows, n) + if row.1 == n then [row] else []
  {
    if rows == [] {
      assert ([] + [row])[1..] == [];
    } else {
      OfSizeMore(rows[1..], row, n);
      assert (rows + [row])[1..] == rows[1..] + [row];
    }
  }

  lemma {:induction false} SmallerNone(rows: Frames, n: nat)
    requires forall x :: x in rows ==> x.1 < n
    ensures OfSize(rows, n) == []
  {
    if rows != [] {
      assert rows[0] in rows;
      SmallerNone(rows[1..], n);
    }
  }

  lemma OfSizeCons(first: (string, nat), rest: Frames, n: nat)
    ensures OfSize([first] + rest, n) == (if first.1 == n then [first] else []) + OfSize(rest, n)
  {
    assert ([first] + rest)[1..] == rest;
  }

  /** `row` is put in front of smaller rows. */
  lemma FrontStable(rows: Frames, row: (string, nat), n: nat)
    requires forall x :: x in rows ==> x.1 < row.1
    ensures OfSize([row] + rows, n) == OfSize(rows, n) + if row.1 == n then [row] else []
  {
    OfSizeCons(row, rows, n);
    if row.1 == n {
      SmallerNone(rows, n);
    }
  }

  lemma ConsStable(first: (string, nat), rest: Frames, placed: Frames, n: nat, tail: Frames)
    requires OfSize(placed, n) == OfSize(rest, n) + tail
    ensures OfSize([first] + placed, n) == OfSize([first] + rest, n) + tail
  {
    OfSizeCons(first, rest, n);
    OfSizeCons(first, placed, n);
  }

  lemma {:induction false} PlaceStable(rows: Frames, row: (string, nat), n: nat)
    requires Descending(rows)
    ensures OfSize(Place(rows, row), n) == OfSize(rows, n) + if row.1 == n then [row] else []
  {
    if rows == [] || rows[0].1 < row.1 {
      assert forall x :: x in rows ==> x == rows[0] || x in rows[1..];
      FrontStable(rows, row, n);
    } else {
      PlaceStable(rows[1..], row, n);
      ConsStable(rows[0], rows[1..], Place(rows[1..], row), n, if row.1 == n then [row] else []);
      assert rows == [rows[0]] + rows[1..];
    }
  }

  /** Frames of equal size are ranked in the order they were found. */
  lemma {:induction false} RankedStable(rows: Frames, n: nat)
    ensures OfSize(Ranked(rows), n) == OfSize(rows, n)
    decreases |rows|
  {
    if rows != [] {
      var front, last := rows[..|rows| - 1], rows[|rows| - 1];
      assert rows == front + [last];
      OfSizeMore(front, last, n);
      RankedStable(front, n);
      PlaceStable(Ranked(front), last, n);
    }
  }

  lemma SameRows(a: Frames, b: Frames, row: (string, nat))
    requires multiset(a) == multiset(b)
    ensures row in a <==> row in b
  {
    assert row in a <==> row in multiset(a);
    assert row in b <==> row in multiset(b);
  }

  lemma {:induction false} RowIsSize(rows: Frames, row: (string, nat))
    requires Unrepeated(rows)
    ensures row in rows <==> row.0 in Symbols(rows) && row.1 == Size(rows, row.0)
  {
    if rows != [] {
      assert rows == [rows[0]] + rows[1..];
      RowIsSize(rows[1..], row);
      if row.0 !in Symbols(rows[1..]) {
        NoSize(rows[1..], row.0);
      }
      SymbolsOf(rows[0], rows[1..]);
    }
  }

  lemma {:induction false} NoSize(rows: Frames, symbol: string)
    requires symbol !in Symbols(rows)
    ensures Size(rows, symbol) == 0
  {
    if rows != [] {
      assert rows == [rows[0]] + rows[1..];
      SymbolsOf(rows[0], rows[1..]);
      NoSize(rows[1..], symbol);
    }
  }

  /** `parse_frames`: each symbol once, with the sum of every reservation under all
      its headings; nothing is lost or counted twice; largest first. */
  method ParseFrames(lines: seq<Line>) returns (found: Frames, ranked: Frames)
    ensures Unrepeated(found) && Sum(found) == AllReserved(lines)
    ensures multiset(ranked) == multiset(found) && Descending(ranked)
    ensures forall row :: row in ranked <==> row.0 in Reserving(lines) && row.1 == Under(lines, row.0)
  {
    found := [];
    var symbol := "<unknown>";
    for i := 0 to |lines|
      invariant symbol == Current(lines[..i])
      invariant Unrepeated(found) && Sum(found) == AllReserved(lines[..i])
      invariant Symbols(found) == Reserving(lines[..i])
      invariant forall s :: Size(found, s) == Under(lines[..i], s)
    {
      assert lines[..i + 1][..i] == lines[..i];
      var line := lines[i];
      if line.Heading? {
        symbol := line.symbol;
        continue;
      }
      if line.Reserve? {
        BumpSymbols(found, symbol, line.bytes);
        BumpSizes(found, symbol, line.bytes, symbol);
        forall s ensures Size(Bump(found, symbol, line.bytes), s) == Under(lines[..i + 1], s) {
          BumpSizes(found, symbol, line.bytes, s);
        }
        found := Bump(found, symbol, line.bytes);
      }
    }
    assert lines[..|lines|] == lines;
    ranked := Ranked(found);
    forall row: (string, nat) ensures row in ranked <==> row.0 in Reserving(lines) && row.1 == Under(lines, row.0) {
      SameRows(ranked, found, row);
      RowIsSize(found, row);
    }
  }

  // --------------------------------------------------------------- the gate

  datatype Span = Span(origin: int, length: int)

  datatype Verdict = WrongMap | NoPolls | OverBudget(over: Frames) | Okay(largest: nat)

  predicate Inside(region: Span, chip: Span)
  {
    chip.origin <= region.origin && region.origin + region.length <= chip.origin + chip.length
  }

  predicate TopInside(top: int, ram: Span)
  {
    ram.origin < top <= ram.origin + ram.length
  }

  /** Every region the part has is declared, and inside it; the stack top too. */
  predicate MapFits(chip: map<string, Span>, regions: map<string, Span>, top: int)
    requires "RAM" in chip
  {
    && (forall name :: name in chip ==> name in regions && Inside(regions[name], chip[name]))
    && TopInside(top, chip["RAM"])
  }

  predicate Holds(span: Span, address: int)
  {
    span.origin <= address < span.origin + span.length
  }

  /** The map fits exactly if every region the part has is declared, all its addresses
      are the part's, and the stack starts just past one of the part's own RAM. */
  lemma MapFitsIff(chip: map<string, Span>, regions: map<string, Span>, top: int)
    requires "RAM" in chip && forall name :: name in regions ==> regions[name].length > 0
    ensures MapFits(chip, regions, top) <==>
              && (forall name :: name in chip ==> name in regions)
              && (forall name, a: int :: name in chip && name in regions && Holds(regions[name], a) ==>
                    Holds(chip[name], a))
              && Holds(chip["RAM"], top - 1)
  {
    if forall name, a: int :: name in chip && name in regions && Holds(regions[name], a) ==> Holds(chip[name], a) {
      forall name | name in chip && name in regions ensures Inside(regions[name], chip[name]) {
        var r := regions[name];
        assert Holds(r, r.origin) && Holds(r, r.origin + r.length - 1);
      }
    }
  }

  /** `main`, over the listing it ranked. */
  method Gate(chip: map<string, Span>, regions: map<string, Span>, top: int, budget: int, lines: seq<Line>,
              isPoll: string -> bool) returns (v: Verdict)
    requires "RAM" in chip
    ensures v == WrongMap <==> !MapFits(chip, regions, top)
    ensures v == NoPolls <==> MapFits(chip, regions, top) && forall s :: s in Reserving(lines) ==> !isPoll(s)
    ensures v.Okay? <==> MapFits(chip, regions, top)
                         && (exists s :: s in Reserving(lines) && isPoll(s))
                         && forall s :: s in Reserving(lines) && isPoll(s) ==> Under(lines, s) <= budget
    ensures v.Okay? ==>
              (exists s :: s in Reserving(lines) && isPoll(s) && Under(lines, s) == v.largest)
              && forall s :: s in Reserving(lines) && isPoll(s) ==> Under(lines, s) <= v.largest
    ensures v.OverBudget? ==>
              forall row :: row in v.over <==>
                row.0 in Reserving(lines) && isPoll(row.0) && row.1 == Under(lines, row.0) && row.1 > budget
  {
    var fits := CheckMap(chip, regions, top);
    if !fits {
      return WrongMap;
    }
    var found, ranked := ParseFrames(lines);
    var polls: Frames := Chosen(ranked, (row: (string, nat)) => isPoll(row.0));
    var over: Frames := Chosen(polls, (row: (string, nat)) => row.1 > budget);
    forall s | s in Reserving(lines) && isPoll(s) ensures (s, Under(lines, s)) in polls {
      assert (s, Under(lines, s)) in ranked;
    }
    if polls == [] {
      return NoPolls;
    }
    assert polls[0] in polls && polls[0].0 in Reserving(lines);
    if over != [] {
      assert over[0] in over;
      return OverBudget(over);
    }
    assert Under(lines, polls[0].0) == polls[0].1;
    return Okay(polls[0].1);
  }

  function Chosen(rows: Frames, keep: ((string, nat)) -> bool): (r: Frames)
    ensures forall row :: row in r <==> row in rows && keep(row)
    ensures Descending(rows) ==> Descending(r)
  {
    if rows == [] then []
    else
      assert rows == [rows[0]] + rows[1..];
      var rest := Chosen(rows[1..], keep);
      assert ([rows[0]] + rest)[1..] == rest;
      if keep(rows[0]) then [rows[0]] + rest else rest
  }

  /** The loop over the part's regions, and the stack top. */
  method CheckMap(chip: map<string, Span>, regions: map<string, Span>, top: int) returns (fits: bool)
    requires "RAM" in chip
    ensures fits <==> MapFits(chip, regions, top)
  {
    var names := chip.Keys;
    fits := TopInside(top, chip["RAM"]);
    while names != {}
      invariant names <= chip.Keys
      invariant fits <==>
                (TopInside(top, chip["RAM"])
                 && forall n :: n in chip && n !in names ==> n in regions && Inside(regions[n], chip[n]))
      decreases names
    {
      var name :| name in names;
      names := names - {name};
      if name !in regions || !Inside(regions[name], chip[name]) {
        fits := false;
      }
    }
  }
}
