// bins/wayfinder-ctl/src/lib.rs: the identifiers and durations an operator
// types, and the hexadecimal the tool prints. Characters are ASCII.
module Identifiers {
  import opened Wrappers

  type Bytes = seq<Byte>

  const U64_MAX: nat := 0xFFFF_FFFF_FFFF_FFFF

  type U64 = n: nat | n <= U64_MAX

  // ----------------------------------------------------------- unsigned numbers

  function DigitValue(c: char): nat
  {
    if '0' <= c <= '9' then c as nat - '0' as nat
    else if 'a' <= c <= 'z' then c as nat - 'a' as nat + 10
    else if 'A' <= c <= 'Z' then c as nat - 'A' as nat + 10
    else 36
  }

  /** The value of a run of digits, or none if one is not a digit of `radix`. */
  function Digits(s: string, radix: nat): Option<nat>
  {
    if s == [] then Some(0)
    else
      var front := Digits(s[..|s| - 1], radix);
      var d := DigitValue(s[|s| - 1]);
      if front.None? || d >= radix then None else Some(front.value * radix + d)
  }

  /** Rust's `from_str_radix` for an unsigned type: one `+` may lead, at least one
      digit must follow, and a value above `max` is refused. */
  function ParseUnsigned(s: string, radix: nat, max: nat): Option<nat>
  {
    var body := if s != [] && s[0] == '+' then s[1..] else s;
    if body == [] then None
    else
      var v := Digits(body, radix);
      if v.Some? && v.value <= max then v else None
  }

  // ---------------------------------------------------------------- identifiers

  function HexDigit(d: nat): char
    requires d < 16
  {
    if d < 10 then '0' + d as char else 'a' + (d - 10) as char
  }

  function HexByte(b: Byte): string
  {
    [HexDigit(b / 16), HexDigit(b % 16)]
  }

  function Hex(bytes: Bytes): string
  {
    if bytes == [] then [] else HexByte(bytes[0]) + Hex(bytes[1..])
  }

  /** Two-digit bytes joined by colons, as a MAC is printed. */
  function Colons(bytes: Bytes): string
  {
    if bytes == [] then []
    else if |bytes| == 1 then HexByte(bytes[0])
    else HexByte(bytes[0]) + ":" + Colons(bytes[1..])
  }

  function ParseByte(s: string): (r: Option<Byte>)
  {
    var v := ParseUnsigned(s, 16, 255);
    if v.None? then None else Some(v.value)
  }

  /** The pieces between separators; there is always at least one. */
  function Split(s: string, sep: char): (pieces: seq<string>)
    ensures pieces != []
  {
    if s == [] then [[]]
    else
      var rest := Split(s[1..], sep);
      if s[0] == sep then [[]] + rest else [[s[0]] + rest[0]] + rest[1..]
  }

  function Pairs(s: string): seq<string>
  {
    if |s| < 2 then [] else [s[..2]] + Pairs(s[2..])
  }

  /** Every piece read as a byte, or none if any is not one. */
  function ReadAll(pieces: seq<string>): Option<Bytes>
  {
    if pieces == [] then Some([])
    else
      var first := ParseByte(pieces[0]);
      var rest := ReadAll(pieces[1..]);
      if first.None? || rest.None? then None else Some([first.value] + rest.value)
  }

  function ParseId(s: string): Option<Bytes>
  {
    if ':' in s then ReadAll(Split(s, ':'))
    else if |s| % 2 != 0 then None
    else ReadAll(Pairs(s))
  }

  function ParseMac6(s: string): (r: Option<Bytes>)
    ensures r.Some? ==> |r.value| == 6
  {
    var id := ParseId(s);
    if id.Some? && |id.value| == 6 then id else None
  }

  lemma HexByteReads(b: Byte)
    ensures ParseByte(HexByte(b)) == Some(b)
    ensures ':' !in HexByte(b)
  {
    var s := HexByte(b);
    assert s[..|s| - 1] == [s[0]] && [s[0]][..0] == [];
    assert Digits([s[0]], 16) == Some(b / 16);
  }

  lemma {:induction false} HexReads(bytes: Bytes)
    ensures |Hex(bytes)| == 2 * |bytes| && ':' !in Hex(bytes)
    ensures ReadAll(Pairs(Hex(bytes))) == Some(bytes)
  {
    if bytes != [] {
      HexByteReads(bytes[0]);
      HexReads(bytes[1..]);
      assert Hex(bytes)[..2] == HexByte(bytes[0]);
      assert Hex(bytes)[2..] == Hex(bytes[1..]);
      assert Pairs(Hex(bytes))[1..] == Pairs(Hex(bytes[1..]));
      assert bytes == [bytes[0]] + bytes[1..];
    }
  }

  lemma IdFromPairs(s: string, bytes: Bytes)
    requires ':' !in s && |s| % 2 == 0 && ReadAll(Pairs(s)) == Some(bytes)
    ensures ParseId(s) == Some(bytes)
  {
  }

  lemma Even(n: nat)
    ensures (2 * n) % 2 == 0
  {
  }

  /** `parse_id` undoes `hex` for every byte sequence. */
  lemma {:induction false} ParseUndoesHex(bytes: Bytes)
    ensures ParseId(Hex(bytes)) == Some(bytes)
  {
    HexReads(bytes);
    Even(|bytes|);
    IdFromPairs(Hex(bytes), bytes);
  }

  lemma {:induction false} SplitPlain(s: string, sep: char)
    requires sep !in s
    ensures Split(s, sep) == [s]
  {
    if s != [] {
      SplitPlain(s[1..], sep);
      assert s == [s[0]] + s[1..];
    }
  }

  lemma {:induction false} SplitFirst(s: string, sep: char, rest: string)
    requires sep !in s
    ensures Split(s + [sep] + rest, sep) == [s] + Split(rest, sep)
  {
    var whole := s + [sep] + rest;
    if s == [] {
      assert whole[1..] == rest;
    } else {
      assert whole[1..] == s[1..] + [sep] + rest;
      SplitFirst(s[1..], sep, rest);
      assert s == [s[0]] + s[1..];
    }
  }

  lemma ReadCons(s: string, rest: seq<string>, b: Byte, bytes: Bytes)
    requires ParseByte(s) == Some(b) && ReadAll(rest) == Some(bytes)
    ensures ReadAll([s] + rest) == Some([b] + bytes)
  {
    assert ([s] + rest)[1..] == rest;
  }

  lemma {:induction false} ColonsRead(bytes: Bytes)
    requires bytes != []
    ensures ReadAll(Split(Colons(bytes), ':')) == Some(bytes)
  {
    HexByteReads(bytes[0]);
    var first, rest := HexByte(bytes[0]), bytes[1..];
    assert bytes == [bytes[0]] + rest;
    if |bytes| == 1 {
      SplitPlain(first, ':');
      ReadCons(first, [], bytes[0], []);
      assert [first] + [] == [first];
    } else {
      SplitFirst(first, ':', Colons(rest));
      ColonsRead(rest);
      ReadCons(first, Split(Colons(rest), ':'), bytes[0], rest);
    }
  }

  /** The colon-joined form reads back to the same bytes, for every length. */
  lemma {:induction false} ParseUndoesColons(bytes: Bytes)
    ensures ParseId(Colons(bytes)) == Some(bytes)
  {
    if |bytes| <= 1 {
      assert Colons(bytes) == Hex(bytes);
      ParseUndoesHex(bytes);
    } else {
      ColonsRead(bytes);
      assert Colons(bytes)[2] == ':';
    }
  }

  const LOWER := "0123456789abcdef"
  const UPPER := "0123456789ABCDEF"

  /** `c` is the hexadecimal digit for `v`, in either case. */
  predicate IsHex(c: char, v: nat)
  {
    v < 16 && (c == LOWER[v] || c == UPPER[v])
  }

  lemma HexValue(c: char, v: nat)
    ensures IsHex(c, v) <==> v < 16 && DigitValue(c) == v
  {
  }

  lemma OneDigit(c: char)
    ensures Digits([c], 16) == if DigitValue(c) < 16 then Some(DigitValue(c)) else None
  {
    assert [c][..0] == [];
  }

  lemma TwoDigits(a: char, b: char)
    ensures Digits([a, b], 16) ==
            if DigitValue(a) < 16 && DigitValue(b) < 16 then Some(DigitValue(a) * 16 + DigitValue(b)) else None
  {
    OneDigit(a);
    assert [a, b][..1] == [a];
  }

  /** Two characters read as a byte exactly if they are its two digits, in either case,
      or a plus sign and its one digit. */
  lemma TwoCharsExact(a: char, b: char, byte: Byte)
    ensures ParseByte([a, b]) == Some(byte) <==>
              (IsHex(a, byte / 16) && IsHex(b, byte % 16)) || (a == '+' && IsHex(b, byte))
  {
    TwoDigits(a, b);
    OneDigit(b);
    assert [a, b][1..] == [b];
    HexValue(a, byte / 16);
    HexValue(b, byte % 16);
    HexValue(b, byte);
  }

  /** Characters `2 * i` and the next are byte `i`. */
  predicate PairAt(s: string, bytes: Bytes, i: nat)
    requires i < |bytes| && |s| == 2 * |bytes|
  {
    ParseByte(s[2 * i..2 * i + 2]) == Some(bytes[i])
  }

  lemma {:induction false} PairsRead(s: string, bytes: Bytes)
    requires |s| % 2 == 0
    ensures ReadAll(Pairs(s)) == Some(bytes) <==>
              |s| == 2 * |bytes| && forall i :: 0 <= i < |bytes| ==> PairAt(s, bytes, i)
  {
    if |s| >= 2 && bytes != [] {
      var tail, rest := s[2..], bytes[1..];
      PairsRead(tail, rest);
      assert Pairs(s)[1..] == Pairs(tail) && Pairs(s)[0] == s[..2];
      assert bytes == [bytes[0]] + rest;
      assert ReadAll(Pairs(s)) == Some(bytes) <==>
             ParseByte(s[..2]) == Some(bytes[0]) && ReadAll(Pairs(tail)) == Some(rest);
      if |s| == 2 * |bytes| {
        FirstPair(s, bytes);
      }
    }
  }

  lemma FirstPair(s: string, bytes: Bytes)
    requires bytes != [] && |s| == 2 * |bytes|
    ensures (forall i :: 0 <= i < |bytes| ==> PairAt(s, bytes, i)) <==>
              ParseByte(s[..2]) == Some(bytes[0])
              && forall i :: 0 <= i < |bytes| - 1 ==> PairAt(s[2..], bytes[1..], i)
  {
    forall i | 0 <= i < |bytes| - 1 ensures PairAt(s[2..], bytes[1..], i) == PairAt(s, bytes, i + 1) {
      assert s[2..][2 * i..2 * i + 2] == s[2 * (i + 1)..2 * (i + 1) + 2];
    }
    assert PairAt(s, bytes, 0) <==> ParseByte(s[..2]) == Some(bytes[0]);
    if ParseByte(s[..2]) == Some(bytes[0]) && forall i :: 0 <= i < |bytes| - 1 ==> PairAt(s[2..], bytes[1..], i) {
      forall i | 0 <= i < |bytes| ensures PairAt(s, bytes, i) {
        if i > 0 {
          assert PairAt(s[2..], bytes[1..], i - 1);
        }
      }
    }
  }

  /** An identifier without colons is read pair by pair, and an odd one is refused. */
  lemma BareIdIff(s: string, bytes: Bytes)
    requires ':' !in s
    ensures ParseId(s) == Some(bytes) <==>
              |s| == 2 * |bytes| && forall i :: 0 <= i < |bytes| ==> PairAt(s, bytes, i)
  {
    if |s| % 2 == 0 {
      PairsRead(s, bytes);
    }
  }

  // ------------------------------------------------------------------ durations

  datatype DurationError = UnknownUnit | NotANumber | TooLong | Zero

  predicate IsSpace(c: char)
  {
    c == ' ' || '\t' <= c <= '\r'
  }

  function TrimStart(s: string): string
  {
    if s != [] && IsSpace(s[0]) then TrimStart(s[1..]) else s
  }

  function Trim(s: string): string
  {
    var t := TrimStart(s);
    TrimEnd(t)
  }

  function TrimEnd(s: string): string
  {
    if s != [] && IsSpace(s[|s| - 1]) then TrimEnd(s[..|s| - 1]) else s
  }

  predicate IsLetter(c: char)
  {
    'a' <= c <= 'z' || 'A' <= c <= 'Z'
  }

  function UnitSeconds(c: char): Option<nat>
  {
    match c
    case 's' => Some(1)
    case 'm' => Some(60)
    case 'h' => Some(3_600)
    case 'd' => Some(86_400)
    case 'w' => Some(7 * 86_400)
    case 'y' => Some(365 * 86_400)
    case _ => None
  }

  function ParseDuration(text: string): Result<nat, DurationError>
  {
    var s := Trim(text);
    var suffixed := s != [] && IsLetter(s[|s| - 1]);
    var count := if suffixed then s[..|s| - 1] else s;
    var unit := if suffixed then UnitSeconds(s[|s| - 1]) else Some(1);
    if unit.None? then Err(UnknownUnit)
    else
      var n := ParseUnsigned(count, 10, U64_MAX);
      if n.None? then Err(NotANumber)
      else
        var secs := n.value * unit.value;
        if secs > U64_MAX then Err(TooLong)
        else if secs == 0 then Err(Zero)
        else Ok(secs)
  }

  /** A count as it is printed in decimal. */
  function Decimal(n: nat): (s: string)
    ensures s != []
    ensures forall c :: c in s ==> '0' <= c <= '9'
  {
    if n < 10 then ['0' + n as char] else Decimal(n / 10) + ['0' + (n % 10) as char]
  }

  lemma {:induction false} DecimalReads(n: nat)
    ensures Digits(Decimal(n), 10) == Some(n)
  {
    var s := Decimal(n);
    var last := '0' + (n % 10) as char;
    if n < 10 {
      assert s[..0] == [];
    } else {
      DecimalReads(n / 10);
      assert s[..|s| - 1] == Decimal(n / 10) && s[|s| - 1] == last;
    }
  }

  lemma TrimKeeps(s: string)
    requires s != [] && !IsSpace(s[0]) && !IsSpace(s[|s| - 1])
    ensures Trim(s) == s
  {
  }

  /** Any printed count with any unit: the exact product when it is positive and
      fits in 64 bits, and otherwise the error that says which way it failed. */
  lemma {:induction false} DurationExact(n: nat, unit: char)
    requires UnitSeconds(unit).Some?
    ensures var secs := n * UnitSeconds(unit).value;
            ParseDuration(Decimal(n) + [unit]) ==
            if n > U64_MAX then Err(NotANumber)
            else if secs > U64_MAX then Err(TooLong)
            else if secs == 0 then Err(Zero)
            else Ok(secs)
  {
    var s := Decimal(n) + [unit];
    assert s[0] == Decimal(n)[0] && s[0] in Decimal(n);
    TrimKeeps(s);
    assert s[..|s| - 1] == Decimal(n);
    DecimalReads(n);
  }

  /** A bare count is a number of seconds. */
  lemma {:induction false} BareDurationExact(n: nat)
    ensures ParseDuration(Decimal(n)) ==
            if n > U64_MAX then Err(NotANumber) else if n == 0 then Err(Zero) else Ok(n)
  {
    var s := Decimal(n);
    assert s[0] in s && s[|s| - 1] in s;
    TrimKeeps(s);
    DecimalReads(n);
  }

  /** A second, a minute, an hour, a day, a week and a year of 365 days. */
  lemma UnitLengths(n: nat, unit: char, secs: nat)
    requires (unit, secs) in {('s', 1), ('m', 60), ('h', 3_600), ('d', 86_400), ('w', 604_800), ('y', 31_536_000)}
    requires 0 < n && n * secs <= U64_MAX
    ensures ParseDuration(Decimal(n) + [unit]) == Ok(n * secs)
  {
    DurationExact(n, unit);
  }

  /** No other letter is a unit. */
  lemma OtherUnitRefused(n: nat, unit: char)
    requires ('a' <= unit <= 'z' || 'A' <= unit <= 'Z') && unit !in "smhdwy"
    ensures ParseDuration(Decimal(n) + [unit]) == Err(UnknownUnit)
  {
    var s := Decimal(n) + [unit];
    assert s[0] == Decimal(n)[0] && s[0] in Decimal(n);
    TrimKeeps(s);
    assert 's' in "smhdwy" && 'm' in "smhdwy" && 'h' in "smhdwy" && 'd' in "smhdwy" && 'w' in "smhdwy"
           && 'y' in "smhdwy";
  }

  lemma {:induction false} TrimStartMore(s: string, c: char)
    requires IsSpace(c)
    ensures TrimStart(s + [c]) == if TrimStart(s) == [] then [] else TrimStart(s) + [c]
  {
    if s == [] {
      assert (s + [c])[1..] == [];
    } else if IsSpace(s[0]) {
      assert (s + [c])[1..] == s[1..] + [c];
      TrimStartMore(s[1..], c);
    }
  }

  /** White space around a duration is ignored. */
  lemma PaddingIgnored(s: string, c: char)
    requires c in " \t\n\r"
    ensures ParseDuration([c] + s) == ParseDuration(s) && ParseDuration(s + [c]) == ParseDuration(s)
  {
    assert ([c] + s)[1..] == s;
    TrimStartMore(s, c);
    var t := TrimStart(s);
    assert (t + [c])[..|t|] == t;
  }
}
