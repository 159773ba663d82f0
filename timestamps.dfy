/** Activity-marker timestamps: datetime.strptime on the three patterns the
    pipeline uses, the two convert_timestamp rule chains
    (common_modules/utilities.py and utilities.py), the fixed-offset MDT
    display convert_timestamp_to_mdt, and the stop_filter bound of a
    training read. Time-zone rules (pytz) and the machine's local time are
    parameters. */
module Timestamps {
  import opened Wrappers
  import opened Text
  import opened Civil

  // ---------------------------------------------------------------------
  // strptime

  /** One element of a compiled strptime pattern. A numeric field accepts
      minWidth..maxWidth digits whose value lies in lo..hi (%d also accepts
      a space followed by one non-zero digit); %p accepts am or pm in any
      case; a space in the pattern accepts one or more whitespace
      characters; any other character matches itself, ignoring case. */
  datatype Directive =
    | Numeric(key: char, minWidth: nat, maxWidth: nat, lo: nat, hi: nat, spacePadded: bool)
    | AmPm
    | Whitespace
    | Literal(c: char)

  const Year := Numeric('Y', 4, 4, 0, 9999, false)
  const Month := Numeric('m', 1, 2, 1, 12, false)
  const Day := Numeric('d', 1, 2, 1, 31, true)
  const Hour24 := Numeric('H', 1, 2, 0, 23, false)
  const Hour12 := Numeric('I', 1, 2, 1, 12, false)
  const Minute := Numeric('M', 1, 2, 0, 59, false)
  const Second := Numeric('S', 1, 2, 0, 61, false)
  const Fraction := Numeric('f', 1, 6, 0, 999999, false)

  /** "%Y-%m-%d %H:%M:%S.%f MDT" */
  const MdtPattern: seq<Directive> := [
    Year, Literal('-'), Month, Literal('-'), Day, Whitespace,
    Hour24, Literal(':'), Minute, Literal(':'), Second, Literal('.'), Fraction,
    Whitespace, Literal('M'), Literal('D'), Literal('T')
  ]

  /** "%m/%d/%Y %I:%M:%S %p" */
  const UciPattern: seq<Directive> := [
    Month, Literal('/'), Day, Literal('/'), Year, Whitespace,
    Hour12, Literal(':'), Minute, Literal(':'), Second, Whitespace, AmPm
  ]

  /** "%Y-%m-%d %H:%M:%S.%f" */
  const GmtPattern: seq<Directive> := [
    Year, Literal('-'), Month, Literal('-'), Day, Whitespace,
    Hour24, Literal(':'), Minute, Literal(':'), Second, Literal('.'), Fraction
  ]

  /** The pattern starts with the thirteen directives of
      "%Y-%m-%d %H:%M:%S.%f", as both fraction patterns do. */
  predicate IsoHead(pattern: seq<Directive>)
  {
    |pattern| >= 13 && pattern[0] == Year && pattern[1] == Literal('-') && pattern[2] == Month
    && pattern[3] == Literal('-') && pattern[4] == Day && pattern[5] == Whitespace
    && pattern[6] == Hour24 && pattern[7] == Literal(':') && pattern[8] == Minute
    && pattern[9] == Literal(':') && pattern[10] == Second && pattern[11] == Literal('.')
    && pattern[12] == Fraction
  }

  lemma IsoHeads()
    ensures IsoHead(MdtPattern) && IsoHead(GmtPattern)
  {
  }

  /** The characters Python's \s matches in a str pattern. */
  predicate IsSpace(c: char)
  {
    c == ' ' || '\t' <= c <= '\r' || '\U{1c}' <= c <= '\U{1f}' || c == '\U{85}' || c == '\U{a0}'
    || c == '\U{1680}' || '\U{2000}' <= c <= '\U{200a}' || c == '\U{2028}' || c == '\U{2029}'
    || c == '\U{202f}' || c == '\U{205f}' || c == '\U{3000}'
  }

  /** Length of the longest run of whitespace at the start of s. */
  function SpaceRun(s: string): (k: nat)
    ensures k <= |s|
    ensures forall i :: 0 <= i < k ==> IsSpace(s[i])
    ensures k < |s| ==> !IsSpace(s[k])
  {
    if s == [] || !IsSpace(s[0]) then 0 else 1 + SpaceRun(s[1..])
  }

  /** How much of the front of s one directive consumes, and the text it
      captures. In every pattern above a numeric field is followed by a
      literal, whitespace or the end, never by something that can start
      with a digit, and whitespace is never followed by something that can
      start with whitespace, so the regular expression's backtracking
      cannot change the outcome and taking the whole digit (or whitespace)
      run is exact. */
  function MatchDirective(d: Directive, s: string): (r: Option<(nat, string)>)
    ensures r.Some? ==> 0 < r.value.0 <= |s| && r.value.1 == s[..r.value.0]
  {
    match d
    case Numeric(_, minWidth, maxWidth, lo, hi, spacePadded) =>
      if spacePadded && |s| >= 2 && s[0] == ' ' && '1' <= s[1] <= '9' then Some((2, s[..2]))
      else
        var k := DigitRun(s);
        if minWidth <= k <= maxWidth && k > 0 && lo <= NumberValue(s[..k]) <= hi then Some((k, s[..k]))
        else None
    case AmPm =>
      if |s| >= 2 && (Lower(s[..2]) == "am" || Lower(s[..2]) == "pm") then Some((2, s[..2])) else None
    case Whitespace =>
      var k := SpaceRun(s);
      if k > 0 then Some((k, s[..k])) else None
    case Literal(c) =>
      if |s| > 0 && LowerChar(s[0]) == LowerChar(c) then Some((1, s[..1])) else None
  }

  /** Match pattern[k..] against the whole of s, collecting the captured
      text of each field under its directive letter (the regular
      expression's group dictionary). Text left over is an error, as in
      strptime ("unconverted data remains"). */
  function MatchFrom(pattern: seq<Directive>, k: nat, s: string, found: map<char, string>): Option<map<char, string>>
    requires k <= |pattern|
    decreases |pattern| - k
  {
    if k == |pattern| then
      if s == [] then Some(found) else None
    else
      match MatchDirective(pattern[k], s)
      case None => None
      case Some((n, text)) => MatchFrom(pattern, k + 1, s[n..], Capture(pattern[k], text, found))
  }

  /** The group dictionary after one directive captured `text`: numeric
      fields and %p are named groups, whitespace and literals are not. */
  function Capture(d: Directive, text: string, found: map<char, string>): map<char, string>
  {
    match d
    case Numeric(key, _, _, _, _, _) => found[key := text]
    case AmPm => found['p' := text]
    case _ => found
  }

  /** int() of a captured numeric field (a leading space is allowed). */
  function IntOf(text: string): nat
  {
    var digits := if |text| > 0 && text[0] == ' ' then text[1..] else text;
    if forall i :: 0 <= i < |digits| ==> IsDigit(digits[i]) then NumberValue(digits) else 0
  }

  /** The hour of a 12-hour clock reading: 12 AM is 0, 12 PM is 12, and any
      other PM hour moves 12 hours on. */
  function ClockHour(h: nat, ampm: string): (hour: nat)
    requires 1 <= h <= 12
    ensures hour < 24 && hour % 12 == h % 12
    ensures hour >= 12 <==> Lower(ampm) == "pm"
  {
    if Lower(ampm) == "pm" then (if h == 12 then 12 else h + 12)
    else if h == 12 then 0 else h
  }

  /** Midnight is 12 AM, noon is 12 PM, and the other afternoon hours are
      twelve on. */
  lemma ClockHourCases(h: nat, ampm: string)
    requires 1 <= h <= 12
    ensures h == 12 && Lower(ampm) != "pm" ==> ClockHour(h, ampm) == 0
    ensures h == 12 && Lower(ampm) == "pm" ==> ClockHour(h, ampm) == 12
    ensures h < 12 && Lower(ampm) == "pm" ==> ClockHour(h, ampm) == h + 12
    ensures h < 12 && Lower(ampm) != "pm" ==> ClockHour(h, ampm) == h
  {
  }

  /** The datetime strptime builds from the captured fields; fields the
      pattern lacks take strptime's defaults. None when the datetime
      constructor refuses the values (day past the month's end, year 0,
      second 60 or 61). */
  function Build(found: map<char, string>): (r: Option<DateTime>)
    ensures r.Some? ==> Valid(r.value)
  {
    var year := if 'Y' in found then IntOf(found['Y']) else 1900;
    var month := if 'm' in found then IntOf(found['m']) else 1;
    var day := if 'd' in found then IntOf(found['d']) else 1;
    var hour :=
      if 'H' in found then IntOf(found['H'])
      else if 'I' in found && 1 <= IntOf(found['I']) <= 12 then
        ClockHour(IntOf(found['I']), if 'p' in found then found['p'] else "")
      else 0;
    var minute := if 'M' in found then IntOf(found['M']) else 0;
    var second := if 'S' in found then IntOf(found['S']) else 0;
    var micro := if 'f' in found && |found['f']| <= 6 then IntOf(found['f']) * Pow10(6 - |found['f']|) else 0;
    var dt := DateTime(Date(year, month, day), hour, minute, second, micro);
    if Valid(dt) then Some(dt) else None
  }

  /** datetime.strptime(s, pattern); None stands for ValueError. */
  function Strptime(pattern: seq<Directive>, s: string): (r: Option<DateTime>)
    ensures r.Some? ==> Valid(r.value)
  {
    match MatchFrom(pattern, 0, s, map[])
    case None => None
    case Some(found) => Build(found)
  }

  // ---------------------------------------------------------------------
  // Texts strptime reads back

  /** One piece of a printed date-time: a zero-padded numeric field, a
      single character, or an AM/PM marker. */
  datatype Piece = Field(value: nat, width: nat) | Char(c: char) | Marker(text: string)

  /** Printed text as a list of pieces. */
  datatype Pieces = Done | More(first: Piece, others: Pieces)

  function PieceText(p: Piece): string
  {
    match p
    case Field(n, w) => PadDigits(n, w)
    case Char(c) => [c]
    case Marker(text) => text
  }

  function Length(ps: Pieces): nat
  {
    match ps
    case Done => 0
    case More(_, others) => 1 + Length(others)
  }

  /** The text of the pieces, one after the other, followed by `rest`. */
  function Render(ps: Pieces, rest: string): string
  {
    match ps
    case Done => rest
    case More(p, others) => PieceText(p) + Render(others, rest)
  }

  /** What follows a field (the next pieces, then `rest`) does not start
      with a digit. */
  predicate NoDigitAfter(next: Pieces, rest: string)
  {
    match next
    case Done => rest == [] || !IsDigit(rest[0])
    case More(Field(_, _), _) => false
    case More(Char(c), _) => !IsDigit(c)
    case More(Marker(text), _) => text != [] && !IsDigit(text[0])
  }

  /** What follows a space does not start with whitespace. */
  predicate NoSpaceAfter(next: Pieces, rest: string)
  {
    match next
    case Done => rest == [] || !IsSpace(rest[0])
    case More(Field(_, w), _) => 0 < w
    case More(Char(c), _) => !IsSpace(c)
    case More(Marker(text), _) => text != [] && !IsSpace(text[0])
  }

  /** Directive d takes piece p whole, given what follows it. */
  predicate PieceFits(d: Directive, p: Piece, next: Pieces, rest: string)
  {
    match p
    case Field(n, w) =>
      d.Numeric? && 0 < w && n < Pow10(w) && d.minWidth <= w <= d.maxWidth && d.lo <= n <= d.hi
      && NoDigitAfter(next, rest)
    case Char(c) => d == Literal(c) || (d == Whitespace && IsSpace(c) && NoSpaceAfter(next, rest))
    case Marker(text) => d == AmPm && |text| == 2 && (Lower(text) == "am" || Lower(text) == "pm")
  }

  /** Each piece is taken whole by the directive at its position. */
  predicate Fits(pattern: seq<Directive>, k: nat, ps: Pieces, rest: string)
    decreases ps
  {
    match ps
    case Done => true
    case More(p, others) => k < |pattern| && PieceFits(pattern[k], p, others, rest) && Fits(pattern, k + 1, others, rest)
  }

  /** The group dictionary after pattern[k..] has captured the pieces. */
  function Captures(pattern: seq<Directive>, k: nat, ps: Pieces, found: map<char, string>): map<char, string>
    requires k + Length(ps) <= |pattern|
    decreases ps
  {
    match ps
    case Done => found
    case More(p, others) => Captures(pattern, k + 1, others, Capture(pattern[k], PieceText(p), found))
  }

  /** A directive that takes exactly `chunk` off the front passes the rest
      on to the next one. */
  lemma MatchStep(pattern: seq<Directive>, k: nat, chunk: string, rest: string, found: map<char, string>)
    requires k < |pattern| && MatchDirective(pattern[k], chunk + rest) == Some((|chunk|, chunk))
    ensures MatchFrom(pattern, k, chunk + rest, found) == MatchFrom(pattern, k + 1, rest, Capture(pattern[k], chunk, found))
  {
    assert (chunk + rest)[|chunk|..] == rest;
  }

  /** A zero-padded field of w digits, followed by a non-digit or nothing,
      is taken whole by a numeric directive that admits its width and
      value. */
  lemma MatchPadded(d: Directive, n: nat, w: nat, rest: string)
    requires d.Numeric? && 0 < w && d.minWidth <= w <= d.maxWidth && d.lo <= n <= d.hi && n < Pow10(w)
    requires rest == [] || !IsDigit(rest[0])
    ensures MatchDirective(d, PadDigits(n, w) + rest) == Some((w, PadDigits(n, w)))
  {
    var text := PadDigits(n, w);
    var s := text + rest;
    assert s[0] == text[0] && IsDigit(text[0]);
    DigitRunOfDigits(text, rest);
    assert s[..w] == text;
    assert NumberValue(text) == n by {
      Text.ModUnique(n, Pow10(w), 0, n);
    }
  }

  /** A literal takes its own character; a space in the pattern takes a
      single whitespace character that no other whitespace follows. */
  lemma MatchChar(d: Directive, c: char, rest: string)
    requires d == Literal(c) || (d == Whitespace && IsSpace(c) && (rest == [] || !IsSpace(rest[0])))
    ensures MatchDirective(d, [c] + rest) == Some((1, [c]))
  {
    assert ([c] + rest)[..1] == [c];
    if d == Whitespace {
      assert ([c] + rest)[1..] == rest;
    }
  }

  /** One literal or space of the pattern consumes one character. */
  lemma StepChar(pattern: seq<Directive>, k: nat, c: char, rest: string, found: map<char, string>)
    requires k < |pattern|
    requires pattern[k] == Literal(c) || (pattern[k] == Whitespace && IsSpace(c) && (rest == [] || !IsSpace(rest[0])))
    ensures MatchFrom(pattern, k, [c] + rest, found) == MatchFrom(pattern, k + 1, rest, found)
  {
    MatchChar(pattern[k], c, rest);
    MatchStep(pattern, k, [c], rest, found);
  }

  /** A directive that fits a piece takes exactly that piece's text. */
  lemma MatchPiece(d: Directive, p: Piece, next: Pieces, rest: string)
    requires PieceFits(d, p, next, rest)
    ensures MatchDirective(d, PieceText(p) + Render(next, rest)) == Some((|PieceText(p)|, PieceText(p)))
  {
    var after := Render(next, rest);
    match next {
      case Done =>
      case More(q, others) =>
        var head := PieceText(q);
        assert after == head + Render(others, rest);
        if q.Field? && 0 < q.width {
          assert IsDigit(head[0]) && after[0] == head[0];
        } else if head != [] {
          assert after[0] == head[0];
        }
    }
    match p
    case Field(n, w) => MatchPadded(d, n, w, after);
    case Char(c) => MatchChar(d, c, after);
    case Marker(text) => assert (text + after)[..2] == text;
  }

  /** Pieces that fit pattern[k..] are taken off one directive each, and
      the group dictionary collects the fields among them. */
  lemma {:induction false} MatchPieces(pattern: seq<Directive>, k: nat, ps: Pieces, rest: string, found: map<char, string>)
    requires k + Length(ps) <= |pattern| && Fits(pattern, k, ps, rest)
    ensures MatchFrom(pattern, k, Render(ps, rest), found)
            == MatchFrom(pattern, k + Length(ps), rest, Captures(pattern, k, ps, found))
    decreases ps
  {
    match ps
    case Done =>
    case More(p, others) =>
      var next := Capture(pattern[k], PieceText(p), found);
      MatchOnePiece(pattern, k, p, others, rest, found);
      MatchPieces(pattern, k + 1, others, rest, next);
  }

  /** A directive that fits the next piece consumes it and captures it. */
  lemma MatchOnePiece(pattern: seq<Directive>, k: nat, p: Piece, others: Pieces, rest: string, found: map<char, string>)
    requires k < |pattern| && PieceFits(pattern[k], p, others, rest)
    ensures MatchFrom(pattern, k, Render(More(p, others), rest), found)
            == MatchFrom(pattern, k + 1, Render(others, rest), Capture(pattern[k], PieceText(p), found))
  {
    MatchPiece(pattern[k], p, others, rest);
    MatchStep(pattern, k, PieceText(p), Render(others, rest), found);
  }

  /** The pieces of "YYYY-MM-DD HH:MM:SS.ffffff", dt printed with a
      six-digit fraction. */
  function IsoPieces(dt: DateTime): Pieces
    requires Valid(dt)
  {
    More(Field(dt.date.year, 4), More(Char('-'), More(Field(dt.date.month, 2), More(Char('-'),
      More(Field(dt.date.day, 2), More(Char(' '), ClockPieces(dt)))))))
  }

  /** The clock part of that rendering: "HH:MM:SS.ffffff". */
  function ClockPieces(dt: DateTime): Pieces
    requires ValidTime(dt)
  {
    More(Field(dt.hour, 2), More(Char(':'), More(Field(dt.minute, 2), More(Char(':'),
      More(Field(dt.second, 2), More(Char('.'), More(Field(dt.micro, 6), Done)))))))
  }

  /** dt printed with a six-digit fraction, followed by `tail`. This is
      str(dt) only when dt.micro > 0: str() leaves a zero fraction out (see
      StrText). */
  function IsoText(dt: DateTime, tail: string): string
    requires Valid(dt)
  {
    Render(IsoPieces(dt), tail)
  }

  /** "MM/DD/YYYY hh:MM:SS" on a 12-hour clock, a space and the AM/PM
      marker. */
  function UciPieces(date: Date, h: nat, minute: nat, second: nat, ampm: string): Pieces
    requires ValidDate(date) && InRange(date)
  {
    More(Field(date.month, 2), More(Char('/'), More(Field(date.day, 2), More(Char('/'),
      More(Field(date.year, 4), More(Char(' '), More(Field(h, 2), More(Char(':'),
      More(Field(minute, 2), More(Char(':'), More(Field(second, 2), More(Char(' '),
      More(Marker(ampm), Done)))))))))))))
  }

  function UciText(date: Date, h: nat, minute: nat, second: nat, ampm: string): string
    requires ValidDate(date) && InRange(date)
  {
    Render(UciPieces(date, h, minute, second, ampm), "")
  }

  /** The first thirteen directives of "%Y-%m-%d %H:%M:%S.%f MDT" and of
      "%Y-%m-%d %H:%M:%S.%f" take the thirteen pieces of IsoText one by
      one. */
  lemma IsoFits(pattern: seq<Directive>, dt: DateTime, tail: string)
    requires IsoHead(pattern)
    requires Valid(dt) && (tail == [] || !IsDigit(tail[0]))
    ensures Fits(pattern, 0, IsoPieces(dt), tail)
    ensures Length(IsoPieces(dt)) == 13 && Length(ClockPieces(dt)) == 7
  {
    Powers();
    var p13 := Done;
    var p12 := More(Field(dt.micro, 6), p13);
    var p11 := More(Char('.'), p12);
    var p10 := More(Field(dt.second, 2), p11);
    var p9 := More(Char(':'), p10);
    var p8 := More(Field(dt.minute, 2), p9);
    var p7 := More(Char(':'), p8);
    var p6 := More(Field(dt.hour, 2), p7);
    var p5 := More(Char(' '), p6);
    var p4 := More(Field(dt.date.day, 2), p5);
    var p3 := More(Char('-'), p4);
    var p2 := More(Field(dt.date.month, 2), p3);
    var p1 := More(Char('-'), p2);
    var p0 := More(Field(dt.date.year, 4), p1);
    assert Fits(pattern, 12, p12, tail) && Length(p12) == 1;
    assert Fits(pattern, 11, p11, tail) && Length(p11) == 2;
    assert Fits(pattern, 10, p10, tail) && Length(p10) == 3;
    assert Fits(pattern, 9, p9, tail) && Length(p9) == 4;
    assert Fits(pattern, 8, p8, tail) && Length(p8) == 5;
    assert Fits(pattern, 7, p7, tail) && Length(p7) == 6;
    assert Fits(pattern, 6, p6, tail) && Length(p6) == 7;
    assert Fits(pattern, 5, p5, tail) && Length(p5) == 8;
    assert Fits(pattern, 4, p4, tail) && Length(p4) == 9;
    assert Fits(pattern, 3, p3, tail) && Length(p3) == 10;
    assert Fits(pattern, 2, p2, tail) && Length(p2) == 11;
    assert Fits(pattern, 1, p1, tail) && Length(p1) == 12;
    assert Fits(pattern, 0, p0, tail) && Length(p0) == 13;
  }

  /** The group dictionary of "%Y-%m-%d %H:%M:%S.%f" on IsoText. */
  function IsoFields(dt: DateTime): map<char, string>
    requires Valid(dt)
  {
    map[]['Y' := PadDigits(dt.date.year, 4)]['m' := PadDigits(dt.date.month, 2)]['d' := PadDigits(dt.date.day, 2)]
      ['H' := PadDigits(dt.hour, 2)]['M' := PadDigits(dt.minute, 2)]['S' := PadDigits(dt.second, 2)]
      ['f' := PadDigits(dt.micro, 6)]
  }

  /** Capturing the pieces of IsoText gives IsoFields. */
  lemma IsoCaptures(pattern: seq<Directive>, dt: DateTime)
    requires IsoHead(pattern)
    requires Valid(dt) && Length(IsoPieces(dt)) == 13 && Length(ClockPieces(dt)) == 7
    ensures Captures(pattern, 0, IsoPieces(dt), map[]) == IsoFields(dt)
  {
    var p6 := ClockPieces(dt);
    var p5 := More(Char(' '), p6);
    var p4 := More(Field(dt.date.day, 2), p5);
    var p3 := More(Char('-'), p4);
    var p2 := More(Field(dt.date.month, 2), p3);
    var p1 := More(Char('-'), p2);
    var p0 := More(Field(dt.date.year, 4), p1);
    var f0: map<char, string> := map[];
    var f1 := f0['Y' := PadDigits(dt.date.year, 4)];
    var f3 := f1['m' := PadDigits(dt.date.month, 2)];
    var f5 := f3['d' := PadDigits(dt.date.day, 2)];
    calc {
      Captures(pattern, 0, p0, f0);
      Captures(pattern, 1, p1, f1);
      Captures(pattern, 2, p2, f1);
      Captures(pattern, 3, p3, f3);
      Captures(pattern, 4, p4, f3);
      Captures(pattern, 5, p5, f5);
      Captures(pattern, 6, p6, f5);
      { ClockCaptures(pattern, dt, f5); }
      f5['H' := PadDigits(dt.hour, 2)]['M' := PadDigits(dt.minute, 2)]['S' := PadDigits(dt.second, 2)]
        ['f' := PadDigits(dt.micro, 6)];
    }
  }

  /** Capturing the clock pieces adds the hour, minute, second and
      microsecond fields. */
  lemma ClockCaptures(pattern: seq<Directive>, dt: DateTime, found: map<char, string>)
    requires IsoHead(pattern)
    requires ValidTime(dt) && Length(ClockPieces(dt)) == 7
    ensures Captures(pattern, 6, ClockPieces(dt), found)
            == found['H' := PadDigits(dt.hour, 2)]['M' := PadDigits(dt.minute, 2)]['S' := PadDigits(dt.second, 2)]
                 ['f' := PadDigits(dt.micro, 6)]
  {
    var p13 := Done;
    var p12 := More(Field(dt.micro, 6), p13);
    var p11 := More(Char('.'), p12);
    var p10 := More(Field(dt.second, 2), p11);
    var p9 := More(Char(':'), p10);
    var p8 := More(Field(dt.minute, 2), p9);
    var p7 := More(Char(':'), p8);
    var p6 := More(Field(dt.hour, 2), p7);
    var f7 := found['H' := PadDigits(dt.hour, 2)];
    var f9 := f7['M' := PadDigits(dt.minute, 2)];
    var f11 := f9['S' := PadDigits(dt.second, 2)];
    var f13 := f11['f' := PadDigits(dt.micro, 6)];
    calc {
      Captures(pattern, 6, p6, found);
      Captures(pattern, 7, p7, f7);
      Captures(pattern, 8, p8, f7);
      Captures(pattern, 9, p9, f9);
      Captures(pattern, 10, p10, f9);
      Captures(pattern, 11, p11, f11);
      Captures(pattern, 12, p12, f11);
      Captures(pattern, 13, p13, f13);
    }
  }

  lemma Powers()
    ensures Pow10(2) == 100 && Pow10(4) == 10000 && Pow10(6) == 1000000
  {
  }

  /** int() of a zero-padded field. */
  lemma IntOfPadded(n: nat, w: nat)
    requires 0 < w && n < Pow10(w)
    ensures IntOf(PadDigits(n, w)) == n
  {
    var text := PadDigits(n, w);
    assert text[0] != ' ' by {
      assert IsDigit(text[0]);
    }
    assert NumberValue(text) == n by {
      Text.ModUnique(n, Pow10(w), 0, n);
    }
  }

  /** The fields of IsoText build the date-time they were printed from. */
  lemma BuildIso(dt: DateTime)
    requires Valid(dt)
    ensures Build(IsoFields(dt)) == Some(dt)
  {
    Powers();
    var found := IsoFields(dt);
    assert IntOf(found['Y']) == dt.date.year by { IntOfPadded(dt.date.year, 4); }
    assert IntOf(found['m']) == dt.date.month by { IntOfPadded(dt.date.month, 2); }
    assert IntOf(found['d']) == dt.date.day by { IntOfPadded(dt.date.day, 2); }
    assert IntOf(found['H']) == dt.hour by { IntOfPadded(dt.hour, 2); }
    assert IntOf(found['M']) == dt.minute by { IntOfPadded(dt.minute, 2); }
    assert IntOf(found['S']) == dt.second by { IntOfPadded(dt.second, 2); }
    assert IntOf(found['f']) * Pow10(6 - |found['f']|) == dt.micro by { IntOfPadded(dt.micro, 6); }
  }

  /** The thirteen directives both fraction patterns start with read
      IsoText up to its tail and capture IsoFields. */
  lemma IsoPrefix(pattern: seq<Directive>, dt: DateTime, tail: string)
    requires IsoHead(pattern)
    requires Valid(dt) && (tail == [] || !IsDigit(tail[0]))
    ensures MatchFrom(pattern, 0, IsoText(dt, tail), map[]) == MatchFrom(pattern, 13, tail, IsoFields(dt))
  {
    IsoFits(pattern, dt, tail);
    IsoCaptures(pattern, dt);
    MatchCaptured(pattern, IsoPieces(dt), tail, IsoFields(dt));
  }

  /** Pieces that fit from the first directive on are matched, leaving
      the fields they capture. */
  lemma MatchCaptured(pattern: seq<Directive>, ps: Pieces, tail: string, fields: map<char, string>)
    requires Length(ps) <= |pattern| && Fits(pattern, 0, ps, tail)
    requires Captures(pattern, 0, ps, map[]) == fields
    ensures MatchFrom(pattern, 0, Render(ps, tail), map[]) == MatchFrom(pattern, Length(ps), tail, fields)
  {
    MatchPieces(pattern, 0, ps, tail, map[]);
  }

  /** strptime of dt printed with a six-digit fraction, with
      "%Y-%m-%d %H:%M:%S.%f", gives dt back. */
  lemma ParseIsoText(dt: DateTime)
    requires Valid(dt)
    ensures Strptime(GmtPattern, IsoText(dt, "")) == Some(dt)
  {
    IsoHeads();
    IsoPrefix(GmtPattern, dt, "");
    BuildIso(dt);
  }

  /** " MDT" at the end of "%Y-%m-%d %H:%M:%S.%f MDT" adds no field. */
  lemma MatchMdtSuffix(found: map<char, string>)
    ensures MatchFrom(MdtPattern, 13, " MDT", found) == Some(found)
  {
    StepChar(MdtPattern, 13, ' ', "MDT", found);
    StepChar(MdtPattern, 14, 'M', "DT", found);
    StepChar(MdtPattern, 15, 'D', "T", found);
    StepChar(MdtPattern, 16, 'T', "", found);
    assert " " + "MDT" == " MDT" && "M" + "DT" == "MDT" && "D" + "T" == "DT" && "T" + "" == "T";
  }

  /** strptime of dt printed with a six-digit fraction and " MDT", with
      "%Y-%m-%d %H:%M:%S.%f MDT", gives dt back. */
  lemma ParseMdtText(dt: DateTime)
    requires Valid(dt)
    ensures Strptime(MdtPattern, IsoText(dt, " MDT")) == Some(dt)
  {
    IsoHeads();
    IsoPrefix(MdtPattern, dt, " MDT");
    MatchMdtSuffix(IsoFields(dt));
    BuildIso(dt);
  }

  /** The month directive refuses the four-digit year IsoText starts with,
      so the 12-hour pattern never reads it. */
  lemma UciRefusesIsoText(dt: DateTime, tail: string)
    requires Valid(dt)
    ensures Strptime(UciPattern, IsoText(dt, tail)) == None
  {
    Powers();
    var year := PadDigits(dt.date.year, 4);
    var after := Render(IsoPieces(dt).others, tail);
    assert IsoText(dt, tail) == year + after;
    assert after[0] == '-';
    DigitRunOfDigits(year, after);
    assert IsDigit(year[0]);
  }

  /** The pieces of "YYYY-MM-DD HH:MM:SS", dt printed without a
      fraction. */
  function WholeSecondPieces(dt: DateTime): Pieces
    requires Valid(dt)
  {
    More(Field(dt.date.year, 4), More(Char('-'), More(Field(dt.date.month, 2), More(Char('-'),
      More(Field(dt.date.day, 2), More(Char(' '), More(Field(dt.hour, 2), More(Char(':'),
      More(Field(dt.minute, 2), More(Char(':'), More(Field(dt.second, 2), Done)))))))))))
  }

  /** str(dt) followed by `tail`: str() of a datetime prints the six-digit
      fraction only when the microseconds are not zero. */
  function StrText(dt: DateTime, tail: string): string
    requires Valid(dt)
  {
    if dt.micro == 0 then Render(WholeSecondPieces(dt), tail) else IsoText(dt, tail)
  }

  /** The first eleven directives of "%Y-%m-%d %H:%M:%S.%f MDT" and of
      "%Y-%m-%d %H:%M:%S.%f" take the pieces of "YYYY-MM-DD HH:MM:SS". */
  lemma WholeSecondFits(pattern: seq<Directive>, dt: DateTime, tail: string)
    requires IsoHead(pattern)
    requires Valid(dt) && (tail == [] || !IsDigit(tail[0]))
    ensures Fits(pattern, 0, WholeSecondPieces(dt), tail) && Length(WholeSecondPieces(dt)) == 11
  {
    Powers();
    var p11 := Done;
    var p10 := More(Field(dt.second, 2), p11);
    var p9 := More(Char(':'), p10);
    var p8 := More(Field(dt.minute, 2), p9);
    var p7 := More(Char(':'), p8);
    var p6 := More(Field(dt.hour, 2), p7);
    var p5 := More(Char(' '), p6);
    var p4 := More(Field(dt.date.day, 2), p5);
    var p3 := More(Char('-'), p4);
    var p2 := More(Field(dt.date.month, 2), p3);
    var p1 := More(Char('-'), p2);
    var p0 := More(Field(dt.date.year, 4), p1);
    assert Fits(pattern, 10, p10, tail) && Length(p10) == 1;
    assert Fits(pattern, 9, p9, tail) && Length(p9) == 2;
    assert Fits(pattern, 8, p8, tail) && Length(p8) == 3;
    assert Fits(pattern, 7, p7, tail) && Length(p7) == 4;
    assert Fits(pattern, 6, p6, tail) && Length(p6) == 5;
    assert Fits(pattern, 5, p5, tail) && Length(p5) == 6;
    assert Fits(pattern, 4, p4, tail) && Length(p4) == 7;
    assert Fits(pattern, 3, p3, tail) && Length(p3) == 8;
    assert Fits(pattern, 2, p2, tail) && Length(p2) == 9;
    assert Fits(pattern, 1, p1, tail) && Length(p1) == 10;
    assert Fits(pattern, 0, p0, tail) && Length(p0) == 11;
  }

  /** Without a fraction, the '.' of "%S.%f" finds nothing to match, so
      both fraction patterns refuse "YYYY-MM-DD HH:MM:SS" and what follows
      it unless that starts with '.'. */
  lemma WholeSecondRefused(pattern: seq<Directive>, dt: DateTime, tail: string)
    requires pattern == MdtPattern || pattern == GmtPattern
    requires Valid(dt) && (tail == [] || (!IsDigit(tail[0]) && LowerChar(tail[0]) != '.'))
    ensures Strptime(pattern, Render(WholeSecondPieces(dt), tail)) == None
  {
    IsoHeads();
    WholeSecondFits(pattern, dt, tail);
    ElevenPiecesThenDot(pattern, WholeSecondPieces(dt), tail);
  }

  /** Eleven pieces that fit a pattern whose twelfth directive is '.'
      leave that '.' facing text that does not start with '.'. */
  lemma ElevenPiecesThenDot(pattern: seq<Directive>, ps: Pieces, tail: string)
    requires |pattern| > 11 && pattern[11] == Literal('.')
    requires Length(ps) == 11 && Fits(pattern, 0, ps, tail)
    requires tail == [] || LowerChar(tail[0]) != '.'
    ensures MatchFrom(pattern, 0, Render(ps, tail), map[]) == None
  {
    MatchPieces(pattern, 0, ps, tail, map[]);
    DotRefuses(pattern, tail, Captures(pattern, 0, ps, map[]));
  }

  /** The '.' before %f refuses text that does not start with '.'. */
  lemma DotRefuses(pattern: seq<Directive>, tail: string, found: map<char, string>)
    requires |pattern| > 11 && pattern[11] == Literal('.')
    requires tail == [] || LowerChar(tail[0]) != '.'
    ensures MatchFrom(pattern, 11, tail, found) == None
  {
  }

  /** The 12-hour pattern refuses str(dt) whatever its fraction. */
  lemma UciRefusesStrText(dt: DateTime, tail: string)
    requires Valid(dt)
    ensures Strptime(UciPattern, StrText(dt, tail)) == None
  {
    if dt.micro == 0 {
      Powers();
      var year := PadDigits(dt.date.year, 4);
      var after := Render(WholeSecondPieces(dt).others, tail);
      assert StrText(dt, tail) == year + after;
      assert after[0] == '-';
      DigitRunOfDigits(year, after);
      assert IsDigit(year[0]);
    } else {
      UciRefusesIsoText(dt, tail);
    }
  }

  /** strptime reads str(dt) back exactly when str(dt) prints a fraction:
      with zero microseconds both fraction patterns refuse it. */
  lemma ParseStrText(dt: DateTime)
    requires Valid(dt)
    ensures Strptime(GmtPattern, StrText(dt, "")) == if dt.micro > 0 then Some(dt) else None
    ensures Strptime(MdtPattern, StrText(dt, " MDT")) == if dt.micro > 0 then Some(dt) else None
  {
    if dt.micro == 0 {
      WholeSecondRefused(GmtPattern, dt, "");
      WholeSecondRefused(MdtPattern, dt, " MDT");
    } else {
      ParseIsoText(dt);
      ParseMdtText(dt);
    }
  }

  /** "%m/%d/%Y %I:%M:%S %p" takes the thirteen pieces of UciText one by
      one. */
  lemma UciFits(date: Date, h: nat, minute: nat, second: nat, ampm: string)
    requires ValidDate(date) && InRange(date)
    requires 1 <= h <= 12 && minute < 60 && second < 60
    requires Lower(ampm) == "am" || Lower(ampm) == "pm"
    ensures Fits(UciPattern, 0, UciPieces(date, h, minute, second, ampm), "")
    ensures Length(UciPieces(date, h, minute, second, ampm)) == 13
  {
    Powers();
    assert |ampm| == 2 && !IsSpace(ampm[0]) by {
      assert Lower(ampm)[0] == 'a' || Lower(ampm)[0] == 'p';
    }
    var p13 := Done;
    var p12 := More(Marker(ampm), p13);
    var p11 := More(Char(' '), p12);
    var p10 := More(Field(second, 2), p11);
    var p9 := More(Char(':'), p10);
    var p8 := More(Field(minute, 2), p9);
    var p7 := More(Char(':'), p8);
    var p6 := More(Field(h, 2), p7);
    var p5 := More(Char(' '), p6);
    var p4 := More(Field(date.year, 4), p5);
    var p3 := More(Char('/'), p4);
    var p2 := More(Field(date.day, 2), p3);
    var p1 := More(Char('/'), p2);
    var p0 := More(Field(date.month, 2), p1);
    assert PieceFits(UciPattern[12], Marker(ampm), p13, "");
    assert Fits(UciPattern, 12, p12, "") && Length(p12) == 1;
    assert Fits(UciPattern, 11, p11, "") && Length(p11) == 2;
    assert Fits(UciPattern, 10, p10, "") && Length(p10) == 3;
    assert Fits(UciPattern, 9, p9, "") && Length(p9) == 4;
    assert Fits(UciPattern, 8, p8, "") && Length(p8) == 5;
    assert Fits(UciPattern, 7, p7, "") && Length(p7) == 6;
    assert Fits(UciPattern, 6, p6, "") && Length(p6) == 7;
    assert Fits(UciPattern, 5, p5, "") && Length(p5) == 8;
    assert Fits(UciPattern, 4, p4, "") && Length(p4) == 9;
    assert Fits(UciPattern, 3, p3, "") && Length(p3) == 10;
    assert Fits(UciPattern, 2, p2, "") && Length(p2) == 11;
    assert Fits(UciPattern, 1, p1, "") && Length(p1) == 12;
    assert Fits(UciPattern, 0, p0, "") && Length(p0) == 13;
  }

  /** The group dictionary of "%m/%d/%Y %I:%M:%S %p" on UciText. */
  function UciFields(date: Date, h: nat, minute: nat, second: nat, ampm: string): map<char, string>
    requires ValidDate(date) && InRange(date)
  {
    map[]['m' := PadDigits(date.month, 2)]['d' := PadDigits(date.day, 2)]['Y' := PadDigits(date.year, 4)]
      ['I' := PadDigits(h, 2)]['M' := PadDigits(minute, 2)]['S' := PadDigits(second, 2)]['p' := ampm]
  }

  /** Capturing the pieces of UciText gives UciFields. */
  lemma UciCaptures(date: Date, h: nat, minute: nat, second: nat, ampm: string)
    requires ValidDate(date) && InRange(date) && Length(UciPieces(date, h, minute, second, ampm)) == 13
    ensures Captures(UciPattern, 0, UciPieces(date, h, minute, second, ampm), map[])
            == UciFields(date, h, minute, second, ampm)
  {
    var p13 := Done;
    var p12 := More(Marker(ampm), p13);
    var p11 := More(Char(' '), p12);
    var p10 := More(Field(second, 2), p11);
    var p9 := More(Char(':'), p10);
    var p8 := More(Field(minute, 2), p9);
    var p7 := More(Char(':'), p8);
    var p6 := More(Field(h, 2), p7);
    var p5 := More(Char(' '), p6);
    var p4 := More(Field(date.year, 4), p5);
    var p3 := More(Char('/'), p4);
    var p2 := More(Field(date.day, 2), p3);
    var p1 := More(Char('/'), p2);
    var p0 := More(Field(date.month, 2), p1);
    var f0: map<char, string> := map[];
    var f1 := f0['m' := PadDigits(date.month, 2)];
    var f3 := f1['d' := PadDigits(date.day, 2)];
    var f5 := f3['Y' := PadDigits(date.year, 4)];
    var f7 := f5['I' := PadDigits(h, 2)];
    var f9 := f7['M' := PadDigits(minute, 2)];
    var f11 := f9['S' := PadDigits(second, 2)];
    var f13 := f11['p' := ampm];
    calc {
      Captures(UciPattern, 0, p0, f0);
      Captures(UciPattern, 1, p1, f1);
      Captures(UciPattern, 2, p2, f1);
      Captures(UciPattern, 3, p3, f3);
      Captures(UciPattern, 4, p4, f3);
      Captures(UciPattern, 5, p5, f5);
      Captures(UciPattern, 6, p6, f5);
      Captures(UciPattern, 7, p7, f7);
      Captures(UciPattern, 8, p8, f7);
      Captures(UciPattern, 9, p9, f9);
      Captures(UciPattern, 10, p10, f9);
      Captures(UciPattern, 11, p11, f11);
      Captures(UciPattern, 12, p12, f11);
      Captures(UciPattern, 13, p13, f13);
    }
  }

  /** The fields of UciText build the date on the 24-hour clock. */
  lemma BuildUci(date: Date, h: nat, minute: nat, second: nat, ampm: string)
    requires ValidDate(date) && InRange(date)
    requires 1 <= h <= 12 && minute < 60 && second < 60
    ensures Build(UciFields(date, h, minute, second, ampm)) == Some(DateTime(date, ClockHour(h, ampm), minute, second, 0))
  {
    Powers();
    var found := UciFields(date, h, minute, second, ampm);
    assert IntOf(found['m']) == date.month by { IntOfPadded(date.month, 2); }
    assert IntOf(found['d']) == date.day by { IntOfPadded(date.day, 2); }
    assert IntOf(found['Y']) == date.year by { IntOfPadded(date.year, 4); }
    assert IntOf(found['I']) == h by { IntOfPadded(h, 2); }
    assert IntOf(found['M']) == minute by { IntOfPadded(minute, 2); }
    assert IntOf(found['S']) == second by { IntOfPadded(second, 2); }
  }

  /** strptime(text, "%m/%d/%Y %I:%M:%S %p") reads the 12-hour clock: the
      hour is ClockHour of the hour field and the marker, so 12 AM is
      midnight. */
  lemma ParseUciText(date: Date, h: nat, minute: nat, second: nat, ampm: string)
    requires ValidDate(date) && InRange(date)
    requires 1 <= h <= 12 && minute < 60 && second < 60
    requires Lower(ampm) == "am" || Lower(ampm) == "pm"
    ensures Strptime(UciPattern, UciText(date, h, minute, second, ampm))
            == Some(DateTime(date, ClockHour(h, ampm), minute, second, 0))
  {
    UciFits(date, h, minute, second, ampm);
    MatchPieces(UciPattern, 0, UciPieces(date, h, minute, second, ampm), "", map[]);
    UciCaptures(date, h, minute, second, ampm);
    BuildUci(date, h, minute, second, ampm);
  }

  // ---------------------------------------------------------------------
  // convert_timestamp

  /** The UTC offset, in seconds, that pytz's localize gives a naive
      date-time in one named zone (America/Denver, America/Los_Angeles). */
  type Zone = DateTime -> int

  datatype TimeError = FormatNotRecognized(text: string) | OutOfRange

  /** pytz's localize tries the naive date-time one day earlier and one day
      later; on the first and the last day datetime can hold, one of them
      raises OverflowError, which no except clause here catches. */
  predicate LocalizeOverflows(dt: DateTime)
  {
    dt.date == Date(1, 1, 1) || dt.date == Date(9999, 12, 31)
  }

  /** aware.timestamp() for a naive date-time localised with the offset. */
  function EpochOf(dt: DateTime, offset: int): real
    requires 1 <= dt.date.month <= 12
  {
    (Seconds(dt) - offset) as real + dt.micro as real / 1000000.0
  }

  /** convert_timestamp of common_modules/utilities.py: the one pattern
      "%Y-%m-%d %H:%M:%S.%f MDT", read in America/Denver; anything else
      ends the run (Failure), and so does localize's overflow on the
      first and last representable day. */
  function ConvertTimestamp(text: string, denver: Zone): (r: Result<real, TimeError>)
    ensures r.Failure? <==> (Strptime(MdtPattern, text).None?
                              || LocalizeOverflows(Strptime(MdtPattern, text).value))
    ensures Strptime(MdtPattern, text).None? ==> r == Failure(FormatNotRecognized(text))
    ensures Strptime(MdtPattern, text).Some? ==>
              (LocalizeOverflows(Strptime(MdtPattern, text).value) ==> r == Failure(OutOfRange))
    ensures r.Success? ==> var dt := Strptime(MdtPattern, text).value;
                           r.value == EpochOf(dt, denver(dt))
  {
    match Strptime(MdtPattern, text)
    case None => Failure(FormatNotRecognized(text))
    case Some(dt) => if LocalizeOverflows(dt) then Failure(OutOfRange) else Success(EpochOf(dt, denver(dt)))
  }

  /** convert_timestamp of utilities.py: first "%m/%d/%Y %I:%M:%S %p" in
      America/Los_Angeles; failing that, "%Y-%m-%d %H:%M:%S.%f" moved one
      hour on and read as the machine's local time (localTimestamp is
      naive.timestamp()). localize's overflow on the first and last
      representable day, and moving past year 9999, raise OverflowError,
      which the except clauses do not catch; neither pattern matching ends
      the run too. */
  function RootConvertTimestamp(text: string, losAngeles: Zone, localTimestamp: DateTime -> real): (r: Result<real, TimeError>)
    ensures r.Failure? <==> if Strptime(UciPattern, text).Some?
                            then LocalizeOverflows(Strptime(UciPattern, text).value)
                            else Strptime(GmtPattern, text).None?
                                 || !InRange(AddHour(Strptime(GmtPattern, text).value).date)
    ensures Strptime(UciPattern, text).Some? ==>
              var dt := Strptime(UciPattern, text).value;
              r == if LocalizeOverflows(dt) then Failure(OutOfRange) else Success(EpochOf(dt, losAngeles(dt)))
  {
    match Strptime(UciPattern, text)
    case Some(dt) => if LocalizeOverflows(dt) then Failure(OutOfRange) else Success(EpochOf(dt, losAngeles(dt)))
    case None =>
      match Strptime(GmtPattern, text)
      case None => Failure(FormatNotRecognized(text))
      case Some(dt) =>
        var later := AddHour(dt);
        if InRange(later.date) then Success(localTimestamp(later)) else Failure(OutOfRange)
  }

  /** A text the first rule accepts never reaches the second: the result
      does not depend on local time at all, and it fails only where
      localize overflows. */
  lemma FirstRuleWins(text: string, losAngeles: Zone, local1: DateTime -> real, local2: DateTime -> real)
    requires Strptime(UciPattern, text).Some?
    ensures RootConvertTimestamp(text, losAngeles, local1) == RootConvertTimestamp(text, losAngeles, local2)
    ensures RootConvertTimestamp(text, losAngeles, local1).Success?
            <==> !LocalizeOverflows(Strptime(UciPattern, text).value)
  {
  }

  /** The fallback rule reads the wall-clock time one hour later: the
      local-time function sees the valid date-time 3600 seconds on, with the
      microseconds kept (AddHour's contract). */
  lemma FallbackAddsOneHour(text: string, losAngeles: Zone, localTimestamp: DateTime -> real)
    requires Strptime(UciPattern, text).None? && Strptime(GmtPattern, text).Some?
    requires InRange(AddHour(Strptime(GmtPattern, text).value).date)
    ensures var dt := Strptime(GmtPattern, text).value;
            RootConvertTimestamp(text, losAngeles, localTimestamp) == Success(localTimestamp(AddHour(dt)))
  {
  }

  /** A marker printed as IsoText(dt, " MDT") converts to dt's instant in
      America/Denver, unless localize overflows on its day. */
  lemma ConvertMdtText(dt: DateTime, denver: Zone)
    requires Valid(dt)
    ensures ConvertTimestamp(IsoText(dt, " MDT"), denver)
            == if LocalizeOverflows(dt) then Failure(OutOfRange) else Success(EpochOf(dt, denver(dt)))
  {
    ParseMdtText(dt);
  }

  /** A marker on the 12-hour clock converts to the instant of its 24-hour
      reading in America/Los_Angeles, whatever the local time, unless
      localize overflows on its day. */
  lemma RootConvertUciText(date: Date, h: nat, minute: nat, second: nat, ampm: string,
                           losAngeles: Zone, localTimestamp: DateTime -> real)
    requires ValidDate(date) && InRange(date)
    requires 1 <= h <= 12 && minute < 60 && second < 60
    requires Lower(ampm) == "am" || Lower(ampm) == "pm"
    ensures var dt := DateTime(date, ClockHour(h, ampm), minute, second, 0);
            RootConvertTimestamp(UciText(date, h, minute, second, ampm), losAngeles, localTimestamp)
              == if LocalizeOverflows(dt) then Failure(OutOfRange) else Success(EpochOf(dt, losAngeles(dt)))
  {
    ParseUciText(date, h, minute, second, ampm);
  }

  /** The 12-hour reading of 11 PM on 9999-12-31 ("12/31/9999 11:00:00
      PM") is read by the first rule, and localize then overflows: the run
      ends instead of reaching the fallback. */
  lemma LastDayOverflows(losAngeles: Zone, localTimestamp: DateTime -> real)
    ensures RootConvertTimestamp(UciText(Date(9999, 12, 31), 11, 0, 0, "PM"), losAngeles, localTimestamp)
            == Failure(OutOfRange)
  {
    Powers();
    RootConvertUciText(Date(9999, 12, 31), 11, 0, 0, "PM", losAngeles, localTimestamp);
  }

  /** A marker printed as IsoText(dt, "") falls through to the second rule and
      reads as local time one hour after dt. */
  lemma RootConvertIsoText(dt: DateTime, losAngeles: Zone, localTimestamp: DateTime -> real)
    requires Valid(dt) && InRange(AddHour(dt).date)
    ensures RootConvertTimestamp(IsoText(dt, ""), losAngeles, localTimestamp) == Success(localTimestamp(AddHour(dt)))
  {
    UciRefusesIsoText(dt, "");
    ParseIsoText(dt);
  }

  /** convert_timestamp of common_modules/utilities.py on str(dt) + " MDT":
      dt's instant in America/Denver when the microseconds are not zero,
      unless localize overflows on its day; with zero microseconds str()
      drops the fraction and the run ends. */
  lemma ConvertStrText(dt: DateTime, denver: Zone)
    requires Valid(dt)
    ensures ConvertTimestamp(StrText(dt, " MDT"), denver)
            == if dt.micro == 0 then Failure(FormatNotRecognized(StrText(dt, " MDT")))
               else if LocalizeOverflows(dt) then Failure(OutOfRange)
               else Success(EpochOf(dt, denver(dt)))
  {
    ParseStrText(dt);
  }

  /** convert_timestamp of utilities.py on str(dt): the fallback's local
      time one hour after dt when the microseconds are not zero; with zero
      microseconds neither rule reads it and the run ends. */
  lemma RootConvertStrText(dt: DateTime, losAngeles: Zone, localTimestamp: DateTime -> real)
    requires Valid(dt) && InRange(AddHour(dt).date)
    ensures RootConvertTimestamp(StrText(dt, ""), losAngeles, localTimestamp)
            == if dt.micro > 0 then Success(localTimestamp(AddHour(dt)))
               else Failure(FormatNotRecognized(StrText(dt, "")))
  {
    UciRefusesStrText(dt, "");
    ParseStrText(dt);
  }

  // ---------------------------------------------------------------------
  // convert_timestamp_to_mdt

  function Trunc(t: real): int
  {
    if t >= 0.0 then t.Floor else -((-t).Floor)
  }

  /** Python's round() of a real: to the nearest integer, ties to even. */
  function RoundHalfEven(x: real): (n: int)
    ensures x - 0.5 <= n as real <= x + 0.5
  {
    var f := x.Floor;
    var r := x - f as real;
    if r < 0.5 then f
    else if r > 0.5 then f + 1
    else if f % 2 == 0 then f else f + 1
  }

  /** The whole seconds of datetime.fromtimestamp(t): split t into integer
      and fractional parts, round the fraction to microseconds, and carry
      a microsecond count that reaches a whole second or goes negative. */
  function WholeSeconds(t: real): int
  {
    var ip := Trunc(t);
    var us := RoundHalfEven((t - ip as real) * 1000000.0);
    if us >= 1000000 then ip + 1 else if us < 0 then ip - 1 else ip
  }

  /** MDT is taken to be UTC-6 all year. */
  const MdtOffset := -21600

  /** strftime('%Y-%m-%d %H:%M:%S MDT') */
  function RenderMdt(dt: DateTime): string
    requires dt.date.year >= 0 && dt.date.month >= 0 && dt.date.day >= 0
    requires dt.hour >= 0 && dt.minute >= 0 && dt.second >= 0
  {
    PadDigits(dt.date.year, 4) + ("-" + (PadDigits(dt.date.month, 2) + ("-" + (PadDigits(dt.date.day, 2)
      + (" " + (PadDigits(dt.hour, 2) + (":" + (PadDigits(dt.minute, 2) + (":" + (PadDigits(dt.second, 2)
      + " MDT"))))))))))
  }

  /** The wall-clock reading convert_timestamp_to_mdt prints: the UTC
      date-time of t moved six hours back. A UTC or shifted date-time
      outside years 1..9999 raises (Failure). */
  function MdtReading(t: real): (r: Result<DateTime, TimeError>)
    ensures r.Success? <==> InRange(FromSeconds(WholeSeconds(t)).date)
                            && InRange(FromSeconds(WholeSeconds(t) + MdtOffset).date)
    ensures r.Success? ==> Valid(r.value) && r.value.micro == 0
                           && Seconds(r.value) == WholeSeconds(t) + MdtOffset
  {
    var secs := WholeSeconds(t);
    if !InRange(FromSeconds(secs).date) then Failure(OutOfRange)
    else
      var mdt := FromSeconds(secs + MdtOffset);
      SecondsOfFromSeconds(secs + MdtOffset);
      if !InRange(mdt.date) then Failure(OutOfRange) else Success(mdt)
  }

  /** convert_timestamp_to_mdt: the MDT reading of t, printed without its
      fraction of a second. */
  function ConvertTimestampToMdt(t: real): (r: Result<string, TimeError>)
    ensures r.Success? <==> MdtReading(t).Success?
  {
    match MdtReading(t)
    case Failure(e) => Failure(e)
    case Success(mdt) => Success(RenderMdt(mdt))
  }

  /** Adding a fraction of a second that does not round up to a whole one
      leaves the whole seconds alone, for instants before 1970 too. */
  lemma WholeSecondsOfFraction(n: int, f: real)
    requires 0.0 <= f < 0.9999995
    ensures WholeSeconds(n as real + f) == n
  {
    var t := n as real + f;
    var ip := Trunc(t);
    var us := RoundHalfEven((t - ip as real) * 1000000.0);
    if n >= 0 {
      assert ip == n;
      assert 0 <= us < 1000000;
    } else if f == 0.0 {
      assert (-t).Floor == -n;
      assert ip == n;
    } else {
      assert (-t).Floor == -n - 1 by {
        assert (-n - 1) as real <= -t < (-n) as real;
      }
      assert ip == n + 1;
      assert t - ip as real == f - 1.0;
      assert us < 0;
    }
  }

  /** The display is UTC-6 whatever the date: the instant six hours after a
      wall-clock reading, plus any fraction of a second that does not round
      up, reads as that wall-clock time. */
  lemma ReadingShowsMdt(dt: DateTime, f: real)
    requires Valid(dt) && dt.micro == 0 && 0.0 <= f < 0.9999995
    requires InRange(FromSeconds(Seconds(dt) - MdtOffset).date)
    ensures MdtReading((Seconds(dt) - MdtOffset) as real + f) == Success(dt)
  {
    var secs := Seconds(dt) - MdtOffset;
    WholeSecondsOfFraction(secs, f);
    FromSecondsOfSeconds(dt);
  }

  /** ... and prints as that reading. */
  lemma DisplayShowsMdt(dt: DateTime, f: real)
    requires Valid(dt) && dt.micro == 0 && 0.0 <= f < 0.9999995
    requires InRange(FromSeconds(Seconds(dt) - MdtOffset).date)
    ensures ConvertTimestampToMdt((Seconds(dt) - MdtOffset) as real + f) == Success(RenderMdt(dt))
  {
    ReadingShowsMdt(dt, f);
  }

  // ---------------------------------------------------------------------
  // stop_filter

  /** stop_filter: the packet lies more than delta seconds after the
      marker. There is no lower bound: a packet before the marker never
      stops the read. */
  function StopFilter(time: real, marker: real, delta: real): (stop: bool)
    ensures stop <==> time > marker + delta
  {
    time - marker > delta
  }

  /** With a non-negative delta, neither a packet at the end of the window
      nor one before the marker stops the read, and once a packet stops it
      every later one would too. */
  lemma StopFilterBounds(time: real, later: real, marker: real, delta: real)
    requires delta >= 0.0
    ensures !StopFilter(marker + delta, marker, delta)
    ensures time <= marker ==> !StopFilter(time, marker, delta)
    ensures StopFilter(time, marker, delta) && time <= later ==> StopFilter(later, marker, delta)
  {
  }
}
