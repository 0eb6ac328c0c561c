/**
  The texts that the parser reads, told without it: what stands between the brackets, with
  any blanks, any escapes and digits in either case, and what each of them means.
  */
module JsonGrammar {
  import opened Collections
  import opened JsonText
  import opened JsonRoundTrip

  // ----- Bytes of a character -----

  /** A byte that continues a character. */
  predicate Continues(c: char)
  {
    0x80 <= c as nat <= 0xBF
  }

  /** The character at the front of a text in UTF-8 and the text after it, as in section 3 of RFC 3629: the first byte
      says how many follow, and the shortest form is the only one. */
  function Decode(s: string): Option<(nat, string)>
  {
    var lead := At(s) as nat;
    if 0 < lead <= 0x7F then Some((lead, s[1..]))
    else if 0xC2 <= lead <= 0xDF && |s| >= 2 && Continues(s[1]) then
      Some(((lead - 0xC0) * 0x40 + (s[1] as nat - 0x80), s[2..]))
    else if 0xE0 <= lead <= 0xEF && |s| >= 3 && Continues(s[1]) && Continues(s[2]) then
      var u := (lead - 0xE0) * 0x1000 + (s[1] as nat - 0x80) * 0x40 + (s[2] as nat - 0x80);
      if u < 0x800 then None else Some((u, s[3..]))
    else if 0xF0 <= lead <= 0xF4 && |s| >= 4 && Continues(s[1]) && Continues(s[2]) && Continues(s[3]) then
      var u := (lead - 0xF0) * 0x4_0000 + (s[1] as nat - 0x80) * 0x1000 + (s[2] as nat - 0x80) * 0x40 +
               (s[3] as nat - 0x80);
      if u < 0x1_0000 || u >= 0x11_0000 then None else Some((u, s[4..]))
    else None
  }

  lemma SixBits(u: nat)
    ensures u == u / 64 * 64 + u % 64
    ensures u / 64 == u / 4096 * 64 + u / 64 % 64
    ensures u / 4096 == u / 262144 * 64 + u / 4096 % 64
  {}

  /** What is written for a character decodes to it, whatever follows. */
  lemma Utf8Decodes(u: nat, rest: string)
    requires 0 < u < 0x11_0000
    ensures Decode(Utf8(u) + rest) == Some((u, rest))
  {
    var s := Utf8(u) + rest;
    SixBits(u);
    assert s[|Utf8(u)|..] == rest;
    if u >= 0x80 {
      assert s[1] == Utf8(u)[1];
    }
    if u >= 0x800 {
      assert s[2] == Utf8(u)[2];
    }
    if u >= 0x1_0000 {
      assert s[3] == Utf8(u)[3];
    }
  }

  // ----- Numbers -----

  type Dec = d: nat | d < 10

  type Nibble = d: nat | d < 16

  const DIGITS := "0123456789"

  /** The digits, most significant first. */
  function DigitsText(ds: seq<Dec>): string
  {
    if ds == [] then "" else [DIGITS[ds[0]]] + DigitsText(ds[1..])
  }

  function DigitsValue(ds: seq<Dec>): nat
  {
    if ds == [] then 0 else 10 * DigitsValue(ds[..|ds| - 1]) + ds[|ds| - 1]
  }

  lemma DigitIs(d: Dec)
    ensures IsDigit(DIGITS[d]) && DigitValue(DIGITS[d]) == d
  {}

  lemma ReadsDigit(d: Dec, n: nat, more: string)
    ensures ReadDigits([DIGITS[d]] + more, n) == ReadDigits(more, 10 * n + d)
  {
    DigitIs(d);
    assert ([DIGITS[d]] + more)[1..] == more;
  }

  lemma OneMoreDigit(done: seq<Dec>, d: Dec)
    ensures DigitsValue(done + [d]) == 10 * DigitsValue(done) + d
  {
    assert (done + [d])[..|done|] == done;
  }

  /** The loop that reads digits has read the number of the digits so far. */
  lemma {:induction false} ReadsDigits(done: seq<Dec>, ds: seq<Dec>, rest: string)
    requires !IsDigit(At(rest))
    ensures ReadDigits(DigitsText(ds) + rest, DigitsValue(done)) == (DigitsValue(done + ds), rest)
    decreases |ds|
  {
    if ds == [] {
      assert DigitsText(ds) + rest == rest && done + ds == done;
    } else {
      Assoc([DIGITS[ds[0]]], DigitsText(ds[1..]), rest);
      ReadsDigit(ds[0], DigitsValue(done), DigitsText(ds[1..]) + rest);
      OneMoreDigit(done, ds[0]);
      assert done + ds == (done + [ds[0]]) + ds[1..];
      ReadsDigits(done + [ds[0]], ds[1..], rest);
    }
  }

  /** A number may have one zero in front of its digits, or a sign and no digits at all. */
  predicate ProperNumber(minus: bool, zero: bool, ds: seq<Dec>)
  {
    && (ds != [] ==> ds[0] != 0)
    && (minus || zero || ds != [])
    && INT_MIN <= NumberValue(minus, ds) <= INT_MAX
  }

  function NumberText(minus: bool, zero: bool, ds: seq<Dec>): string
  {
    When(minus, "-") + (When(zero, "0") + DigitsText(ds))
  }

  function NumberValue(minus: bool, ds: seq<Dec>): int
  {
    var n: int := DigitsValue(ds);
    if minus then -n else n
  }

  /** The text after the digits does not carry them on; after a lone zero another one does not. */
  predicate FiguresEnd(zero: bool, ds: seq<Dec>, rest: string)
  {
    (!IsDigit(At(rest)) || (zero && ds == [] && At(rest) == '0')) && !HasFraction(rest)
  }

  lemma WholeReads(zero: bool, ds: seq<Dec>, rest: string)
    requires (ds != [] ==> ds[0] != 0) && FiguresEnd(zero, ds, rest)
    ensures ReadWhole(When(zero, "0") + (DigitsText(ds) + rest)) == (DigitsValue(ds), rest)
  {
    var t := DigitsText(ds) + rest;
    assert ("0" + t)[1..] == t && "" + t == t;
    if ds == [] {
      assert t == rest;
    } else {
      DigitIs(ds[0]);
      assert t[0] == DIGITS[ds[0]];
      ReadsDigits([], ds, rest);
      assert [] + ds == ds;
    }
  }

  lemma SignReads(minus: bool, whole: string, n: nat, v: int, rest: string)
    requires ReadWhole(whole) == (n, rest) && !HasFraction(rest) && (!minus ==> At(whole) != '-')
    requires v == if minus then 0 - n else n
    requires INT_MIN <= v <= INT_MAX
    ensures ParseNumber(When(minus, "-") + whole) == Ok(v, rest)
  {
    assert ("-" + whole)[1..] == whole && "" + whole == whole;
  }

  lemma WholeFirst(zero: bool, ds: seq<Dec>, rest: string)
    requires zero || ds != []
    ensures IsDigit(At(When(zero, "0") + (DigitsText(ds) + rest)))
  {
    if !zero {
      DigitIs(ds[0]);
    }
  }

  lemma NumberReads(minus: bool, zero: bool, ds: seq<Dec>, rest: string)
    requires ProperNumber(minus, zero, ds) && FiguresEnd(zero, ds, rest)
    ensures ParseNumber(NumberText(minus, zero, ds) + rest) == Ok(NumberValue(minus, ds), rest)
    ensures var c := At(NumberText(minus, zero, ds) + rest); c == '-' || IsDigit(c)
  {
    var whole := When(zero, "0") + (DigitsText(ds) + rest);
    Regroup(When(minus, "-"), When(zero, "0"), DigitsText(ds), "", rest);
    assert NumberText(minus, zero, ds) + rest == When(minus, "-") + whole;
    if zero || ds != [] {
      WholeFirst(zero, ds, rest);
    }
    WholeReads(zero, ds, rest);
    SignReads(minus, whole, DigitsValue(ds), NumberValue(minus, ds), rest);
    assert !minus ==> "" + whole == whole;
  }

  // ----- Strings -----

  /** A hexadecimal digit, and whether it is written as a capital. */
  datatype Hex = Hex(d: Nibble, capital: bool) {
    function Text(): char { if capital then "0123456789ABCDEF"[d] else "0123456789abcdef"[d] }
  }

  /** The four digits of an escape. */
  datatype Unit = Unit(a: Hex, b: Hex, c: Hex, d: Hex) {
    function Text(): string { [a.Text(), b.Text(), c.Text(), d.Text()] }

    function Value(): nat { a.d * 0x1000 + b.d * 0x100 + c.d * 0x10 + d.d }
  }

  lemma HexIs(h: Hex)
    ensures IsHex(h.Text()) && HexValue(h.Text()) == h.d
  {}

  lemma UnitIs(u: Unit)
    ensures StartsWithHex4(u.Text()) && Hex4(u.Text()) == u.Value()
  {
    HexIs(u.a);
    HexIs(u.b);
    HexIs(u.c);
    HexIs(u.d);
  }

  datatype Piece =
    | Plain(c: char)
    | Short(c: char)
    | Escape(u: Unit)
    | Escapes(u: Unit, v: Unit)

  function PieceText(p: Piece): string
    requires ProperPiece(p)
  {
    match p
    case Plain(c) => [c]
    case Short(c) => ['\\', c]
    case Escape(u) => "\\u" + u.Text()
    case Escapes(u, v) => "\\u" + u.Text() + ("\\u" + v.Text())
  }

  predicate ProperPiece(p: Piece)
  {
    match p
    case Plain(c) => c != '\0' && c != '\"' && c != '\\'
    case Short(c) => c != '\0' && c != 'u'
    case Escape(u) => true
    case Escapes(u, v) => 0xD800 <= u.Value() < 0xDC00
  }

  /** What a piece adds to the string.  Half a pair adds nothing, and neither does a NUL. */
  function PieceMeaning(p: Piece): string
    requires ProperPiece(p)
  {
    match p
    case Plain(c) => [c]
    case Short(c) =>
      [if c == 'b' then 8 as char else if c == 'f' then 12 as char else if c == 'n' then 10 as char
       else if c == 'r' then 13 as char else if c == 't' then 9 as char else c]
    case Escape(u) => if u.Value() == 0 || 0xD800 <= u.Value() < 0xE000 then "" else Utf8(u.Value())
    case Escapes(u, v) => if 0xDC00 <= v.Value() < 0xE000 then Utf8(Combine(u.Value(), v.Value())) else ""
  }

  /** The first half of a pair takes another escape with it. */
  predicate TakesNext(p: Piece)
  {
    p.Escape? && 0xD800 <= p.u.Value() < 0xDC00
  }

  predicate ProperPieces(ps: seq<Piece>)
  {
    && (forall i | 0 <= i < |ps| :: ProperPiece(ps[i]))
    && (forall i | 0 < i < |ps| :: TakesNext(ps[i - 1]) ==> ps[i].Plain? || ps[i].Short?)
  }

  function PiecesText(ps: seq<Piece>): string
    requires ProperPieces(ps)
  {
    if ps == [] then "" else PieceText(ps[0]) + PiecesText(ps[1..])
  }

  function PiecesMeaning(ps: seq<Piece>): string
    requires ProperPieces(ps)
  {
    if ps == [] then "" else PieceMeaning(ps[0]) + PiecesMeaning(ps[1..])
  }

  /** No escape of four digits comes next. */
  predicate NoEscape(s: string)
  {
    At(s) != '\\' || At(s[1..]) != 'u'
  }

  lemma EscapeReads(u: Unit, rest: string)
    requires TakesNext(Escape(u)) ==> NoEscape(rest)
    ensures ReadEscape("\\u" + (u.Text() + rest)) == Ok(PieceMeaning(Escape(u)), rest)
  {
    UnitIs(u);
    Unicode(u.Text(), rest);
  }

  lemma EscapesRead(u: Unit, v: Unit, rest: string)
    requires ProperPiece(Escapes(u, v))
    ensures ReadEscape("\\u" + (u.Text() + ("\\u" + (v.Text() + rest)))) == Ok(PieceMeaning(Escapes(u, v)), rest)
  {
    UnitIs(u);
    UnitIs(v);
    Unicode(u.Text(), "\\u" + (v.Text() + rest));
    Unicode(v.Text(), rest);
  }

  lemma Escaped(s: string, value: string, rest: string)
    requires At(s) == '\\' && ReadEscape(s) == Ok(value, rest)
    ensures Unescape(s) == Prepend(value, Unescape(rest))
  {}

  lemma ShortReads(c: char, rest: string)
    requires ProperPiece(Short(c))
    ensures ReadEscape(['\\', c] + rest) == Ok(PieceMeaning(Short(c)), rest)
  {
    var s := ['\\', c] + rest;
    assert s[1..] == [c] + rest && s[2..] == rest;
  }

  lemma PieceEscapes(p: Piece, rest: string)
    requires ProperPiece(p) && !p.Plain? && (TakesNext(p) ==> NoEscape(rest))
    ensures At(PieceText(p) + rest) == '\\'
    ensures ReadEscape(PieceText(p) + rest) == Ok(PieceMeaning(p), rest)
  {
    match p
    case Short(c) =>
      ShortReads(c, rest);
    case Escape(u) =>
      EscapeReads(u, rest);
      Assoc("\\u", u.Text(), rest);
    case Escapes(u, v) =>
      EscapesRead(u, v, rest);
      Regroup("\\u", u.Text(), "\\u", v.Text(), rest);
      Assoc("\\u" + u.Text(), "\\u", v.Text());
  }

  lemma PieceReads(p: Piece, rest: string)
    requires ProperPiece(p) && (TakesNext(p) ==> NoEscape(rest))
    ensures Unescape(PieceText(p) + rest) == Prepend(PieceMeaning(p), Unescape(rest))
  {
    if p.Plain? {
      assert ([p.c] + rest)[1..] == rest;
    } else {
      PieceEscapes(p, rest);
      Escaped(PieceText(p) + rest, PieceMeaning(p), rest);
    }
  }

  /** A string ends at its quote or with the text. */
  predicate EndsString(s: string)
  {
    At(s) == '\"' || At(s) == '\0'
  }

  lemma NextIsNoEscape(ps: seq<Piece>, tail: string)
    requires ProperPieces(ps) && EndsString(tail) && (ps != [] ==> ps[0].Plain? || ps[0].Short?)
    ensures NoEscape(PiecesText(ps) + tail)
  {
    if ps != [] && ps[0].Short? {
      var s := PiecesText(ps) + tail;
      assert s[1] == PieceText(ps[0])[1] == ps[0].c;
    }
  }

  lemma {:induction false} PiecesRead(ps: seq<Piece>, tail: string)
    requires ProperPieces(ps) && EndsString(tail)
    ensures Unescape(PiecesText(ps) + tail) == Ok(PiecesMeaning(ps), if At(tail) == '\"' then tail[1..] else tail)
  {
    if ps == [] {
      assert PiecesText(ps) + tail == tail;
    } else {
      var rest := PiecesText(ps[1..]) + tail;
      PiecesRead(ps[1..], tail);
      assert TakesNext(ps[0]) && |ps| > 1 ==> ps[1].Plain? || ps[1].Short?;
      if TakesNext(ps[0]) {
        NextIsNoEscape(ps[1..], tail);
      }
      PieceReads(ps[0], rest);
      Assoc(PieceText(ps[0]), PiecesText(ps[1..]), tail);
    }
  }

  // ----- Texts -----

  /** A value as it is written: with blanks around its parts and any of the ways to write numbers and characters. */
  datatype Written =
    | WordNull
    | WordFalse
    | WordTrue
    | Figures(minus: bool, zero: bool, ds: seq<Dec>)
    | Quoted(pieces: seq<Piece>, closed: bool)
    | Listed(blank: string, items: seq<Item>)
    | Braced(blank: string, lines: seq<Line>)

  datatype Item = Item(before: string, value: Written, after: string)

  datatype Line = Line(before: string, name: seq<Piece>, colon: string, gap: string, value: Written, after: string)

  predicate Blank(s: string)
  {
    forall i | 0 <= i < |s| :: '\0' < s[i] <= ' '
  }

  /** The value ends where the text after it begins. */
  predicate Ends(w: Written, rest: string)
  {
    match w
    case Figures(_, zero, ds) => FiguresEnd(zero, ds, rest)
    case Quoted(_, closed) => closed || At(rest) == '\0'
    case _ => true
  }

  /** Only a string that nothing follows may lack its closing quote. */
  predicate Proper(w: Written)
  {
    match w
    case Figures(minus, zero, ds) => ProperNumber(minus, zero, ds)
    case Quoted(ps, _) => ProperPieces(ps)
    case Listed(blank, items) => Blank(blank) && ProperItems(items)
    case Braced(blank, lines) => Blank(blank) && ProperLines(lines)
    case _ => true
  }

  predicate ProperItems(items: seq<Item>)
  {
    items != [] ==>
      && Blank(items[0].before) && Proper(items[0].value) && Blank(items[0].after) && ProperItems(items[1..])
      && (items[0].value.Quoted? ==> items[0].value.closed)
  }

  predicate ProperLines(lines: seq<Line>)
  {
    lines != [] ==>
      && Blank(lines[0].before) && ProperPieces(lines[0].name) && Blank(lines[0].colon) && Blank(lines[0].gap)
      && Proper(lines[0].value) && Blank(lines[0].after) && ProperLines(lines[1..])
      && (lines[0].value.Quoted? ==> lines[0].value.closed)
  }

  /** The text of a value and what follows it. */
  function Write(w: Written, rest: string): string
    requires Proper(w)
    decreases w, 1
  {
    match w
    case WordNull => "null" + rest
    case WordFalse => "false" + rest
    case WordTrue => "true" + rest
    case Figures(minus, zero, ds) => NumberText(minus, zero, ds) + rest
    case Quoted(ps, closed) => "\"" + (PiecesText(ps) + (When(closed, "\"") + rest))
    case Listed(blank, items) => "[" + (blank + WriteItems(items, rest))
    case Braced(blank, lines) => "{" + (blank + WriteLines(lines, rest))
  }

  function WriteItems(items: seq<Item>, rest: string): string
    requires ProperItems(items)
    decreases items, 0
  {
    if items == [] then "]" + rest
    else
      var more := if |items| == 1 then "]" + rest else "," + WriteItems(items[1..], rest);
      items[0].before + Write(items[0].value, items[0].after + more)
  }

  function WriteLines(lines: seq<Line>, rest: string): string
    requires ProperLines(lines)
    decreases lines, 0
  {
    if lines == [] then "}" + rest
    else
      var more := if |lines| == 1 then "}" + rest else "," + WriteLines(lines[1..], rest);
      WriteLine(lines[0], Write(lines[0].value, lines[0].after + more))
  }

  function WriteLine(line: Line, value: string): string
    requires ProperPieces(line.name)
  {
    line.before + ("\"" + (PiecesText(line.name) + ("\"" + (line.colon + (":" + (line.gap + value))))))
  }

  function Meaning(w: Written): Json
    requires Proper(w)
    decreases w, 1
  {
    match w
    case WordNull => Null
    case WordFalse => False
    case WordTrue => True
    case Figures(minus, _, ds) => Number(NumberValue(minus, ds))
    case Quoted(ps, _) => String(PiecesMeaning(ps))
    case Listed(_, items) => Array(ItemsMeaning(items))
    case Braced(_, lines) => Object(LinesMeaning(lines))
  }

  function ItemsMeaning(items: seq<Item>): seq<Json>
    requires ProperItems(items)
    decreases items, 0
  {
    if items == [] then [] else [Meaning(items[0].value)] + ItemsMeaning(items[1..])
  }

  function LinesMeaning(lines: seq<Line>): seq<Member>
    requires ProperLines(lines)
    decreases lines, 0
  {
    if lines == [] then []
    else [Member(PiecesMeaning(lines[0].name), Meaning(lines[0].value))] + LinesMeaning(lines[1..])
  }

  // ----- Blanks -----

  lemma {:induction false} SkipBlank(blank: string, s: string)
    requires Blank(blank)
    ensures Skip(blank + s) == Skip(s)
  {
    if blank == "" {
      assert blank + s == s;
    } else {
      assert (blank + s)[1..] == blank[1..] + s;
      SkipBlank(blank[1..], s);
    }
  }

  /** Blanks and then a mark end a number. */
  lemma MarkEnds(blank: string, s: string)
    requires Blank(blank) && At(s) in {',', ']', '}'}
    ensures EndsNumber(blank + s) && Skip(blank + s) == s
  {
    SkipBlank(blank, s);
    assert blank == "" ==> blank + s == s;
  }

  lemma WriteFirst(w: Written, rest: string)
    requires Proper(w) && Ends(w, rest)
    ensures At(Write(w, rest)) > ' ' && At(Write(w, rest)) !in {']', '}', ','}
    ensures Skip(Write(w, rest)) == Write(w, rest)
  {
    if w.Figures? {
      NumberReads(w.minus, w.zero, w.ds, rest);
    }
  }

  // ----- Reading -----

  /** Every text of a value is read as that value, up to where it ends. */
  lemma {:induction false} WrittenReads(w: Written, rest: string)
    requires Proper(w) && Ends(w, rest)
    ensures ParseValue(Write(w, rest)) == Ok(Meaning(w), rest)
    decreases w, 1
  {
    var s := Write(w, rest);
    match w
    case WordNull => assert s[4..] == rest;
    case WordFalse => assert s[0] == 'f' && s[5..] == rest;
    case WordTrue => assert s[0] == 't' && s[4..] == rest;
    case Figures(minus, zero, ds) => NumberReads(minus, zero, ds, rest);
    case Quoted(ps, closed) => QuotedReads(ps, closed, rest);
    case Listed(blank, items) => ListedReads(blank, items, rest);
    case Braced(blank, lines) => BracedReads(blank, lines, rest);
  }

  lemma QuotedReads(ps: seq<Piece>, closed: bool, rest: string)
    requires ProperPieces(ps) && (closed || At(rest) == '\0')
    ensures ParseString("\"" + (PiecesText(ps) + (When(closed, "\"") + rest))) == Ok(PiecesMeaning(ps), rest)
  {
    var tail := When(closed, "\"") + rest;
    assert closed ==> tail[1..] == rest;
    assert !closed ==> tail == rest;
    PiecesRead(ps, tail);
    assert ("\"" + (PiecesText(ps) + tail))[1..] == PiecesText(ps) + tail;
  }

  lemma {:induction false} ListedReads(blank: string, items: seq<Item>, rest: string)
    requires Blank(blank) && ProperItems(items)
    ensures ParseValue("[" + (blank + WriteItems(items, rest))) == Ok(Array(ItemsMeaning(items)), rest)
    decreases items, 1
  {
    var text := WriteItems(items, rest);
    SkipBlank(blank, text);
    if items != [] {
      ItemsFirst(items, rest);
      SkipItems(Skip(text), text);
      ItemsRead(items, rest);
    }
    OpenArray(blank + text, ItemsMeaning(items), rest);
  }

  function AfterItem(items: seq<Item>, rest: string): string
    requires ProperItems(items) && items != []
  {
    if |items| == 1 then "]" + rest else "," + WriteItems(items[1..], rest)
  }

  lemma ItemsFirst(items: seq<Item>, rest: string)
    requires ProperItems(items) && items != []
    ensures var text, tail := WriteItems(items, rest), items[0].after + AfterItem(items, rest);
            && Skip(text) == Write(items[0].value, tail) && At(Skip(text)) != ']' && Skip(Skip(text)) == Skip(text)
            && EndsNumber(tail) && Skip(tail) == AfterItem(items, rest)
  {
    var tail := items[0].after + AfterItem(items, rest);
    MarkEnds(items[0].after, AfterItem(items, rest));
    WriteFirst(items[0].value, tail);
    SkipBlank(items[0].before, Write(items[0].value, tail));
  }

  lemma {:induction false} ItemsRead(items: seq<Item>, rest: string)
    requires ProperItems(items) && items != []
    ensures ParseItems(WriteItems(items, rest)) == Ok(ItemsMeaning(items), rest)
    decreases items, 0
  {
    var tail := items[0].after + AfterItem(items, rest);
    ItemsFirst(items, rest);
    WrittenReads(items[0].value, tail);
    if |items| > 1 {
      ItemsRead(items[1..], rest);
    }
    ItemStep(WriteItems(items, rest), tail, Meaning(items[0].value), ItemsMeaning(items[1..]), AfterItem(items, rest),
             rest);
  }

  lemma ItemStep(s: string, tail: string, v: Json, vs: seq<Json>, end: string, rest: string)
    requires ParseValue(Skip(s)) == Ok(v, tail) && Skip(tail) == end
    requires || (vs == [] && end == "]" + rest)
             || (At(end) == ',' && ParseItems(end[1..]) == Ok(vs, rest))
    ensures ParseItems(s) == Ok([v] + vs, rest)
  {
    assert ("]" + rest)[1..] == rest;
  }

  lemma {:induction false} BracedReads(blank: string, lines: seq<Line>, rest: string)
    requires Blank(blank) && ProperLines(lines)
    ensures ParseValue("{" + (blank + WriteLines(lines, rest))) == Ok(Object(LinesMeaning(lines)), rest)
    decreases lines, 2
  {
    var text := WriteLines(lines, rest);
    SkipBlank(blank, text);
    if lines != [] {
      LinesFirst(lines[0], LineValue(lines, rest));
      SkipMembers(Skip(text), text);
      LinesRead(lines, rest);
    }
    OpenObject(blank + text, LinesMeaning(lines), rest);
  }

  function AfterLine(lines: seq<Line>, rest: string): string
    requires ProperLines(lines) && lines != []
  {
    if |lines| == 1 then "}" + rest else "," + WriteLines(lines[1..], rest)
  }

  function LineValue(lines: seq<Line>, rest: string): string
    requires ProperLines(lines) && lines != []
  {
    Write(lines[0].value, lines[0].after + AfterLine(lines, rest))
  }

  lemma LinesFirst(line: Line, value: string)
    requires Blank(line.before) && ProperPieces(line.name)
    ensures Skip(WriteLine(line, value)) ==
            "\"" + (PiecesText(line.name) + ("\"" + (line.colon + (":" + (line.gap + value)))))
    ensures At(Skip(WriteLine(line, value))) != '}'
    ensures Skip(Skip(WriteLine(line, value))) == Skip(WriteLine(line, value))
  {
    SkipBlank(line.before, "\"" + (PiecesText(line.name) + ("\"" + (line.colon + (":" + (line.gap + value))))));
  }

  lemma LineReads(line: Line, value: string, v: Json, tail: string)
    requires Blank(line.before) && ProperPieces(line.name) && Blank(line.colon) && Blank(line.gap)
    requires Skip(value) == value && ParseValue(value) == Ok(v, tail)
    ensures ParseMember(WriteLine(line, value)) == Ok(Member(PiecesMeaning(line.name), v), tail)
  {
    var colon := ":" + (line.gap + value);
    LinesFirst(line, value);
    QuotedReads(line.name, true, line.colon + colon);
    SkipBlank(line.colon, colon);
    SkipBlank(line.gap, value);
    assert colon[1..] == line.gap + value;
  }

  lemma {:induction false} LinesRead(lines: seq<Line>, rest: string)
    requires ProperLines(lines) && lines != []
    ensures ParseMembers(WriteLines(lines, rest)) == Ok(LinesMeaning(lines), rest)
    decreases lines, 1
  {
    var line, tail := lines[0], lines[0].after + AfterLine(lines, rest);
    MarkEnds(line.after, AfterLine(lines, rest));
    WrittenReads(line.value, tail);
    WriteFirst(line.value, tail);
    LineReads(line, LineValue(lines, rest), Meaning(line.value), tail);
    if |lines| > 1 {
      LinesRead(lines[1..], rest);
    }
    LineStep(WriteLines(lines, rest), tail, Member(PiecesMeaning(line.name), Meaning(line.value)),
             LinesMeaning(lines[1..]), AfterLine(lines, rest), rest);
  }

  lemma LineStep(s: string, tail: string, m: Member, ms: seq<Member>, end: string, rest: string)
    requires ParseMember(s) == Ok(m, tail) && Skip(tail) == end
    requires || (ms == [] && end == "}" + rest)
             || (At(end) == ',' && ParseMembers(end[1..]) == Ok(ms, rest))
    ensures ParseMembers(s) == Ok([m] + ms, rest)
  {
    assert ("}" + rest)[1..] == rest;
  }

  /** The parser reads every text of a value, blanks before it included, as that value. */
  lemma ReadsEveryText(blank: string, w: Written, rest: string)
    requires Blank(blank) && Proper(w) && Ends(w, rest)
    ensures Parse(blank + Write(w, rest)) == Ok(Meaning(w), rest)
  {
    SkipBlank(blank, Write(w, rest));
    WriteFirst(w, rest);
    WrittenReads(w, rest);
  }

  /** An escape of a code unit that is neither NUL nor half a pair gives the bytes of that character and no more. */
  lemma EscapeDecodes(u: Unit)
    requires u.Value() != 0 && !(0xD800 <= u.Value() < 0xE000)
    ensures var r := ParseString("\"" + ("\\u" + u.Text() + ("\"" + "")));
            r.Ok? && r.rest == "" && Decode(r.value) == Some((u.Value(), ""))
  {
    var ps := [Escape(u)];
    assert PiecesText(ps) == PieceText(ps[0]) + "" == "\\u" + u.Text();
    assert PiecesMeaning(ps) == Utf8(u.Value()) + "";
    QuotedReads(ps, true, "");
    Utf8Decodes(u.Value(), "");
  }
}
