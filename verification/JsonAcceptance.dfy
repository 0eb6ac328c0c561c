/** The parser accepts nothing but the texts of the grammar, so what it reads is exactly what they mean. */
module JsonAcceptance {
  import opened Collections
  import opened JsonText
  import opened JsonRoundTrip
  import opened JsonGrammar

  // ----- Blanks -----

  lemma {:induction false} SkipTwice(s: string)
    ensures Skip(Skip(s)) == Skip(s)
    ensures At(Skip(s)) == '\0' || At(Skip(s)) > ' '
  {
    if At(s) != '\0' && At(s) <= ' ' {
      SkipTwice(s[1..]);
    }
  }

  lemma OneBlank(c: char, blank: string, more: string, s: string)
    requires Blank(blank) && '\0' < c <= ' ' && more == blank + s
    ensures Blank([c] + blank) && [c] + more == ([c] + blank) + s
  {}

  lemma {:induction false} BlanksOf(s: string) returns (blank: string)
    ensures Blank(blank) && s == blank + Skip(s)
  {
    if At(s) != '\0' && At(s) <= ' ' {
      var more := BlanksOf(s[1..]);
      blank := [s[0]] + more;
      OneBlank(s[0], more, s[1..], Skip(s[1..]));
      assert s == [s[0]] + s[1..];
    } else {
      blank := "";
      assert blank + s == s;
    }
  }

  // ----- Numbers -----

  lemma {:induction false} DigitsOf(s: string, done: seq<Dec>) returns (ds: seq<Dec>)
    ensures ReadDigits(s, DigitsValue(done)).0 == DigitsValue(done + ds)
    ensures s == DigitsText(ds) + ReadDigits(s, DigitsValue(done)).1
    ensures !IsDigit(At(ReadDigits(s, DigitsValue(done)).1))
    ensures IsDigit(At(s)) ==> ds != [] && DIGITS[ds[0]] == s[0]
    decreases |s|
  {
    ds := [];
    if IsDigit(At(s)) {
      var d: Dec := DigitValue(s[0]);
      DigitIs(d);
      var more := DigitsOf(s[1..], done + [d]);
      OneMoreDigit(done, d);
      ds := [d] + more;
      assert done + ds == (done + [d]) + more;
      assert ds[1..] == more;
      assert s == [s[0]] + s[1..];
    } else {
      assert done + [] == done;
    }
  }

  lemma WholeOf(s: string) returns (zero: bool, ds: seq<Dec>)
    ensures s == When(zero, "0") + (DigitsText(ds) + ReadWhole(s).1) && DigitsValue(ds) == ReadWhole(s).0
    ensures ds != [] ==> ds[0] != 0
    ensures FiguresEnd(zero, ds, ReadWhole(s).1) <==> !HasFraction(ReadWhole(s).1)
    ensures IsDigit(At(s)) ==> zero || ds != []
  {
    zero, ds := At(s) == '0', [];
    var t := if zero then s[1..] else s;
    assert s == When(zero, "0") + t;
    if '1' <= At(t) <= '9' {
      ds := DigitsOf(t, []);
      assert [] + ds == ds;
      DigitIs(ds[0]);
    } else {
      assert "" + t == t;
    }
  }

  lemma Together(a: string, b: string, c: string, rest: string)
    ensures a + (b + (c + rest)) == (a + (b + c)) + rest
  {}

  lemma NumberOf(s: string) returns (minus: bool, zero: bool, ds: seq<Dec>)
    requires ParseNumber(s).Ok? && (At(s) == '-' || IsDigit(At(s)))
    ensures ProperNumber(minus, zero, ds) && ParseNumber(s).value == NumberValue(minus, ds)
    ensures FiguresEnd(zero, ds, ParseNumber(s).rest)
    ensures s == NumberText(minus, zero, ds) + ParseNumber(s).rest
  {
    minus := At(s) == '-';
    var t := if minus then s[1..] else s;
    assert s == When(minus, "-") + t;
    zero, ds := WholeOf(t);
    Together(When(minus, "-"), When(zero, "0"), DigitsText(ds), ReadWhole(t).1);
    assert NumberText(minus, zero, ds) == When(minus, "-") + (When(zero, "0") + DigitsText(ds));
  }

  // ----- Strings -----

  function HexOf(c: char): Hex
    requires IsHex(c)
  {
    Hex(HexValue(c), 'A' <= c <= 'F')
  }

  lemma HexBack(c: char)
    requires IsHex(c)
    ensures HexOf(c).Text() == c
  {}

  lemma UnitOf(s: string) returns (u: Unit)
    requires StartsWithHex4(s)
    ensures s == u.Text() + s[4..] && u.Value() == Hex4(s)
  {
    u := Unit(HexOf(s[0]), HexOf(s[1]), HexOf(s[2]), HexOf(s[3]));
    HexBack(s[0]);
    HexBack(s[1]);
    HexBack(s[2]);
    HexBack(s[3]);
  }

  lemma PieceOf(s: string) returns (p: Piece)
    requires At(s) == '\\' && ReadEscape(s).Ok?
    ensures ProperPiece(p) && !p.Plain? && PieceMeaning(p) == ReadEscape(s).value
    ensures s == PieceText(p) + ReadEscape(s).rest
    ensures TakesNext(p) ==> NoEscape(ReadEscape(s).rest)
  {
    var c := At(s[1..]);
    if c != 'u' {
      p := Short(c);
      assert s == ['\\', c] + s[2..];
    } else {
      var u, t := EscapeOf(s);
      if IsHighSurrogate(u.Value()) && !NoEscape(t) {
        var v, r := EscapeOf(t);
        p := Escapes(u, v);
        Regroup("\\u", u.Text(), "\\u", v.Text(), r);
        Assoc("\\u" + u.Text(), "\\u", v.Text());
      } else {
        p := Escape(u);
        Assoc("\\u", u.Text(), t);
      }
    }
  }

  lemma EscapeOf(s: string) returns (u: Unit, t: string)
    requires At(s) == '\\' && At(s[1..]) == 'u' && StartsWithHex4(s[2..])
    ensures t == s[6..] && u.Value() == Hex4(s[2..]) && s == "\\u" + (u.Text() + t)
  {
    u := UnitOf(s[2..]);
    t := s[6..];
    assert s[2..][4..] == t && s == "\\u" + s[2..];
  }

  lemma {:induction false} PiecesOf(s: string) returns (ps: seq<Piece>, closed: bool)
    requires Unescape(s).Ok?
    ensures ProperPieces(ps) && PiecesMeaning(ps) == Unescape(s).value
    ensures closed || At(Unescape(s).rest) == '\0'
    ensures s == PiecesText(ps) + (When(closed, "\"") + Unescape(s).rest)
    decreases |s|
  {
    ps, closed := [], At(s) == '\"';
    if At(s) == '\"' {
      assert s == "" + ("\"" + s[1..]);
    } else if At(s) == '\0' {
      assert s == "" + ("" + s);
    } else {
      var p, rest := Plain(s[0]), s[1..];
      if At(s) == '\\' {
        p := PieceOf(s);
        rest := ReadEscape(s).rest;
      }
      ps, closed := PiecesOf(rest);
      PutFirst(p, ps, s, When(closed, "\"") + Unescape(s).rest);
      ps := [p] + ps;
    }
  }

  lemma NotAnEscape(ps: seq<Piece>, tail: string)
    requires ProperPieces(ps) && ps != [] && NoEscape(PiecesText(ps) + tail)
    ensures ps[0].Plain? || ps[0].Short?
  {
    var s, t := PiecesText(ps) + tail, PieceText(ps[0]);
    assert s[0] == t[0] && (|t| > 1 ==> s[1] == t[1]);
  }

  lemma PutFirst(p: Piece, ps: seq<Piece>, s: string, tail: string)
    requires ProperPiece(p) && ProperPieces(ps) && s == PieceText(p) + (PiecesText(ps) + tail)
    requires TakesNext(p) ==> NoEscape(PiecesText(ps) + tail)
    ensures ProperPieces([p] + ps) && s == PiecesText([p] + ps) + tail
    ensures PiecesMeaning([p] + ps) == PieceMeaning(p) + PiecesMeaning(ps)
  {
    if TakesNext(p) && ps != [] {
      NotAnEscape(ps, tail);
    }
    assert ([p] + ps)[1..] == ps;
    Assoc(PieceText(p), PiecesText(ps), tail);
  }

  lemma QuotedOf(s: string) returns (ps: seq<Piece>, closed: bool)
    requires ParseString(s).Ok?
    ensures ProperPieces(ps) && PiecesMeaning(ps) == ParseString(s).value
    ensures closed || At(ParseString(s).rest) == '\0'
    ensures s == "\"" + (PiecesText(ps) + (When(closed, "\"") + ParseString(s).rest))
  {
    ps, closed := PiecesOf(s[1..]);
    assert s == "\"" + s[1..];
  }

  // ----- Trees -----

  lemma {:induction false} ValueOf(s: string) returns (w: Written)
    requires ParseValue(s).Ok?
    ensures Proper(w) && Meaning(w) == ParseValue(s).value
    ensures Ends(w, ParseValue(s).rest) && s == Write(w, ParseValue(s).rest)
    decreases |s|, 1
  {
    if "null" <= s {
      w := WordNull;
    } else if "false" <= s {
      w := WordFalse;
    } else if "true" <= s {
      w := WordTrue;
    } else if At(s) == '\"' {
      var ps, closed := QuotedOf(s);
      w := Quoted(ps, closed);
    } else if At(s) == '-' || IsDigit(At(s)) {
      var minus, zero, ds := NumberOf(s);
      w := Figures(minus, zero, ds);
    } else if At(s) == '[' {
      w := ListedOf(s);
    } else {
      w := BracedOf(s);
    }
  }

  lemma {:induction false} ListedOf(s: string) returns (w: Written)
    requires At(s) == '[' && ParseArray(s).Ok?
    ensures Proper(w) && w.Listed? && Meaning(w) == ParseArray(s).value
    ensures s == Write(w, ParseArray(s).rest)
    decreases |s|, 0
  {
    var blank := BlanksOf(s[1..]);
    var t := Skip(s[1..]);
    assert s == "[" + s[1..];
    var items: seq<Item> := [];
    if At(t) != ']' {
      items := ItemsOf(t);
    } else {
      assert t == "]" + t[1..];
    }
    w := Listed(blank, items);
  }

  /** What is left to read once the first item is read. */
  lemma ItemsSplit(s: string)
    requires ParseItems(s).Ok?
    ensures ParseValue(Skip(s)).Ok?
    ensures var end := Skip(ParseValue(Skip(s)).rest);
            if At(end) == ',' then
              ParseItems(end[1..]).Ok? && ParseItems(s) == Ahead([ParseValue(Skip(s)).value], ParseItems(end[1..]))
            else
              At(end) == ']' && ParseItems(s) == Ok([ParseValue(Skip(s)).value], end[1..])
  {
    assert [ParseValue(Skip(s)).value] + [] == [ParseValue(Skip(s)).value];
  }

  lemma PutItem(i: Item, more: seq<Item>, end: string, rest: string)
    requires ProperItems(more) && Blank(i.before) && Proper(i.value) && Blank(i.after)
    requires i.value.Quoted? ==> i.value.closed
    requires end == if more == [] then "]" + rest else "," + WriteItems(more, rest)
    ensures ProperItems([i] + more) && ItemsMeaning([i] + more) == [Meaning(i.value)] + ItemsMeaning(more)
    ensures WriteItems([i] + more, rest) == i.before + Write(i.value, i.after + end)
  {
    assert ([i] + more)[1..] == more;
  }

  lemma {:induction false} ItemsOf(s: string) returns (items: seq<Item>)
    requires ParseItems(s).Ok?
    ensures ProperItems(items) && items != [] && ItemsMeaning(items) == ParseItems(s).value
    ensures s == WriteItems(items, ParseItems(s).rest)
    decreases |s|, 2
  {
    ItemsSplit(s);
    var before := BlanksOf(s);
    var value := ValueOf(Skip(s));
    var tail := ParseValue(Skip(s)).rest;
    var after := BlanksOf(tail);
    var end := Skip(tail);
    ClosedBefore(value, tail);
    var more: seq<Item> := [];
    assert end == [end[0]] + end[1..];
    if At(end) == ',' {
      more := ItemsOf(end[1..]);
    }
    PutItem(Item(before, value, after), more, end, ParseItems(s).rest);
    items := [Item(before, value, after)] + more;
  }

  /** A string without its quote is not followed by a mark. */
  lemma ClosedBefore(w: Written, tail: string)
    requires Ends(w, tail) && At(Skip(tail)) in {',', ']', '}'}
    ensures w.Quoted? ==> w.closed
  {}

  lemma {:induction false} BracedOf(s: string) returns (w: Written)
    requires At(s) == '{' && ParseObject(s).Ok?
    ensures Proper(w) && w.Braced? && Meaning(w) == ParseObject(s).value
    ensures s == Write(w, ParseObject(s).rest)
    decreases |s|, 0
  {
    var blank := BlanksOf(s[1..]);
    var t := Skip(s[1..]);
    assert s == "{" + s[1..];
    var lines: seq<Line> := [];
    if At(t) != '}' {
      lines := LinesOf(t);
    } else {
      assert t == "}" + t[1..];
    }
    w := Braced(blank, lines);
  }

  lemma LinesSplit(s: string)
    requires ParseMembers(s).Ok?
    ensures ParseMember(s).Ok?
    ensures var end := Skip(ParseMember(s).rest);
            if At(end) == ',' then
              ParseMembers(end[1..]).Ok? && ParseMembers(s) == Ahead([ParseMember(s).value], ParseMembers(end[1..]))
            else
              At(end) == '}' && ParseMembers(s) == Ok([ParseMember(s).value], end[1..])
  {
    assert [ParseMember(s).value] + [] == [ParseMember(s).value];
  }

  lemma PutLine(l: Line, more: seq<Line>, end: string, rest: string)
    requires ProperLines(more) && ProperLine(l)
    requires end == if more == [] then "}" + rest else "," + WriteLines(more, rest)
    ensures ProperLines([l] + more)
    ensures LinesMeaning([l] + more) == [Member(PiecesMeaning(l.name), Meaning(l.value))] + LinesMeaning(more)
    ensures WriteLines([l] + more, rest) == WriteLine(l, Write(l.value, l.after + end))
  {
    assert ([l] + more)[1..] == more;
  }

  predicate ProperLine(l: Line)
  {
    && Blank(l.before) && ProperPieces(l.name) && Blank(l.colon) && Blank(l.gap) && Proper(l.value) && Blank(l.after)
    && (l.value.Quoted? ==> l.value.closed)
  }

  lemma {:induction false} LinesOf(s: string) returns (lines: seq<Line>)
    requires ParseMembers(s).Ok?
    ensures ProperLines(lines) && lines != [] && LinesMeaning(lines) == ParseMembers(s).value
    ensures s == WriteLines(lines, ParseMembers(s).rest)
    decreases |s|, 3
  {
    LinesSplit(s);
    var after := BlanksOf(ParseMember(s).rest);
    var end := Skip(ParseMember(s).rest);
    var line := LineOf(s, after, end);
    var more := MoreOf(s, end);
    PutLine(line, more, end, ParseMembers(s).rest);
    lines := [line] + more;
  }

  lemma {:induction false} MoreOf(s: string, end: string) returns (more: seq<Line>)
    requires ParseMembers(s).Ok? && ParseMember(s).Ok? && end == Skip(ParseMember(s).rest)
    ensures ProperLines(more) && ParseMembers(s).value == [ParseMember(s).value] + LinesMeaning(more)
    ensures end == if more == [] then "}" + ParseMembers(s).rest else "," + WriteLines(more, ParseMembers(s).rest)
    decreases |s|, 1
  {
    LinesSplit(s);
    more := [];
    assert end == [end[0]] + end[1..];
    if At(end) == ',' {
      more := LinesOf(end[1..]);
    }
  }

  lemma MemberSplit(s: string)
    requires ParseMember(s).Ok?
    ensures ParseString(Skip(s)).Ok?
    ensures var t := Skip(ParseString(Skip(s)).rest);
            && At(t) == ':' && ParseValue(Skip(t[1..])).Ok?
            && ParseMember(s).value == Member(ParseString(Skip(s)).value, ParseValue(Skip(t[1..])).value)
            && ParseMember(s).rest == ParseValue(Skip(t[1..])).rest
  {}

  /** A colon with blanks around it. */
  lemma ColonOf(rest: string) returns (colon: string, gap: string)
    requires At(Skip(rest)) == ':'
    ensures Blank(colon) && Blank(gap) && rest == colon + (":" + (gap + Skip(Skip(rest)[1..])))
  {
    colon := BlanksOf(rest);
    gap := BlanksOf(Skip(rest)[1..]);
    assert Skip(rest) == ":" + Skip(rest)[1..];
  }

  /** A string that something other than the end of the text follows is closed. */
  lemma ClosedOf(s: string) returns (ps: seq<Piece>)
    requires ParseString(s).Ok? && At(ParseString(s).rest) != '\0'
    ensures ProperPieces(ps) && PiecesMeaning(ps) == ParseString(s).value
    ensures s == "\"" + (PiecesText(ps) + ("\"" + ParseString(s).rest))
  {
    var closed;
    ps, closed := QuotedOf(s);
  }

  /** The name of a member, its colon, and where its value begins. */
  lemma NameOf(s: string) returns (before: string, name: seq<Piece>, colon: string, gap: string)
    requires ParseMember(s).Ok?
    ensures var t := Skip(ParseString(Skip(s)).rest);
            && Blank(before) && ProperPieces(name) && Blank(colon) && Blank(gap) && t != ""
            && PiecesMeaning(name) == ParseMember(s).value.name
            && s == before + ("\"" + (PiecesText(name) + ("\"" + (colon + (":" + (gap + Skip(t[1..])))))))
  {
    MemberSplit(s);
    before := BlanksOf(s);
    name := ClosedOf(Skip(s));
    colon, gap := ColonOf(ParseString(Skip(s)).rest);
  }

  lemma {:induction false} LineOf(s: string, after: string, end: string) returns (line: Line)
    requires ParseMember(s).Ok? && Blank(after) && ParseMember(s).rest == after + end
    requires Skip(ParseMember(s).rest) == end && At(end) in {',', '}'}
    ensures ProperLine(line) && line.after == after
    ensures Member(PiecesMeaning(line.name), Meaning(line.value)) == ParseMember(s).value
    ensures s == WriteLine(line, Write(line.value, after + end))
    decreases |s|, 2
  {
    MemberSplit(s);
    var before, name, colon, gap := NameOf(s);
    var value := ValueOf(Skip(Skip(ParseString(Skip(s)).rest)[1..]));
    ClosedBefore(value, after + end);
    line := Line(before, name, colon, gap, value, after);
  }

  // ----- The parser and the grammar -----

  /** The text begins, after blanks, with a text of `v` and goes on with `rest`. */
  ghost predicate IsTextOf(s: string, v: Json, rest: string)
  {
    exists blank, w :: Blank(blank) && Proper(w) && Ends(w, rest) && s == blank + Write(w, rest) && Meaning(w) == v
  }

  /** The parser reads a value and leaves the rest exactly when the text is one of that value followed by that rest. */
  lemma ReadsExactly(s: string, v: Json, rest: string)
    ensures Parse(s) == Ok(v, rest) <==> IsTextOf(s, v, rest)
  {
    if Parse(s) == Ok(v, rest) {
      var blank := BlanksOf(s);
      var w := ValueOf(Skip(s));
      assert s == blank + Write(w, rest);
    }
    if IsTextOf(s, v, rest) {
      var blank, w :|
        Blank(blank) && Proper(w) && Ends(w, rest) && s == blank + Write(w, rest) && Meaning(w) == v;
      ReadsEveryText(blank, w, rest);
    }
  }
}
