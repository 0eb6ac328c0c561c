/** Printing a tree and parsing the text gives the tree back, formatted or not. */
module JsonRoundTrip {
  import opened JsonText

  // ----- Numbers -----

  /** Text that does not carry on the number it follows. */
  predicate EndsNumber(rest: string)
  {
    !IsDigit(At(rest)) && !HasFraction(rest)
  }

  lemma {:induction false} DecimalFirst(n: nat)
    ensures |Decimal(n)| > 0
    ensures IsDigit(Decimal(n)[0]) && (n > 0 ==> Decimal(n)[0] != '0')
  {
    if n >= 10 {
      DecimalFirst(n / 10);
    }
  }

  lemma {:induction false} ReadDecimal(n: nat, rest: string)
    requires n > 0
    ensures ReadDigits(Decimal(n) + rest, 0) == ReadDigits(rest, n)
  {
    if n >= 10 {
      var last := [Digit(n % 10)];
      ReadDecimal(n / 10, last + rest);
      assert Decimal(n) + rest == Decimal(n / 10) + (last + rest);
      assert (last + rest)[1..] == rest;
    } else {
      assert (Decimal(n) + rest)[1..] == rest;
    }
  }

  lemma WholeBack(m: nat, rest: string)
    requires EndsNumber(rest)
    ensures ReadWhole(Decimal(m) + rest) == (m, rest)
  {
    DecimalFirst(m);
    if m > 0 {
      ReadDecimal(m, rest);
    } else {
      assert (Decimal(m) + rest)[1..] == rest;
    }
  }

  lemma NumberRoundTrip(n: int, rest: string)
    requires INT_MIN <= n <= INT_MAX && EndsNumber(rest)
    ensures ParseNumber(PrintNumber(n) + rest) == Ok(n, rest)
  {
    var m: nat := if n < 0 then -n else n;
    var s := PrintNumber(n) + rest;
    DecimalFirst(m);
    WholeBack(m, rest);
    assert Decimal(m) + rest == if n < 0 then s[1..] else s;
  }

  // ----- Strings -----

  lemma HexDigitReads(d: nat)
    requires d < 16
    ensures IsHex(HexDigit(d)) && HexValue(HexDigit(d)) == d
  {}

  lemma UnescapeChar(c: char, rest: string)
    requires c != '\0'
    ensures Unescape(EscapeChar(c) + rest) == Prepend([c], Unescape(rest))
  {
    var s := EscapeChar(c) + rest;
    if ShortEscape(c) != '\0' {
      assert s[1..] == [ShortEscape(c)] + rest;
      assert s[2..] == rest;
    } else if c < ' ' {
      HexDigitReads(c as nat / 16);
      HexDigitReads(c as nat % 16);
      assert s[1..][0] == 'u';
      var h := s[2..];
      assert h[0] == '0' && h[1] == '0' && h[2] == HexDigit(c as nat / 16) && h[3] == HexDigit(c as nat % 16);
      assert s[6..] == rest;
      assert Hex4(h) == c as nat;
      assert ReadEscape(s) == Ok([c], rest);
    } else {
      assert s[1..] == rest;
    }
  }

  lemma StringRoundTrip(s: string, rest: string)
    requires '\0' !in s
    ensures ParseString(PrintString(s) + rest) == Ok(s, rest)
  {
    assert (PrintString(s) + rest)[1..] == Escape(s) + ("\"" + rest);
    UnescapeEscape(s, rest);
  }

  lemma {:induction false} UnescapeEscape(s: string, rest: string)
    requires '\0' !in s
    ensures Unescape(Escape(s) + ("\"" + rest)) == Ok(s, rest)
  {
    var tail := "\"" + rest;
    if s == "" {
      assert Escape(s) + tail == tail;
      assert tail[1..] == rest;
    } else {
      assert Escape(s) + tail == EscapeChar(s[0]) + (Escape(s[1..]) + tail);
      UnescapeChar(s[0], Escape(s[1..]) + tail);
      UnescapeEscape(s[1..], rest);
      assert [s[0]] + s[1..] == s;
    }
  }

  // ----- Blanks -----

  /** A printed value starts with a character of its own: no blank, no closing bracket. */
  lemma PrintedFirst(v: Json, depth: nat, fmt: bool)
    ensures |PrintValue(v, depth, fmt)| > 0
    ensures PrintValue(v, depth, fmt)[0] > ' '
    ensures PrintValue(v, depth, fmt)[0] !in {']', '}', ','}
  {
    if v.Number? {
      DecimalFirst(if v.n < 0 then -v.n else v.n);
    }
  }

  lemma SkipPrinted(v: Json, depth: nat, fmt: bool, rest: string)
    ensures Skip(PrintValue(v, depth, fmt) + rest) == PrintValue(v, depth, fmt) + rest
    ensures At(PrintValue(v, depth, fmt) + rest) !in {']', '}', ','}
    ensures Skip(" " + (PrintValue(v, depth, fmt) + rest)) == PrintValue(v, depth, fmt) + rest
    ensures Skip("\t" + (PrintValue(v, depth, fmt) + rest)) == PrintValue(v, depth, fmt) + rest
  {
    PrintedFirst(v, depth, fmt);
    var s := PrintValue(v, depth, fmt) + rest;
    assert (" " + s)[1..] == s;
    assert ("\t" + s)[1..] == s;
  }

  lemma {:induction false} SkipTabs(n: nat, s: string)
    ensures Skip(Tabs(n) + s) == Skip(s)
  {
    if n == 0 {
      assert Tabs(n) + s == s;
    } else {
      assert (Tabs(n) + s)[1..] == Tabs(n - 1) + s;
      SkipTabs(n - 1, s);
    }
  }

  lemma SkipLine(fmt: bool, n: nat, s: string)
    ensures Skip(When(fmt, "\n") + (When(fmt, Tabs(n)) + s)) == Skip(s)
  {
    if fmt {
      SkipTabs(n, s);
      assert ("\n" + (Tabs(n) + s))[1..] == Tabs(n) + s;
    } else {
      assert "" + ("" + s) == s;
    }
  }

  // ----- One step of each parsing loop, away from the printed text -----

  lemma LastItem(s: string, items: seq<Json>, rest: string)
    requires |items| == 1 && ParseValue(Skip(s)) == Ok(items[0], "]" + rest)
    ensures ParseItems(s) == Ok(items, rest)
  {
    assert [items[0]] + [] == items;
    assert ("]" + rest)[1..] == rest;
  }

  lemma NextItem(s: string, items: seq<Json>, next: string, rest: string)
    requires |items| > 1 && ParseValue(Skip(s)) == Ok(items[0], "," + next)
    requires ParseItems(next) == Ok(items[1..], rest)
    ensures ParseItems(s) == Ok(items, rest)
  {
    assert [items[0]] + items[1..] == items;
    assert ("," + next)[1..] == next;
  }

  lemma LastMember(s: string, ms: seq<Member>, tail: string, rest: string)
    requires |ms| == 1 && ParseMember(s) == Ok(ms[0], tail) && Skip(tail) == "}" + rest
    ensures ParseMembers(s) == Ok(ms, rest)
  {
    assert [ms[0]] + [] == ms;
    assert ("}" + rest)[1..] == rest;
  }

  lemma NextMember(s: string, ms: seq<Member>, next: string, rest: string)
    requires |ms| > 1 && ParseMember(s) == Ok(ms[0], "," + next)
    requires ParseMembers(next) == Ok(ms[1..], rest)
    ensures ParseMembers(s) == Ok(ms, rest)
  {
    assert [ms[0]] + ms[1..] == ms;
    assert ("," + next)[1..] == next;
  }

  lemma OpenArray(s: string, items: seq<Json>, rest: string)
    requires if items == [] then Skip(s) == "]" + rest
             else At(Skip(s)) != ']' && ParseItems(Skip(s)) == Ok(items, rest)
    ensures ParseValue("[" + s) == Ok(Array(items), rest)
  {
    assert ("[" + s)[1..] == s;
    assert ("]" + rest)[1..] == rest;
    assert ParseArray("[" + s) == Ok(Array(items), rest);
  }

  lemma OpenObject(s: string, ms: seq<Member>, rest: string)
    requires if ms == [] then Skip(s) == "}" + rest
             else At(Skip(s)) != '}' && ParseMembers(Skip(s)) == Ok(ms, rest)
    ensures ParseValue("{" + s) == Ok(Object(ms), rest)
  {
    assert ("{" + s)[1..] == s;
    assert ("}" + rest)[1..] == rest;
    assert ParseObject("{" + s) == Ok(Object(ms), rest);
  }

  lemma SkipItems(s: string, t: string)
    requires Skip(s) == Skip(t)
    ensures ParseItems(s) == ParseItems(t)
  {}

  lemma SkipMembers(s: string, t: string)
    requires Skip(s) == Skip(t)
    ensures ParseMembers(s) == ParseMembers(t)
  {
    assert ParseMember(s) == ParseMember(t);
  }

  lemma Regroup(a: string, b: string, c: string, d: string, e: string)
    ensures (a + b + c + d) + e == a + (b + (c + (d + e)))
  {}

  // ----- Trees -----

  /** The round trip, at every depth and in front of any text.  Only a number looks at what follows it. */
  lemma {:induction false} ValueRoundTrip(v: Json, depth: nat, fmt: bool, rest: string)
    requires Printable(v)
    requires v.Number? ==> EndsNumber(rest)
    ensures ParseValue(PrintValue(v, depth, fmt) + rest) == Ok(v, rest)
    decreases v, 1
  {
    var s := PrintValue(v, depth, fmt) + rest;
    PrintedFirst(v, depth, fmt);
    match v
    case Null => assert s[4..] == rest;
    case False => assert s[5..] == rest;
    case True => assert s[4..] == rest;
    case Number(n) =>
      NumberRoundTrip(n, rest);
      DecimalFirst(if n < 0 then -n else n);
    case String(t) => StringRoundTrip(t, rest);
    case Array(items) => ArrayRoundTrip(items, depth, fmt, rest);
    case Object(ms) => ObjectRoundTrip(ms, depth, fmt, rest);
  }

  /** The text from the first item to the end of the array, and what follows. */
  function ItemsText(items: seq<Json>, depth: nat, fmt: bool, rest: string): string
    requires items != []
    decreases |items|, 0
  {
    PrintValue(items[0], depth, fmt) + ItemsTail(items[1..], depth, fmt, rest)
  }

  /** The text after an item: the next item or the end of the array. */
  function ItemsTail(items: seq<Json>, depth: nat, fmt: bool, rest: string): (s: string)
    ensures EndsNumber(s)
    decreases |items|, 1
  {
    if items == [] then "]" + rest else "," + (When(fmt, " ") + ItemsText(items, depth, fmt, rest))
  }

  lemma {:induction false} JoinedItems(items: seq<Json>, depth: nat, fmt: bool, rest: string)
    requires items != []
    ensures JoinItems(PrintItems(items, depth, fmt), fmt) + ("]" + rest) == ItemsText(items, depth, fmt, rest)
  {
    if |items| > 1 {
      JoinedItems(items[1..], depth, fmt, rest);
      Regroup(PrintValue(items[0], depth, fmt), ",", When(fmt, " "),
              JoinItems(PrintItems(items[1..], depth, fmt), fmt), "]" + rest);
    }
  }

  lemma {:induction false} ArrayRoundTrip(items: seq<Json>, depth: nat, fmt: bool, rest: string)
    requires Printable(Array(items))
    ensures ParseValue(PrintValue(Array(items), depth, fmt) + rest) == Ok(Array(items), rest)
    decreases items, 1
  {
    var joined := JoinItems(PrintItems(items, depth + 1, fmt), fmt);
    var inner := joined + ("]" + rest);
    assert PrintValue(Array(items), depth, fmt) + rest == "[" + inner;
    if items == [] {
      assert inner == "]" + rest;
    } else {
      JoinedItems(items, depth + 1, fmt, rest);
      SkipPrinted(items[0], depth + 1, fmt, ItemsTail(items[1..], depth + 1, fmt, rest));
      ItemsRoundTrip(items, depth + 1, fmt, rest);
    }
    OpenArray(inner, items, rest);
  }

  lemma {:induction false} ItemsRoundTrip(items: seq<Json>, depth: nat, fmt: bool, rest: string)
    requires items != []
    requires forall i | 0 <= i < |items| :: Printable(items[i])
    ensures ParseItems(ItemsText(items, depth, fmt, rest)) == Ok(items, rest)
    decreases items, 0
  {
    var s := ItemsText(items, depth, fmt, rest);
    var tail := ItemsTail(items[1..], depth, fmt, rest);
    ValueRoundTrip(items[0], depth, fmt, tail);
    SkipPrinted(items[0], depth, fmt, tail);
    if |items| == 1 {
      LastItem(s, items, rest);
    } else {
      var next := ItemsText(items[1..], depth, fmt, rest);
      SpacedItems(items[1..], depth, fmt, rest);
      ItemsRoundTrip(items[1..], depth, fmt, rest);
      NextItem(s, items, When(fmt, " ") + next, rest);
    }
  }

  lemma SpacedItems(items: seq<Json>, depth: nat, fmt: bool, rest: string)
    requires items != []
    ensures ParseItems(When(fmt, " ") + ItemsText(items, depth, fmt, rest)) ==
            ParseItems(ItemsText(items, depth, fmt, rest))
  {
    var s := ItemsText(items, depth, fmt, rest);
    SkipPrinted(items[0], depth, fmt, ItemsTail(items[1..], depth, fmt, rest));
    assert !fmt ==> When(fmt, " ") + s == s;
    SkipItems(When(fmt, " ") + s, s);
  }

  /** The text from the first name to the end of the object, and what follows. */
  function MembersText(ms: seq<Member>, depth: nat, fmt: bool, rest: string): (s: string)
    requires ms != [] && depth > 0
    ensures At(s) == '\"'
    decreases |ms|, 0
  {
    PrintString(ms[0].name) +
    (":" + (When(fmt, "\t") + (PrintValue(ms[0].value, depth, fmt) + MembersTail(ms[1..], depth, fmt, rest))))
  }

  /** The text after a value: the next member or the end of the object. */
  function MembersTail(ms: seq<Member>, depth: nat, fmt: bool, rest: string): (s: string)
    requires depth > 0
    ensures EndsNumber(s)
    decreases |ms|, 1
  {
    if ms == [] then When(fmt, "\n") + (When(fmt, Tabs(depth - 1)) + ("}" + rest))
    else "," + (When(fmt, "\n") + (When(fmt, Tabs(depth)) + MembersText(ms, depth, fmt, rest)))
  }

  lemma {:induction false} JoinedMembers(ms: seq<Member>, depth: nat, fmt: bool, rest: string)
    requires ms != [] && depth > 0
    ensures JoinMembers(PrintNames(ms), PrintMembers(ms, depth, fmt), depth, fmt) +
            (When(fmt, Tabs(depth - 1)) + ("}" + rest)) ==
            When(fmt, Tabs(depth)) + MembersText(ms, depth, fmt, rest)
  {
    var indent, name, value := When(fmt, Tabs(depth)), PrintString(ms[0].name), PrintValue(ms[0].value, depth, fmt);
    var comma, more, close := When(|ms| > 1, ","),
                              JoinMembers(PrintNames(ms[1..]), PrintMembers(ms[1..], depth, fmt), depth, fmt),
                              When(fmt, Tabs(depth - 1)) + ("}" + rest);
    RegroupMember(indent, name, ":", When(fmt, "\t"), value, comma, When(fmt, "\n"), more, close);
    if |ms| > 1 {
      JoinedMembers(ms[1..], depth, fmt, rest);
    } else {
      assert more == "" && comma == "";
      assert comma + (When(fmt, "\n") + (more + close)) == When(fmt, "\n") + close;
    }
  }

  lemma RegroupMember(a: string, b: string, c: string, d: string, e: string, f: string, g: string, h: string, i: string)
    ensures (a + b + c + d + e + f + g + h) + i == a + (b + (c + (d + (e + (f + (g + (h + i)))))))
  {
    Regroup(a + b + c + d + e, f, g, h, i);
    Regroup(a, b, c, d + e, f + (g + (h + i)));
    assert a + b + c + d + e == a + b + c + (d + e);
    assert d + e + (f + (g + (h + i))) == d + (e + (f + (g + (h + i))));
  }

  /** What follows the opening brace. */
  function ObjectInner(ms: seq<Member>, depth: nat, fmt: bool, rest: string): string
  {
    When(fmt, "\n") + (JoinMembers(PrintNames(ms), PrintMembers(ms, depth + 1, fmt), depth + 1, fmt) +
                       (When(fmt, Tabs(depth)) + ("}" + rest)))
  }

  lemma ObjectOpens(ms: seq<Member>, depth: nat, fmt: bool, rest: string)
    ensures PrintValue(Object(ms), depth, fmt) + rest == "{" + ObjectInner(ms, depth, fmt, rest)
  {
    var joined := JoinMembers(PrintNames(ms), PrintMembers(ms, depth + 1, fmt), depth + 1, fmt);
    Regroup("{", When(fmt, "\n"), joined, When(fmt, Tabs(depth)), "}" + rest);
  }

  lemma ObjectSkips(ms: seq<Member>, depth: nat, fmt: bool, rest: string)
    ensures Skip(ObjectInner(ms, depth, fmt, rest)) ==
            Skip(if ms == [] then "}" + rest else MembersText(ms, depth + 1, fmt, rest))
  {
    if ms == [] {
      assert "" + (When(fmt, Tabs(depth)) + ("}" + rest)) == When(fmt, Tabs(depth)) + ("}" + rest);
      SkipLine(fmt, depth, "}" + rest);
    } else {
      JoinedMembers(ms, depth + 1, fmt, rest);
      SkipLine(fmt, depth + 1, MembersText(ms, depth + 1, fmt, rest));
    }
  }

  lemma {:induction false} ObjectRoundTrip(ms: seq<Member>, depth: nat, fmt: bool, rest: string)
    requires Printable(Object(ms))
    ensures ParseValue(PrintValue(Object(ms), depth, fmt) + rest) == Ok(Object(ms), rest)
    decreases ms, 2
  {
    ObjectOpens(ms, depth, fmt, rest);
    ObjectSkips(ms, depth, fmt, rest);
    if ms != [] {
      MembersRoundTrip(ms, depth + 1, fmt, rest);
    }
    OpenObject(ObjectInner(ms, depth, fmt, rest), ms, rest);
  }

  lemma {:induction false} MembersRoundTrip(ms: seq<Member>, depth: nat, fmt: bool, rest: string)
    requires ms != [] && depth > 0
    requires forall i | 0 <= i < |ms| :: '\0' !in ms[i].name && Printable(ms[i].value)
    ensures ParseMembers(MembersText(ms, depth, fmt, rest)) == Ok(ms, rest)
    decreases ms, 1
  {
    var s := MembersText(ms, depth, fmt, rest);
    var tail := MembersTail(ms[1..], depth, fmt, rest);
    MemberRoundTrip(ms[0], depth, fmt, s, tail);
    if |ms| == 1 {
      SkipLine(fmt, depth - 1, "}" + rest);
      LastMember(s, ms, tail, rest);
    } else {
      var next := MembersText(ms[1..], depth, fmt, rest);
      var line := When(fmt, "\n") + (When(fmt, Tabs(depth)) + next);
      SkipLine(fmt, depth, next);
      SkipMembers(line, next);
      MembersRoundTrip(ms[1..], depth, fmt, rest);
      NextMember(s, ms, line, rest);
    }
  }

  lemma {:induction false} MemberRoundTrip(m: Member, depth: nat, fmt: bool, s: string, tail: string)
    requires '\0' !in m.name && Printable(m.value) && EndsNumber(tail)
    requires s == PrintString(m.name) + (":" + (When(fmt, "\t") + (PrintValue(m.value, depth, fmt) + tail)))
    ensures ParseMember(s) == Ok(m, tail)
    decreases m, 2
  {
    var value := PrintValue(m.value, depth, fmt) + tail;
    var colon := ":" + (When(fmt, "\t") + value);
    StringRoundTrip(m.name, colon);
    assert Skip(s) == s;
    assert colon[1..] == When(fmt, "\t") + value;
    SkipPrinted(m.value, depth, fmt, tail);
    assert !fmt ==> When(fmt, "\t") + value == value;
    ValueRoundTrip(m.value, depth, fmt, tail);
  }

  // ----- The entry points -----

  /** Both prints of a tree parse to the tree, so they mean the same. */
  lemma PrintParse(v: Json)
    requires Printable(v)
    ensures Parse(Print(v, true)) == Parse(Print(v, false)) == Ok(v, "")
  {
    forall fmt: bool
      ensures Parse(Print(v, fmt)) == Ok(v, "")
    {
      ValueRoundTrip(v, 0, fmt, "");
      SkipPrinted(v, 0, fmt, "");
      assert Print(v, fmt) + "" == Print(v, fmt);
    }
  }

  /** So the text says which tree it stands for: distinct trees never print alike. */
  lemma PrintInjective(v: Json, w: Json, f: bool, g: bool)
    requires Printable(v) && Printable(w) && Print(v, f) == Print(w, g)
    ensures v == w
  {
    PrintParse(v);
    PrintParse(w);
  }

  /** A surrogate pair decodes to its code point exactly when bit 16 of the twenty payload bits
      is clear: or-ing 0x10000 in loses it otherwise. */
  lemma CombineExact(high: nat, low: nat)
    requires IsHighSurrogate(high) && IsLowSurrogate(low)
    ensures Combine(high, low) == 0x1_0000 + (high - 0xD800) * 0x400 + (low - 0xDC00) <==>
            ((high - 0xD800) / 64) % 2 == 0
  {
    assert high % 0x400 == high - 0xD800;
    assert low % 0x400 == low - 0xDC00;
    assert ((high - 0xD800) * 0x400 + (low - 0xDC00)) / 0x1_0000 == (high - 0xD800) / 64;
  }

  /** Two escapes in quotes. */
  function PairText(h: string, l: string): string
  {
    "\"" + ("\\u" + (h + ("\\u" + (l + "\""))))
  }

  /** The escapes of a pair are read as the code point that the two halves are put together to. */
  lemma PairRead(h: string, l: string)
    requires |h| == |l| == 4 && StartsWithHex4(h) && StartsWithHex4(l)
    requires IsHighSurrogate(Hex4(h)) && IsLowSurrogate(Hex4(l))
    ensures ParseString(PairText(h, l)) == Ok(Utf8(Combine(Hex4(h), Hex4(l))), "")
  {
    var t := "\\u" + (l + "\"");
    var s := "\\u" + (h + t);
    Unicode(h, t);
    Unicode(l, "\"");
    assert ReadEscape(s) == Ok(Utf8(Combine(Hex4(h), Hex4(l))), "\"");
    assert ("\"" + s)[1..] == s;
    LastQuote(s, Utf8(Combine(Hex4(h), Hex4(l))));
  }

  lemma Unicode(h: string, rest: string)
    requires |h| == 4 && StartsWithHex4(h)
    ensures var s := "\\u" + (h + rest);
            && At(s) == '\\' && At(s[1..]) == 'u' && s[2..] == h + rest && s[6..] == rest
            && StartsWithHex4(s[2..]) && Hex4(s[2..]) == Hex4(h)
  {}

  lemma LastQuote(s: string, value: string)
    requires At(s) == '\\' && ReadEscape(s) == Ok(value, "\"")
    ensures Unescape(s) == Ok(value, "")
  {
    assert Unescape("\"") == Ok("", "") by {
      assert "\""[1..] == "";
    }
    assert value + "" == value;
  }

  /** It happens: the escapes of U+20000, d840 and dc00 in upper or lower case, are read as U+10000. */
  lemma SurrogateExample(h: string, l: string, read: nat, meant: nat)
    requires |h| == |l| == 4 && StartsWithHex4(h) && StartsWithHex4(l) && Hex4(h) == 0xD840 && Hex4(l) == 0xDC00
    requires read == 0x1_0000 && meant == 0x2_0000
    ensures ParseString(PairText(h, l)) == Ok(Utf8(read), "") && Utf8(read) != Utf8(meant)
  {
    CombinedTo(Hex4(h), Hex4(l), read);
    PairRead(h, l);
    Utf8Differs(read, meant);
  }

  lemma CombinedTo(high: nat, low: nat, u: nat)
    requires high == 0xD840 && low == 0xDC00 && u == 0x1_0000
    ensures Combine(high, low) == u
  {}

  /** The same at the text itself. */
  lemma SurrogateText(h: string, l: string, read: nat, meant: nat)
    requires h == "d840" && l == "dc00" && read == 0x1_0000 && meant == 0x2_0000
    ensures ParseString(PairText(h, l)) == Ok(Utf8(read), "") && Utf8(read) != Utf8(meant)
  {
    HalvesOf(h, l);
    SurrogateExample(h, l, read, meant);
  }

  lemma HalvesOf(h: string, l: string)
    requires h == "d840" && l == "dc00"
    ensures |h| == |l| == 4 && StartsWithHex4(h) && StartsWithHex4(l) && Hex4(h) == 0xD840 && Hex4(l) == 0xDC00
  {
    HexOf(h, 0xD, 8, 4, 0);
    HexOf(l, 0xD, 0xC, 0, 0);
  }

  lemma Utf8Differs(u: nat, v: nat)
    requires u == 0x1_0000 && v == 0x2_0000
    ensures Utf8(u) != Utf8(v)
  {
    assert Utf8(u)[1] != Utf8(v)[1];
  }

  lemma HexOf(s: string, a: nat, b: nat, c: nat, d: nat)
    requires |s| == 4 && forall k | 0 <= k < 4 :: IsHex(s[k])
    requires HexValue(s[0]) == a && HexValue(s[1]) == b && HexValue(s[2]) == c && HexValue(s[3]) == d
    ensures StartsWithHex4(s) && Hex4(s) == ((a * 16 + b) * 16 + c) * 16 + d
  {}
}
