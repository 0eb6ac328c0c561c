/** cJSON's parser: a position moves over the text, strings are measured and then written into a buffer. */
module JsonParser {
  import opened JsonText

  /** What a parsing method hands back: a value and the position after it, the position
      of the error, or nothing where the C code has no defined result. */
  datatype Outcome<T> = Done(value: T, end: nat) | Failed(ep: nat) | Outside

  ghost predicate Agrees<T>(text: string, o: Outcome<T>, r: Parsed<T>)
  {
    match o
    case Done(v, end) => end <= |text| && r == Ok(v, text[end..])
    case Failed(ep) => ep <= |text| && r == Malformed(text[ep..])
    case Outside => r == Undefined
  }

  function Peek(text: string, p: nat): (c: char)
    requires p <= |text|
    ensures c == At(text[p..])
  {
    if p == |text| then '\0' else text[p]
  }

  method SkipBlanks(text: string, p: nat) returns (q: nat)
    requires p <= |text|
    ensures p <= q <= |text| && text[q..] == Skip(text[p..])
  {
    q := p;
    while Peek(text, q) != '\0' && Peek(text, q) <= ' '
      invariant p <= q <= |text|
      invariant Skip(text[q..]) == Skip(text[p..])
      decreases |text| - q
    {
      q := q + 1;
    }
  }

  // ----- Strings: measure, then write -----

  /** What the measuring pass counts: one for every character or escape.  -1 when it runs past the terminator. */
  function Measure(s: string): (n: int)
    ensures n >= -1
  {
    if At(s) == '\"' || At(s) == '\0' then 0
    else if s[0] == '\\' && At(s[1..]) == '\0' then -1
    else
      var n := Measure(if s[0] == '\\' then s[2..] else s[1..]);
      if n < 0 then -1 else n + 1
  }

  /** Hexadecimal digits are measured one by one. */
  lemma MeasureHex4(s: string)
    requires StartsWithHex4(s)
    ensures Measure(s) < 0 <==> Measure(s[4..]) < 0
    ensures Measure(s[4..]) >= 0 ==> Measure(s) == Measure(s[4..]) + 4
  {
    assert s[1..][1..] == s[2..] && s[2..][1..] == s[3..] && s[3..][1..] == s[4..];
    assert Measure(s[3..]) < 0 <==> Measure(s[4..]) < 0;
    assert Measure(s[2..]) < 0 <==> Measure(s[3..]) < 0;
    assert Measure(s[1..]) < 0 <==> Measure(s[2..]) < 0;
  }

  lemma MeasureUnicode(s: string)
    requires At(s) == '\\' && At(s[1..]) == 'u' && StartsWithHex4(s[2..])
    ensures Measure(s) < 0 <==> Measure(s[6..]) < 0
    ensures Measure(s[6..]) >= 0 ==> Measure(s) == Measure(s[6..]) + 5
  {
    MeasureHex4(s[2..]);
    assert s[2..][4..] == s[6..];
  }

  /** The count of an escape covers what it is unescaped to. */
  lemma MeasureEscape(s: string)
    requires At(s) == '\\' && ReadEscape(s).Ok?
    ensures Measure(s) < 0 <==> Measure(ReadEscape(s).rest) < 0
    ensures Measure(s) >= 0 ==> Measure(s) >= |ReadEscape(s).value| + Measure(ReadEscape(s).rest)
  {
    if At(s[1..]) == 'u' {
      MeasureUnicode(s);
      var t := s[6..];
      if At(t) == '\\' && At(t[1..]) == 'u' && StartsWithHex4(t[2..]) {
        MeasureUnicode(t);
      }
    }
  }

  /** The measuring pass covers the writing pass on every text the writing pass is defined on. */
  lemma {:induction false} MeasureCovers(s: string)
    ensures Measure(s) < 0 ==> Unescape(s).Undefined?
    ensures Unescape(s).Ok? ==> Measure(s) >= |Unescape(s).value|
    decreases |s|
  {
    if At(s) == '\"' || At(s) == '\0' {
    } else if At(s) != '\\' {
      MeasureCovers(s[1..]);
    } else if ReadEscape(s).Ok? {
      MeasureEscape(s);
      MeasureCovers(ReadEscape(s).rest);
    }
  }

  lemma ShiftTwice(u: nat)
    ensures u / 64 / 64 == u / 4096 && u / 64 / 64 / 64 == u / 262144
  {}

  /** Writes the last byte first, as the falling-through `switch` does. */
  method WriteUtf8(out: array<char>, k: nat, u: nat) returns (len: nat)
    requires 0 < u < 0x11_0000 && k + |Utf8(u)| <= out.Length
    modifies out
    ensures len == |Utf8(u)|
    ensures out[..k + len] == old(out[..k]) + Utf8(u)
  {
    len := if u < 0x80 then 1 else if u < 0x800 then 2 else if u < 0x1_0000 then 3 else 4;
    var uc := u;
    ShiftTwice(u);
    if len == 4 {
      out[k + 3], uc := (0x80 + uc % 64) as char, uc / 64;
    }
    if len >= 3 {
      out[k + 2], uc := (0x80 + uc % 64) as char, uc / 64;
    }
    if len >= 2 {
      out[k + 1], uc := (0x80 + uc % 64) as char, uc / 64;
    }
    out[k] := ([0, 0, 0xC0, 0xE0, 0xF0][len] + uc) as char;
    assert out[..k + len] == out[..k] + out[k..k + len];
    assert out[..k] == old(out[..k]);
    assert out[k..k + len] == Utf8(u);
  }

  /** The first pass of `parse_string`. */
  method MeasureString(text: string, p: nat) returns (len: int)
    requires p <= |text|
    ensures len == Measure(text[p..])
  {
    var ptr, n := p, 0;
    while Peek(text, ptr) != '\"' && Peek(text, ptr) != '\0'
      invariant p <= ptr <= |text|
      invariant Measure(text[p..]) == if Measure(text[ptr..]) < 0 then -1 else n + Measure(text[ptr..])
      decreases |text| - ptr
    {
      n := n + 1;
      if text[ptr] == '\\' {
        if Peek(text, ptr + 1) == '\0' {
          return -1;
        }
        ptr := ptr + 1;
      }
      ptr := ptr + 1;
    }
    len := n;
  }

  method ParseStringAt(text: string, p: nat) returns (r: Outcome<string>)
    requires p <= |text|
    ensures Agrees(text, r, ParseString(text[p..]))
    ensures r.Done? ==> r.end > p
  {
    if Peek(text, p) != '\"' {
      return Failed(p);
    }
    assert text[p..][1..] == text[p + 1..];
    MeasureCovers(text[p + 1..]);
    var len := MeasureString(text, p + 1);
    if len < 0 {
      return Outside;
    }
    r := WriteString(text, p + 1, len);
  }

  /** The second pass: `len + 1` characters are enough for it. */
  method WriteString(text: string, p: nat, len: nat) returns (r: Outcome<string>)
    requires p <= |text| && len == Measure(text[p..])
    ensures Agrees(text, r, Unescape(text[p..]))
    ensures r.Done? ==> r.end >= p
  {
    var out := new char[len + 1];
    ghost var all := Unescape(text[p..]);
    assert all.Ok? ==> "" + all.value == all.value;
    r := WriteInto(text, p, out, all);
  }

  method WriteInto(text: string, p: nat, out: array<char>, ghost all: Parsed<string>) returns (r: Outcome<string>)
    requires p <= |text| && 0 <= Measure(text[p..]) < out.Length && all == Prepend("", Unescape(text[p..]))
    modifies out
    ensures Agrees(text, r, all)
    ensures r.Done? ==> r.end >= p
  {
    var ptr, k := p, 0;
    while Peek(text, ptr) != '\"' && Peek(text, ptr) != '\0'
      invariant p <= ptr <= |text| && 0 <= k < out.Length
      invariant Measure(text[ptr..]) >= 0 && k + Measure(text[ptr..]) < out.Length
      invariant all == Prepend(out[..k], Unescape(text[ptr..]))
      decreases |text| - ptr
    {
      ghost var before := out[..k];
      if text[ptr] != '\\' {
        PutAt(out, k, text[ptr]);
        PrependTwice(before, [text[ptr]], Unescape(text[ptr + 1..]));
        ptr, k := ptr + 1, k + 1;
      } else {
        var ok, next, n := WriteEscapeAt(text, ptr, out, k);
        if !ok {
          return Outside;
        }
        PrependTwice(before, out[k..n], Unescape(text[next..]));
        ptr, k := next, n;
      }
    }
    out[k] := '\0';
    assert out[..k] + "" == out[..k];
    r := Done(out[..k], if Peek(text, ptr) == '\"' then ptr + 1 else ptr);
  }

  method PutAt(out: array<char>, k: nat, c: char)
    requires k < out.Length
    modifies out
    ensures out[..k + 1] == old(out[..k]) + [c]
  {
    out[k] := c;
  }

  lemma PrependTwice(a: string, b: string, r: Parsed<string>)
    ensures Prepend(a, Prepend(b, r)) == Prepend(a + b, r)
  {
    if r.Ok? {
      assert a + (b + r.value) == (a + b) + r.value;
    }
  }

  /** Reads the escape at `p` and writes what it stands for at `k`. */
  method WriteEscapeAt(text: string, p: nat, out: array<char>, k: nat) returns (ok: bool, next: nat, n: nat)
    requires p < |text| && text[p] == '\\'
    requires Measure(text[p..]) >= 0 && k + Measure(text[p..]) <= out.Length
    modifies out
    ensures !ok ==> Unescape(text[p..]) == Undefined
    ensures ok ==> p < next <= |text| && k <= n <= out.Length
    ensures ok ==> Measure(text[next..]) >= 0 && n + Measure(text[next..]) <= k + Measure(text[p..])
    ensures ok ==> out[..n] == old(out[..k]) + out[k..n]
    ensures ok ==> Unescape(text[p..]) == Prepend(out[k..n], Unescape(text[next..]))
  {
    next, n := p, k;
    var e := EscapeAt(text, p);
    ok := e.Done?;
    if ok {
      MeasureEscape(text[p..]);
      var len := WriteEscaped(out, k, e.value);
      next, n := e.end, k + len;
      assert out[k..n] == out[..n][k..];
    }
  }

  method WriteEscaped(out: array<char>, k: nat, e: Escaped) returns (n: nat)
    requires e.Valid() && k + |e.Text()| <= out.Length
    modifies out
    ensures n == |e.Text()| && out[..k + n] == old(out[..k]) + e.Text()
  {
    match e
    case Code(u) =>
      n := WriteUtf8(out, k, u);
    case Plain(c) =>
      out[k], n := c, 1;
    case Nothing =>
      n := 0;
  }

  /** What an escape asks to be written. */
  datatype Escaped = Plain(c: char) | Code(u: nat) | Nothing {
    predicate Valid() { Code? ==> 0 < u < 0x11_0000 }

    ghost function Text(): string
      requires Valid()
    {
      match this
      case Plain(c) => [c]
      case Code(u) => Utf8(u)
      case Nothing => ""
    }
  }

  /** The `switch` on the character after a backslash. */
  method EscapeAt(text: string, p: nat) returns (r: Outcome<Escaped>)
    requires p < |text| && text[p] == '\\'
    ensures !r.Failed?
    ensures r.Outside? ==> ReadEscape(text[p..]).Undefined?
    ensures r.Done? ==> p < r.end <= |text| && r.value.Valid()
    ensures r.Done? ==> ReadEscape(text[p..]) == Ok(r.value.Text(), text[r.end..])
  {
    var ptr := p + 1;
    var c := Peek(text, ptr);
    if c == '\0' {
      return Outside;
    }
    if c != 'u' {
      return Done(Plain(Unshort(c)), ptr + 1);
    }
    if !StartsWithHex4(text[ptr + 1..]) {
      return Outside;
    }
    var u := Hex4(text[ptr + 1..]);
    ptr := ptr + 4;
    if IsLowSurrogate(u) || u == 0 {
      return Done(Nothing, ptr + 1);
    }
    if IsHighSurrogate(u) {
      if Peek(text, ptr + 1) != '\\' || Peek(text, ptr + 2) != 'u' {
        return Done(Nothing, ptr + 1);
      }
      if !StartsWithHex4(text[ptr + 3..]) {
        return Outside;
      }
      var low := Hex4(text[ptr + 3..]);
      ptr := ptr + 6;
      if !IsLowSurrogate(low) {
        return Done(Nothing, ptr + 1);
      }
      u := Combine(u, low);
    }
    r := Done(Code(u), ptr + 1);
  }

  // ----- Numbers -----

  method ReadWholeAt(text: string, p: nat) returns (n: nat, q: nat)
    requires p <= |text|
    ensures p <= q <= |text| && ReadWhole(text[p..]) == (n, text[q..])
  {
    n, q := 0, p;
    if Peek(text, q) == '0' {
      q := q + 1;
    }
    ghost var digits := text[q..];
    if '1' <= Peek(text, q) <= '9' {
      while IsDigit(Peek(text, q))
        invariant p <= q <= |text|
        invariant ReadDigits(digits, 0) == ReadDigits(text[q..], n)
        decreases |text| - q
      {
        n, q := 10 * n + DigitValue(text[q]), q + 1;
      }
    }
  }

  method ParseNumberAt(text: string, p: nat) returns (r: Outcome<int>)
    requires p <= |text|
    ensures Agrees(text, r, ParseNumber(text[p..]))
    ensures r.Done? && (Peek(text, p) == '-' || IsDigit(Peek(text, p))) ==> r.end > p
  {
    var num, sign := p, 1;
    if Peek(text, num) == '-' {
      sign, num := -1, num + 1;
    }
    var n, q := ReadWholeAt(text, num);
    if HasFraction(text[q..]) || sign * n < INT_MIN || sign * n > INT_MAX {
      return Outside;
    }
    r := Done(sign * n, q);
  }

  // ----- Values -----

  lemma AheadTwice<T>(a: seq<T>, b: seq<T>, r: Parsed<seq<T>>)
    ensures Ahead(a, Ahead(b, r)) == Ahead(a + b, r)
  {
    if r.Ok? {
      assert a + (b + r.value) == (a + b) + r.value;
    }
  }

  method ParseValueAt(text: string, p: nat) returns (r: Outcome<Json>)
    requires p <= |text|
    ensures Agrees(text, r, ParseValue(text[p..]))
    ensures r.Done? ==> r.end > p
    decreases |text| - p, 1
  {
    if "null" <= text[p..] {
      r := Done(Null, p + 4);
    } else if "false" <= text[p..] {
      r := Done(False, p + 5);
    } else if "true" <= text[p..] {
      r := Done(True, p + 4);
    } else if Peek(text, p) == '\"' {
      var s := ParseStringAt(text, p);
      match s
      case Done(v, end) => r := Done(String(v), end);
      case Failed(ep) => r := Failed(ep);
      case Outside => r := Outside;
    } else if Peek(text, p) == '-' || IsDigit(Peek(text, p)) {
      var n := ParseNumberAt(text, p);
      match n
      case Done(v, end) => r := Done(Number(v), end);
      case Failed(ep) => r := Failed(ep);
      case Outside => r := Outside;
    } else if Peek(text, p) == '[' {
      r := ParseArrayAt(text, p);
    } else if Peek(text, p) == '{' {
      r := ParseObjectAt(text, p);
    } else {
      r := Failed(p);
    }
  }

  method ParseArrayAt(text: string, p: nat) returns (r: Outcome<Json>)
    requires p <= |text| && Peek(text, p) == '['
    ensures Agrees(text, r, ParseArray(text[p..]))
    ensures r.Done? ==> r.end > p
    decreases |text| - p, 0
  {
    var q := SkipBlanks(text, p + 1);
    if Peek(text, q) == ']' {
      return Done(Array([]), q + 1);
    }
    var items := ParseItemsAt(text, q);
    match items
    case Done(v, end) => r := Done(Array(v), end);
    case Failed(ep) => r := Failed(ep);
    case Outside => r := Outside;
  }

  method ParseObjectAt(text: string, p: nat) returns (r: Outcome<Json>)
    requires p <= |text| && Peek(text, p) == '{'
    ensures Agrees(text, r, ParseObject(text[p..]))
    ensures r.Done? ==> r.end > p
    decreases |text| - p, 0
  {
    var q := SkipBlanks(text, p + 1);
    if Peek(text, q) == '}' {
      return Done(Object([]), q + 1);
    }
    var ms := ParseMembersAt(text, q);
    match ms
    case Done(v, end) => r := Done(Object(v), end);
    case Failed(ep) => r := Failed(ep);
    case Outside => r := Outside;
  }

  /** One item and the blanks on both sides of it. */
  method ItemAt(text: string, p: nat) returns (r: Outcome<Json>)
    requires p <= |text|
    ensures match r
            case Done(v, q) => p < q <= |text| && ParseItems(text[p..]) == Ahead([v], MoreItems(text[q..]))
            case Failed(ep) => ep <= |text| && ParseItems(text[p..]) == Malformed(text[ep..])
            case Outside => ParseItems(text[p..]) == Undefined
    decreases |text| - p, 2
  {
    var at := SkipBlanks(text, p);
    r := ParseValueAt(text, at);
    if r.Done? {
      var q := SkipBlanks(text, r.end);
      r := Done(r.value, q);
    }
  }

  /** The loop of `parse_array`: a value, then another for every comma, then the bracket. */
  method ParseItemsAt(text: string, p: nat) returns (r: Outcome<seq<Json>>)
    requires p <= |text|
    ensures Agrees(text, r, ParseItems(text[p..]))
    ensures r.Done? ==> r.end > p
    decreases |text| - p, 3
  {
    var item := ItemAt(text, p);
    if !item.Done? {
      return if item.Failed? then Failed(item.ep) else Outside;
    }
    r := MoreItemsAt(text, item.end, item.value, ParseItems(text[p..]));
  }

  method MoreItemsAt(text: string, p: nat, first: Json, ghost all: Parsed<seq<Json>>) returns (r: Outcome<seq<Json>>)
    requires p <= |text| && all == Ahead([first], MoreItems(text[p..]))
    ensures Agrees(text, r, all)
    ensures r.Done? ==> r.end > p
    decreases |text| - p, 3
  {
    var items, q := [first], p;
    while Peek(text, q) == ','
      invariant p <= q <= |text|
      invariant all == Ahead(items, MoreItems(text[q..]))
      decreases |text| - q
    {
      var item := ItemAt(text, q + 1);
      if !item.Done? {
        return if item.Failed? then Failed(item.ep) else Outside;
      }
      AheadTwice(items, [item.value], MoreItems(text[item.end..]));
      items, q := items + [item.value], item.end;
    }
    assert items + [] == items;
    r := if Peek(text, q) == ']' then Done(items, q + 1) else Failed(q);
  }

  method ParseMemberAt(text: string, p: nat) returns (r: Outcome<Member>)
    requires p <= |text|
    ensures Agrees(text, r, ParseMember(text[p..]))
    ensures r.Done? ==> r.end > p
    decreases |text| - p, 2
  {
    var at := SkipBlanks(text, p);
    var name := ParseStringAt(text, at);
    match name
    case Failed(ep) => r := Failed(ep);
    case Outside => r := Outside;
    case Done(s, end) =>
      var q := SkipBlanks(text, end);
      r := AfterNameAt(text, s, q);
  }

  method AfterNameAt(text: string, name: string, p: nat) returns (r: Outcome<Member>)
    requires p <= |text|
    ensures Agrees(text, r, AfterName(name, text[p..]))
    ensures r.Done? ==> r.end > p
    decreases |text| - p, 1
  {
    if Peek(text, p) != ':' {
      return Failed(p);
    }
    assert text[p..][1..] == text[p + 1..];
    var at := SkipBlanks(text, p + 1);
    var value := ParseValueAt(text, at);
    match value
    case Done(v, after) => r := Done(Member(name, v), after);
    case Failed(ep) => r := Failed(ep);
    case Outside => r := Outside;
  }

  /** One member and the blanks after it. */
  method MemberAt(text: string, p: nat) returns (r: Outcome<Member>)
    requires p <= |text|
    ensures match r
            case Done(m, q) => p < q <= |text| && ParseMembers(text[p..]) == Ahead([m], MoreMembers(text[q..]))
            case Failed(ep) => ep <= |text| && ParseMembers(text[p..]) == Malformed(text[ep..])
            case Outside => ParseMembers(text[p..]) == Undefined
    decreases |text| - p, 3
  {
    r := ParseMemberAt(text, p);
    if r.Done? {
      var q := SkipBlanks(text, r.end);
      r := Done(r.value, q);
    }
  }

  /** The loop of `parse_object`. */
  method ParseMembersAt(text: string, p: nat) returns (r: Outcome<seq<Member>>)
    requires p <= |text|
    ensures Agrees(text, r, ParseMembers(text[p..]))
    ensures r.Done? ==> r.end > p
    decreases |text| - p, 4
  {
    var m := MemberAt(text, p);
    if !m.Done? {
      return if m.Failed? then Failed(m.ep) else Outside;
    }
    var members, q := [m.value], m.end;
    while Peek(text, q) == ','
      invariant p < q <= |text|
      invariant ParseMembers(text[p..]) == Ahead(members, MoreMembers(text[q..]))
      decreases |text| - q
    {
      m := MemberAt(text, q + 1);
      if !m.Done? {
        return if m.Failed? then Failed(m.ep) else Outside;
      }
      AheadTwice(members, [m.value], MoreMembers(text[m.end..]));
      members, q := members + [m.value], m.end;
    }
    assert members + [] == members;
    r := if Peek(text, q) == '}' then Done(members, q + 1) else Failed(q);
  }

  /** cJSON_Parse. */
  method ParseText(text: string) returns (r: Outcome<Json>)
    ensures Agrees(text, r, Parse(text))
  {
    var p := SkipBlanks(text, 0);
    assert text[0..] == text;
    r := ParseValueAt(text, p);
  }
}
