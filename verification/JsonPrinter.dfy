/** cJSON's printer: every text is measured, allocated, and then written in place. */
module JsonPrinter {
  import opened Collections
  import opened JsonText

  /** A buffer that holds `s` as a C string. */
  ghost predicate Holds(buffer: seq<char>, s: string)
  {
    |s| < |buffer| && buffer[..|s|] == s && buffer[|s|] == '\0'
  }

  /** strcpy to `out + k`, terminator included. */
  method CopyString(out: array<char>, k: nat, s: string) returns (n: nat)
    requires k + |s| < out.Length
    modifies out
    ensures n == k + |s| && out[..n] == old(out[..k]) + s && out[n] == '\0'
  {
    for i := 0 to |s|
      invariant out[..k + i] == old(out[..k]) + s[..i]
    {
      out[k + i] := s[i];
    }
    n := k + |s|;
    out[n] := '\0';
    assert s[..|s|] == s;
  }

  /** The same, when `done` of what follows `before` is written already. */
  method Append(out: array<char>, k: nat, s: string, ghost before: string, ghost done: string) returns (n: nat)
    requires k + |s| < out.Length && out[..k] == before + done
    modifies out
    ensures n == k + |s| && out[..n] == before + (done + s) && out[n] == '\0'
  {
    n := CopyString(out, k, s);
    Assoc(before, done, s);
  }

  // ----- Strings -----

  /** The length `print_string_ptr` measures. */
  method MeasureEscaped(s: string) returns (len: nat)
    ensures len == |Escape(s)|
  {
    len := 0;
    for i := 0 to |s|
      invariant len + |Escape(s[i..])| == |Escape(s)|
    {
      len := len + 1;
      if ShortEscape(s[i]) != '\0' {
        len := len + 1;
      } else if s[i] < ' ' {
        len := len + 5;
      }
    }
  }

  /** The measure is exact: quotes, escaped text and terminator fill the buffer. */
  method PrintStringBuffer(s: string) returns (out: array<char>)
    ensures fresh(out) && out.Length == |PrintString(s)| + 1
    ensures Holds(out[..], PrintString(s))
  {
    var len := MeasureEscaped(s);
    out := new char[len + 3];
    out[0] := '\"';
    var k := 1;
    for i := 0 to |s|
      invariant 1 <= k && k + |Escape(s[i..])| == len + 1
      invariant out[..k] + Escape(s[i..]) == "\"" + Escape(s)
    {
      Assoc(out[..k], EscapeChar(s[i]), Escape(s[i + 1..]));
      k := WriteChar(out, k, s[i]);
    }
    out[k], out[k + 1] := '\"', '\0';
    assert out[..k + 1] == ("\"" + Escape(s)) + "\"";
  }

  method WriteChar(out: array<char>, k: nat, c: char) returns (n: nat)
    requires k + |EscapeChar(c)| <= out.Length
    modifies out
    ensures n == k + |EscapeChar(c)| && out[..n] == old(out[..k]) + EscapeChar(c)
  {
    if c >= ' ' && c != '\"' && c != '\\' {
      out[k] := c;
      return k + 1;
    }
    out[k] := '\\';
    if ShortEscape(c) != '\0' {
      out[k + 1] := ShortEscape(c);
      return k + 2;
    }
    out[k + 1], out[k + 2], out[k + 3] := 'u', '0', '0';
    out[k + 4], out[k + 5] := HexDigit(c as nat / 16), HexDigit(c as nat % 16);
    return k + 6;
  }

  // ----- Numbers -----

  function Ten(k: nat): nat
  {
    if k == 0 then 1 else 10 * Ten(k - 1)
  }

  lemma {:induction false} DecimalLength(n: nat, k: nat, bound: nat)
    requires k > 0 && n < bound && bound == Ten(k)
    ensures |Decimal(n)| <= k
    decreases k
  {
    if n >= 10 {
      DecimalLength(n / 10, k - 1, bound / 10);
    }
  }

  /** The 21 characters are enough for every whole 32-bit number. */
  method PrintNumberBuffer(n: int) returns (out: array<char>)
    requires INT_MIN <= n <= INT_MAX
    ensures fresh(out) && out.Length == 21
    ensures Holds(out[..], PrintNumber(n))
  {
    out := new char[21];
    assert Ten(10) == 10_000_000_000 by {
      assert Ten(5) == 100_000;
    }
    DecimalLength(if n < 0 then -n else n, 10, Ten(10));
    var _ := CopyString(out, 0, PrintNumber(n));
  }

  // ----- Arrays -----

  /** What the measuring loop of `print_array` adds for the entries. */
  function ItemsLength(entries: seq<string>, fmt: bool): nat
  {
    if entries == [] then 0
    else |entries[0]| + 2 + (if fmt then 1 else 0) + ItemsLength(entries[1..], fmt)
  }

  /** It covers the entries and their separators. */
  lemma {:induction false} ItemsFit(entries: seq<string>, fmt: bool)
    ensures |JoinItems(entries, fmt)| <= ItemsLength(entries, fmt)
  {
    if |entries| > 1 {
      ItemsFit(entries[1..], fmt);
    }
  }

  method MeasureItems(entries: seq<string>, fmt: bool) returns (len: nat)
    ensures len == 5 + ItemsLength(entries, fmt)
  {
    len := 5;
    for i := 0 to |entries|
      invariant len + ItemsLength(entries[i..], fmt) == 5 + ItemsLength(entries, fmt)
    {
      len := len + |entries[i]| + 2 + (if fmt then 1 else 0);
    }
  }

  /** An entry, and the separator unless it is the last. */
  function ItemText(entry: string, fmt: bool, last: bool): string
  {
    entry + When(!last, ",") + When(!last && fmt, " ")
  }

  method WriteItem(out: array<char>, k: nat, entry: string, fmt: bool, last: bool) returns (n: nat)
    requires k + |entry| + 2 < out.Length
    modifies out
    ensures n == k + |ItemText(entry, fmt, last)| && out[..n] == old(out[..k]) + ItemText(entry, fmt, last)
  {
    ghost var before := out[..k];
    n := CopyString(out, k, entry);
    n := Append(out, n, When(!last, ","), before, entry);
    n := Append(out, n, When(!last && fmt, " "), before, entry + When(!last, ","));
  }

  lemma JoinItemsFirst(entries: seq<string>, fmt: bool)
    requires entries != []
    ensures JoinItems(entries, fmt) == ItemText(entries[0], fmt, |entries| == 1) + JoinItems(entries[1..], fmt)
  {}

  method ComposeArray(entries: seq<string>, fmt: bool) returns (out: array<char>)
    ensures fresh(out) && Holds(out[..], ArrayText(entries, fmt))
  {
    var len := MeasureItems(entries, fmt);
    out := new char[len];
    var k := CopyString(out, 0, "[");
    assert entries[0..] == entries;
    for i := 0 to |entries|
      invariant 1 <= k && k + ItemsLength(entries[i..], fmt) + 4 <= len
      invariant out[..k] + JoinItems(entries[i..], fmt) == "[" + JoinItems(entries, fmt)
    {
      ghost var line, more := ItemText(entries[i], fmt, i == |entries| - 1), JoinItems(entries[i + 1..], fmt);
      JoinItemsFirst(entries[i..], fmt);
      assert entries[i..][1..] == entries[i + 1..];
      Assoc(out[..k], line, more);
      k := WriteItem(out, k, entries[i], fmt, i == |entries| - 1);
    }
    assert out[..k] + "" == out[..k];
    k := CopyString(out, k, "]");
  }

  // ----- Objects -----

  /** What the measuring loop of `print_object` adds for the members. */
  function MembersLength(names: seq<string>, entries: seq<string>, depth: nat, fmt: bool): nat
    requires |names| == |entries|
  {
    if entries == [] then 0
    else |entries[0]| + |names[0]| + 2 + (if fmt then 2 + depth else 0) +
         MembersLength(names[1..], entries[1..], depth, fmt)
  }

  lemma {:induction false} MembersFit(names: seq<string>, entries: seq<string>, depth: nat, fmt: bool)
    requires |names| == |entries|
    ensures |JoinMembers(names, entries, depth, fmt)| <= MembersLength(names, entries, depth, fmt)
  {
    if entries != [] {
      MembersFit(names[1..], entries[1..], depth, fmt);
    }
  }

  method MeasureMembers(names: seq<string>, entries: seq<string>, depth: nat, fmt: bool) returns (len: nat)
    requires |names| == |entries|
    ensures len == 7 + (if fmt then depth else 0) + MembersLength(names, entries, depth, fmt)
  {
    len := 7 + (if fmt then depth else 0);
    for i := 0 to |entries|
      invariant len + MembersLength(names[i..], entries[i..], depth, fmt) ==
                7 + (if fmt then depth else 0) + MembersLength(names, entries, depth, fmt)
    {
      len := len + |entries[i]| + |names[i]| + 2 + (if fmt then 2 + depth else 0);
    }
  }

  /** One line of an object. */
  function MemberText(name: string, entry: string, depth: nat, fmt: bool, last: bool): string
  {
    When(fmt, Tabs(depth)) + name + ":" + When(fmt, "\t") + entry + When(!last, ",") + When(fmt, "\n")
  }

  method WriteMember(out: array<char>, k: nat, name: string, entry: string, depth: nat, fmt: bool, last: bool)
    returns (n: nat)
    requires k + |entry| + |name| + 2 + (if fmt then 2 + depth else 0) < out.Length
    modifies out
    ensures n == k + |MemberText(name, entry, depth, fmt, last)|
    ensures out[..n] == old(out[..k]) + MemberText(name, entry, depth, fmt, last)
  {
    ghost var before := out[..k];
    ghost var done := When(fmt, Tabs(depth));
    n := CopyString(out, k, When(fmt, Tabs(depth)));
    n := Append(out, n, name, before, done);
    done := done + name;
    n := Append(out, n, ":", before, done);
    done := done + ":";
    n := Append(out, n, When(fmt, "\t"), before, done);
    done := done + When(fmt, "\t");
    n := Append(out, n, entry, before, done);
    done := done + entry;
    n := Append(out, n, When(!last, ","), before, done);
    done := done + When(!last, ",");
    n := Append(out, n, When(fmt, "\n"), before, done);
  }

  lemma JoinMembersFirst(names: seq<string>, entries: seq<string>, depth: nat, fmt: bool)
    requires |names| == |entries| > 0
    ensures JoinMembers(names, entries, depth, fmt) ==
            MemberText(names[0], entries[0], depth, fmt, |entries| == 1) +
            JoinMembers(names[1..], entries[1..], depth, fmt)
  {}

  method WriteMembers(out: array<char>, k: nat, names: seq<string>, entries: seq<string>, depth: nat, fmt: bool)
    returns (n: nat)
    requires |names| == |entries| && k + MembersLength(names, entries, depth, fmt) < out.Length
    modifies out
    ensures n <= k + MembersLength(names, entries, depth, fmt)
    ensures out[..n] == old(out[..k]) + JoinMembers(names, entries, depth, fmt)
  {
    n := k;
    ghost var all := out[..k] + JoinMembers(names, entries, depth, fmt);
    assert names[0..] == names && entries[0..] == entries;
    for i := 0 to |entries|
      invariant n + MembersLength(names[i..], entries[i..], depth, fmt) <= k + MembersLength(names, entries, depth, fmt)
      invariant out[..n] + JoinMembers(names[i..], entries[i..], depth, fmt) == all
    {
      ghost var line := MemberText(names[i], entries[i], depth, fmt, i == |entries| - 1);
      ghost var more := JoinMembers(names[i + 1..], entries[i + 1..], depth, fmt);
      JoinMembersFirst(names[i..], entries[i..], depth, fmt);
      assert names[i..][1..] == names[i + 1..] && entries[i..][1..] == entries[i + 1..];
      Assoc(out[..n], line, more);
      n := WriteMember(out, n, names[i], entries[i], depth, fmt, i == |entries| - 1);
    }
    assert out[..n] + "" == out[..n];
  }

  method ComposeObject(names: seq<string>, entries: seq<string>, depth: nat, fmt: bool) returns (out: array<char>)
    requires |names| == |entries| && depth > 0
    ensures fresh(out) && Holds(out[..], ObjectText(names, entries, depth, fmt))
  {
    var len := MeasureMembers(names, entries, depth, fmt);
    out := new char[len];
    var k := CopyString(out, 0, "{");
    assert out[..k] == "{";
    k := CopyString(out, k, When(fmt, "\n"));
    k := WriteMembers(out, k, names, entries, depth, fmt);
    ghost var done := "{" + When(fmt, "\n") + JoinMembers(names, entries, depth, fmt);
    assert out[..k] == done;
    k := CopyString(out, k, When(fmt, Tabs(depth - 1)));
    k := CopyString(out, k, "}");
    assert out[..k] == done + When(fmt, Tabs(depth - 1)) + "}";
  }

  // ----- Values -----

  /** print_value: the buffer holds the specified text, at every depth and in both formats. */
  method PrintValueBuffer(v: Json, depth: nat, fmt: bool) returns (out: array<char>)
    requires Printable(v)
    ensures fresh(out) && Holds(out[..], PrintValue(v, depth, fmt))
    decreases v, 1
  {
    match v
    case Null => out := new char[5]; var _ := CopyString(out, 0, "null");
    case False => out := new char[6]; var _ := CopyString(out, 0, "false");
    case True => out := new char[5]; var _ := CopyString(out, 0, "true");
    case Number(n) => out := PrintNumberBuffer(n);
    case String(s) => out := PrintStringBuffer(s);
    case Array(items) =>
      var entries := ItemTexts(items, depth + 1, fmt);
      out := ComposeArray(entries, fmt);
    case Object(ms) =>
      var names, entries := MemberTexts(ms, depth + 1, fmt);
      out := ComposeObject(names, entries, depth + 1, fmt);
  }

  /** The C string in a buffer, read up to its terminator. */
  method ReadString(buffer: array<char>, ghost s: string) returns (r: string)
    requires Holds(buffer[..], s) && '\0' !in s
    ensures r == s
  {
    var n := 0;
    while buffer[n] != '\0'
      invariant 0 <= n <= |s|
      decreases |s| - n
    {
      n := n + 1;
    }
    r := buffer[..n];
  }

  method ValueText(v: Json, depth: nat, fmt: bool) returns (text: string)
    requires Printable(v)
    ensures text == PrintValue(v, depth, fmt)
    decreases v, 2
  {
    var out := PrintValueBuffer(v, depth, fmt);
    PrintedNoNul(v, depth, fmt);
    text := ReadString(out, PrintValue(v, depth, fmt));
  }

  method NameText(name: string) returns (text: string)
    requires '\0' !in name
    ensures text == PrintString(name)
  {
    var out := PrintStringBuffer(name);
    EscapeNoNul(name);
    text := ReadString(out, PrintString(name));
  }

  method ItemTexts(items: seq<Json>, depth: nat, fmt: bool) returns (texts: seq<string>)
    requires forall i | 0 <= i < |items| :: Printable(items[i])
    ensures texts == PrintItems(items, depth, fmt)
    decreases items, 0
  {
    texts := [];
    for i := 0 to |items|
      invariant texts + PrintItems(items[i..], depth, fmt) == PrintItems(items, depth, fmt)
    {
      var text := ValueText(items[i], depth, fmt);
      assert items[i..][1..] == items[i + 1..];
      MoveOver(texts, text, PrintItems(items[i + 1..], depth, fmt));
      texts := texts + [text];
    }
  }

  method MemberTexts(ms: seq<Member>, depth: nat, fmt: bool) returns (names: seq<string>, texts: seq<string>)
    requires forall i | 0 <= i < |ms| :: '\0' !in ms[i].name && Printable(ms[i].value)
    ensures names == PrintNames(ms) && texts == PrintMembers(ms, depth, fmt)
    decreases ms, 0
  {
    names, texts := [], [];
    for i := 0 to |ms|
      invariant names + PrintNames(ms[i..]) == PrintNames(ms)
      invariant texts + PrintMembers(ms[i..], depth, fmt) == PrintMembers(ms, depth, fmt)
    {
      var name := NameText(ms[i].name);
      var text := ValueText(ms[i].value, depth, fmt);
      assert ms[i..][1..] == ms[i + 1..];
      MoveOver(names, name, PrintNames(ms[i + 1..]));
      MoveOver(texts, text, PrintMembers(ms[i + 1..], depth, fmt));
      names, texts := names + [name], texts + [text];
    }
  }

  lemma MoveOver<T>(done: seq<T>, x: T, rest: seq<T>)
    ensures done + ([x] + rest) == (done + [x]) + rest
  {}

  // ----- Printed texts are C strings -----

  lemma {:induction false} EscapeNoNul(s: string)
    requires '\0' !in s
    ensures '\0' !in Escape(s)
  {
    if s != "" {
      EscapeNoNul(s[1..]);
    }
  }

  lemma {:induction false} DecimalNoNul(n: nat)
    ensures '\0' !in Decimal(n)
  {
    if n >= 10 {
      DecimalNoNul(n / 10);
    }
  }

  lemma {:induction false} JoinItemsNoNul(entries: seq<string>, fmt: bool)
    requires forall i | 0 <= i < |entries| :: '\0' !in entries[i]
    ensures '\0' !in JoinItems(entries, fmt)
  {
    if |entries| > 1 {
      JoinItemsNoNul(entries[1..], fmt);
    }
  }

  lemma {:induction false} JoinMembersNoNul(names: seq<string>, entries: seq<string>, depth: nat, fmt: bool)
    requires |names| == |entries|
    requires forall i | 0 <= i < |entries| :: '\0' !in names[i] && '\0' !in entries[i]
    ensures '\0' !in JoinMembers(names, entries, depth, fmt)
  {
    if |entries| > 0 {
      JoinMembersNoNul(names[1..], entries[1..], depth, fmt);
    }
  }

  lemma {:induction false} PrintedNoNul(v: Json, depth: nat, fmt: bool)
    requires Printable(v)
    ensures '\0' !in PrintValue(v, depth, fmt)
    decreases v, 1
  {
    match v
    case Null =>
    case False =>
    case True =>
    case Number(n) => DecimalNoNul(if n < 0 then -n else n);
    case String(s) => EscapeNoNul(s);
    case Array(items) =>
      ItemsNoNul(items, depth + 1, fmt);
      JoinItemsNoNul(PrintItems(items, depth + 1, fmt), fmt);
    case Object(ms) =>
      MembersNoNul(ms, depth + 1, fmt);
      JoinMembersNoNul(PrintNames(ms), PrintMembers(ms, depth + 1, fmt), depth + 1, fmt);
  }

  lemma {:induction false} ItemsNoNul(items: seq<Json>, depth: nat, fmt: bool)
    requires forall i | 0 <= i < |items| :: Printable(items[i])
    ensures forall i | 0 <= i < |items| :: '\0' !in PrintItems(items, depth, fmt)[i]
    decreases items, 0
  {
    if items != [] {
      PrintedNoNul(items[0], depth, fmt);
      ItemsNoNul(items[1..], depth, fmt);
    }
  }

  lemma {:induction false} MembersNoNul(ms: seq<Member>, depth: nat, fmt: bool)
    requires forall i | 0 <= i < |ms| :: '\0' !in ms[i].name && Printable(ms[i].value)
    ensures forall i | 0 <= i < |ms| :: '\0' !in PrintMembers(ms, depth, fmt)[i] && '\0' !in PrintNames(ms)[i]
    decreases ms, 0
  {
    if ms != [] {
      PrintedNoNul(ms[0].value, depth, fmt);
      EscapeNoNul(ms[0].name);
      MembersNoNul(ms[1..], depth, fmt);
    }
  }
}
