/** How a printed value looks: where its lines begin, how they are indented, and what separates them. */
module JsonLayout {
  import opened JsonText
  import opened JsonRoundTrip

  /** The parts with `sep` between every two of them. */
  function Joined(parts: seq<string>, sep: string): string
  {
    if parts == [] then ""
    else if |parts| == 1 then parts[0]
    else Joined(parts[..|parts| - 1], sep) + sep + parts[|parts| - 1]
  }

  lemma {:induction false} JoinedFirst(parts: seq<string>, sep: string)
    requires |parts| > 1
    ensures Joined(parts, sep) == parts[0] + sep + Joined(parts[1..], sep)
  {
    var last := |parts| - 1;
    if last == 1 {
      assert parts[..1] == [parts[0]] && parts[1..] == [parts[1]];
    } else {
      JoinedFirst(parts[..last], sep);
      assert parts[..last][1..] == parts[1..][..last - 1];
      assert parts[1..][last - 1] == parts[last];
    }
  }

  /** A name and the text of a value as they stand on their line. */
  function Part(name: string, entry: string, depth: nat, fmt: bool): string
  {
    (if fmt then Tabs(depth) else "") + name + (if fmt then ":\t" else ":") + entry
  }

  /** A member as it stands in the object: on a line of its own, indented by its depth, when formatted. */
  function MemberPart(m: Member, depth: nat, fmt: bool): string
  {
    Part(PrintString(m.name), PrintValue(m.value, depth, fmt), depth, fmt)
  }

  function ItemParts(items: seq<Json>, depth: nat, fmt: bool): seq<string>
  {
    seq(|items|, i requires 0 <= i < |items| => PrintValue(items[i], depth, fmt))
  }

  function MemberParts(ms: seq<Member>, depth: nat, fmt: bool): seq<string>
  {
    seq(|ms|, i requires 0 <= i < |ms| => MemberPart(ms[i], depth, fmt))
  }

  lemma {:induction false} ItemsJoined(entries: seq<string>, fmt: bool, sep: string)
    requires sep == if fmt then ", " else ","
    ensures JoinItems(entries, fmt) == Joined(entries, sep)
  {
    if |entries| > 1 {
      ItemsJoined(entries[1..], fmt, sep);
      JoinedFirst(entries, sep);
      assert entries[0] + "," + When(fmt, " ") == entries[0] + sep;
    }
  }

  lemma {:induction false} ItemsAre(items: seq<Json>, depth: nat, fmt: bool)
    ensures PrintItems(items, depth, fmt) == ItemParts(items, depth, fmt)
  {
    if items != [] {
      ItemsAre(items[1..], depth, fmt);
    }
  }

  /** An array is on one line, its items separated by a comma and, when formatted, a blank. */
  lemma ArrayLayout(items: seq<Json>, depth: nat, fmt: bool)
    ensures PrintValue(Array(items), depth, fmt) ==
            "[" + Joined(ItemParts(items, depth + 1, fmt), if fmt then ", " else ",") + "]"
  {
    ItemsJoined(PrintItems(items, depth + 1, fmt), fmt, if fmt then ", " else ",");
    ItemsAre(items, depth + 1, fmt);
  }

  lemma {:induction false} NamesAre(ms: seq<Member>, depth: nat, fmt: bool)
    ensures forall i | 0 <= i < |ms| ::
              && PrintNames(ms)[i] == PrintString(ms[i].name)
              && PrintMembers(ms, depth, fmt)[i] == PrintValue(ms[i].value, depth, fmt)
  {
    if ms != [] {
      NamesAre(ms[1..], depth, fmt);
    }
  }

  function Parts(names: seq<string>, entries: seq<string>, depth: nat, fmt: bool): (parts: seq<string>)
    requires |names| == |entries|
    ensures |parts| == |names|
  {
    seq(|names|, i requires 0 <= i < |names| => Part(names[i], entries[i], depth, fmt))
  }

  lemma PartIs(name: string, entry: string, depth: nat, fmt: bool)
    ensures When(fmt, Tabs(depth)) + name + ":" + When(fmt, "\t") + entry == Part(name, entry, depth, fmt)
  {
    assert ":" + "\t" == ":\t";
    var lead := When(fmt, Tabs(depth)) + name;
    assert (lead + ":") + When(fmt, "\t") == lead + (":" + When(fmt, "\t"));
  }

  lemma Close(a: string, b: string, c: string, d: string, e: string)
    ensures a + b + c + (d + e) == a + (b + c) + d + e
  {}

  lemma {:induction false} MembersJoined(names: seq<string>, entries: seq<string>, depth: nat, fmt: bool, end: string)
    requires |names| == |entries| > 0 && end == When(fmt, "\n")
    ensures JoinMembers(names, entries, depth, fmt) == Joined(Parts(names, entries, depth, fmt), "," + end) + end
  {
    var parts := Parts(names, entries, depth, fmt);
    PartIs(names[0], entries[0], depth, fmt);
    if |names| > 1 {
      MembersJoined(names[1..], entries[1..], depth, fmt, end);
      JoinedFirst(parts, "," + end);
      assert parts[1..] == Parts(names[1..], entries[1..], depth, fmt);
      Close(parts[0], ",", end, Joined(parts[1..], "," + end), end);
    } else {
      assert parts[0] + "" + end + "" == parts[0] + end;
    }
  }

  lemma PartsAre(ms: seq<Member>, depth: nat, fmt: bool)
    ensures Parts(PrintNames(ms), PrintMembers(ms, depth, fmt), depth, fmt) == MemberParts(ms, depth, fmt)
  {
    NamesAre(ms, depth, fmt);
  }

  lemma ObjectJoined(names: seq<string>, entries: seq<string>, depth: nat, fmt: bool, end: string)
    requires |names| == |entries| && depth > 0 && end == When(fmt, "\n")
    ensures ObjectText(names, entries, depth, fmt) ==
            "{" + end + Joined(Parts(names, entries, depth, fmt), "," + end) + When(names != [], end) +
            When(fmt, Tabs(depth - 1)) + "}"
  {
    var joined := Joined(Parts(names, entries, depth, fmt), "," + end);
    if names == [] {
      assert "{" + end + joined + "" == "{" + end + joined;
    } else {
      MembersJoined(names, entries, depth, fmt, end);
      assert "{" + end + (joined + end) == "{" + end + joined + end;
    }
  }

  /** An object has one line for each member, indented one deeper than the object, the lines separated by commas; its
      closing brace is on a line of its own, indented like the object.  Unformatted there are no blanks at all. */
  lemma ObjectLayout(ms: seq<Member>, depth: nat, fmt: bool, end: string)
    requires end == if fmt then "\n" else ""
    ensures PrintValue(Object(ms), depth, fmt) ==
            "{" + end + Joined(MemberParts(ms, depth + 1, fmt), "," + end) + (if ms == [] then "" else end) +
            (if fmt then Tabs(depth) else "") + "}"
  {
    ObjectJoined(PrintNames(ms), PrintMembers(ms, depth + 1, fmt), depth + 1, fmt, end);
    PartsAre(ms, depth + 1, fmt);
  }

  // ----- Strings -----

  const HEX := "0123456789abcdef"

  /** How a character is shown: seven of them with a letter or themselves behind a backslash, the other control
      characters by their number in four digits, and everything else as it is. */
  function Shown(c: char): string
  {
    var n := c as int;
    if n == 34 then ['\\', 34 as char] else if n == 92 then ['\\', 92 as char]
    else if n == 8 then "\\b" else if n == 12 then "\\f" else if n == 10 then "\\n" else if n == 13 then "\\r"
    else if n == 9 then "\\t"
    else if n < 32 then "\\u00" + [HEX[n / 16], HEX[n % 16]]
    else [c]
  }

  function AllShown(s: string): string
  {
    if s == "" then "" else AllShown(s[..|s| - 1]) + Shown(s[|s| - 1])
  }

  lemma HexIs(d: nat)
    requires d < 16
    ensures HexDigit(d) == HEX[d]
  {}

  lemma ShownIs(c: char)
    ensures EscapeChar(c) == Shown(c)
  {
    if c < ' ' {
      HexIs(c as nat / 16);
      HexIs(c as nat % 16);
    }
  }

  lemma {:induction false} EscapeLast(s: string, c: char)
    ensures Escape(s + [c]) == Escape(s) + EscapeChar(c)
  {
    if s == "" {
      assert s + [c] == [c];
      assert [c][1..] == "";
    } else {
      assert (s + [c])[1..] == s[1..] + [c];
      EscapeLast(s[1..], c);
    }
  }

  lemma {:induction false} EscapeIs(s: string)
    ensures Escape(s) == AllShown(s)
  {
    if s != "" {
      var before, c := s[..|s| - 1], s[|s| - 1];
      EscapeIs(before);
      ShownIs(c);
      EscapeLast(before, c);
      assert s == before + [c];
    }
  }

  /** A string is its characters so shown, in order, between quotes. */
  lemma StringLayout(s: string)
    ensures PrintString(s) == "\"" + AllShown(s) + "\""
  {
    EscapeIs(s);
  }

  /** A number has no leading zero, and a sign exactly when it is negative; the rest is words. */
  lemma WordLayout(n: int, depth: nat, fmt: bool)
    ensures PrintValue(Null, depth, fmt) == "null" && PrintValue(True, depth, fmt) == "true"
    ensures PrintValue(False, depth, fmt) == "false"
    ensures var t := PrintValue(Number(n), depth, fmt);
            && (n < 0 <==> t[0] == '-') && (t[0] == '0' <==> n == 0) && (n == 0 ==> t == "0")
  {
    DecimalFirst(if n < 0 then -n else n);
  }
}
