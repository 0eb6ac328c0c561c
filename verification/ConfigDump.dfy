/**
  Writing the configuration: sections and their values, with their documentation as comments.
  */
module ConfigDump {
  import opened Collections
  import opened LpConfigText

  datatype Mode = CurrentValue | DefaultValue | DefaultIfUnset

  /** A configuration value.  `oldName` is what a deprecated name of it is set to, if it has one and that is set. */
  datatype Entry = Entry(name: string, help: string, byDefault: string, unit: string, boolean: bool, exportable: bool,
                         deprecated: bool, value: string, isDefault: bool, oldName: Option<string>) {
    function Current(): string { if isDefault && oldName.Some? then oldName.value else value }
  }

  /** A section.  `dumped` says that it is exportable and that its module is wanted. */
  datatype Struct = Struct(name: string, help: string, dumped: bool, entries: seq<Entry>)

  datatype Root = Root(help: string, structs: seq<Struct>)

  const LINE_WIDTH := 60

  // ----- Documentation, cut into lines -----

  /** A line of documentation: with an indentation or not, its text, and the character it was cut at. */
  datatype HelpLine = HelpLine(pad: bool, text: string, sep: char)

  predicate IsBullet(help: string, it: nat)
    requires it <= |help|
  {
    it + 3 <= |help| && (help[it..it + 3] == " - " || help[it..it + 3] == " * ")
  }

  predicate IsCut(help: string, it: nat, begin: nat)
    requires begin <= it < |help|
  {
    (it - begin > LINE_WIDTH && help[it] == ' ') || help[it] == '\n'
  }

  /** The lines from `begin` on, when the characters before `it` have been looked at. */
  function HelpFrom(help: string, it: nat, begin: nat, starts: bool, within: bool, first: bool): (ls: seq<HelpLine>)
    requires begin <= it <= |help|
    ensures ls != []
    decreases |help| - it
  {
    if it == |help| then [HelpLine(within && !first, help[begin..], '\n')]
    else
      var w := if starts then IsBullet(help, it) else within;
      var f := first || (starts && IsBullet(help, it));
      if IsCut(help, it, begin) then
        [HelpLine(w && !f, help[begin..it], help[it])] +
        HelpFrom(help, it + 1, it + 1, help[it] == '\n', w, false)
      else HelpFrom(help, it + 1, begin, false, w, f)
  }

  function HelpLines(help: string): seq<HelpLine>
  {
    HelpFrom(help, 0, 0, true, false, false)
  }

  function Render(prefix: string, l: HelpLine): string
  {
    prefix + (if l.pad then "    " else " ") + l.text
  }

  function RenderAll(prefix: string, ls: seq<HelpLine>): seq<string>
  {
    if ls == [] then [] else [Render(prefix, ls[0])] + RenderAll(prefix, ls[1..])
  }

  /** The lines put together again, each followed by the character it was cut at, except the last. */
  function Glue(ls: seq<HelpLine>): string
    requires ls != []
  {
    if |ls| == 1 then ls[0].text else ls[0].text + [ls[0].sep] + Glue(ls[1..])
  }

  ghost predicate WellCut(ls: seq<HelpLine>)
  {
    forall k | 0 <= k < |ls| ::
      '\n' !in ls[k].text && (ls[k].sep == '\n' || (ls[k].sep == ' ' && |ls[k].text| > LINE_WIDTH))
  }

  lemma GlueMore(l: HelpLine, ls: seq<HelpLine>)
    requires ls != []
    ensures Glue([l] + ls) == l.text + [l.sep] + Glue(ls)
  {
    assert ([l] + ls)[1..] == ls;
  }

  lemma CutApart(s: string, begin: nat, it: nat)
    requires begin <= it < |s|
    ensures s[begin..] == s[begin..it] + [s[it]] + s[it + 1..]
  {}

  lemma {:induction false} HelpGlued(help: string, it: nat, begin: nat, starts: bool, within: bool, first: bool)
    requires begin <= it <= |help|
    ensures Glue(HelpFrom(help, it, begin, starts, within, first)) == help[begin..]
    decreases |help| - it
  {
    if it < |help| {
      var w := if starts then IsBullet(help, it) else within;
      var f := first || (starts && IsBullet(help, it));
      if IsCut(help, it, begin) {
        var rest := HelpFrom(help, it + 1, it + 1, help[it] == '\n', w, false);
        HelpGlued(help, it + 1, it + 1, help[it] == '\n', w, false);
        GlueMore(HelpLine(w && !f, help[begin..it], help[it]), rest);
        CutApart(help, begin, it);
      } else {
        HelpGlued(help, it + 1, begin, false, w, f);
      }
    }
  }

  lemma {:induction false} HelpCut(help: string, it: nat, begin: nat, starts: bool, within: bool, first: bool)
    requires begin <= it <= |help| && forall j | begin <= j < it :: help[j] != '\n'
    ensures WellCut(HelpFrom(help, it, begin, starts, within, first))
    decreases |help| - it
  {
    if it < |help| {
      var w := if starts then IsBullet(help, it) else within;
      var f := first || (starts && IsBullet(help, it));
      if IsCut(help, it, begin) {
        HelpCut(help, it + 1, it + 1, help[it] == '\n', w, false);
      } else {
        HelpCut(help, it + 1, begin, false, w, f);
      }
    }
  }

  lemma {:induction false} HelpChars(help: string, it: nat, begin: nat, starts: bool, within: bool, first: bool)
    requires begin <= it <= |help|
    ensures forall l, c | l in HelpFrom(help, it, begin, starts, within, first) && c in l.text :: c in help
    decreases |help| - it
  {
    if it < |help| {
      var w := if starts then IsBullet(help, it) else within;
      var f := first || (starts && IsBullet(help, it));
      if IsCut(help, it, begin) {
        HelpChars(help, it + 1, it + 1, help[it] == '\n', w, false);
      } else {
        HelpChars(help, it + 1, begin, false, w, f);
      }
    }
  }

  /** Whatever the documentation is, its lines put together again give it back, no line has a newline in it, and a
      line is only cut at a newline or, past the line width, at a blank. */
  lemma HelpPreserved(help: string)
    ensures Glue(HelpLines(help)) == help && WellCut(HelpLines(help))
  {
    HelpGlued(help, 0, 0, true, false, false);
    HelpCut(help, 0, 0, true, false, false);
  }

  /** No line goes on past a blank that is more than sixty characters in. */
  ghost predicate Short(ls: seq<HelpLine>)
  {
    forall k, m | 0 <= k < |ls| && 60 < m < |ls[k].text| :: ls[k].text[m] != ' '
  }

  lemma {:induction false} HelpShort(help: string, it: nat, begin: nat, starts: bool, within: bool, first: bool)
    requires begin <= it <= |help| && forall j | begin + 60 < j < it :: help[j] != ' '
    ensures Short(HelpFrom(help, it, begin, starts, within, first))
    decreases |help| - it
  {
    if it < |help| {
      var w := if starts then IsBullet(help, it) else within;
      var f := first || (starts && IsBullet(help, it));
      if IsCut(help, it, begin) {
        HelpShort(help, it + 1, it + 1, help[it] == '\n', w, false);
      } else {
        HelpShort(help, it + 1, begin, false, w, f);
      }
    }
  }

  /** Whatever the documentation is, a line is cut at the first blank past the line width. */
  lemma LinesAreShort(help: string)
    ensures Short(HelpLines(help))
  {
    HelpShort(help, 0, 0, true, false, false);
  }

  // Which lines are indented

  predicate IsBulletLine(text: string)
  {
    |text| >= 3 && (text[..3] == " - " || text[..3] == " * ")
  }

  /** The first line begins a paragraph or goes on with one, which then is a bullet or not; each line is indented
      when it goes on with a bullet. */
  predicate Indented(ls: seq<HelpLine>, begins: bool, within: bool)
    requires ls != []
    decreases |ls|
  {
    var l := ls[0];
    var bullet := if !begins || (|ls| == 1 && l.text == "") then within else IsBulletLine(l.text);
    && l.pad == (bullet && !(begins && IsBulletLine(l.text)))
    && (|ls| > 1 ==> Indented(ls[1..], l.sep == '\n', bullet))
  }

  lemma BulletLineIs(help: string, begin: nat, it: nat)
    requires begin < it <= |help| && (it < |help| ==> IsCut(help, it, begin))
    ensures IsBulletLine(help[begin..it]) <==> IsBullet(help, begin)
  {
    if IsBullet(help, begin) {
      assert help[begin] == help[begin..begin + 3][0] && help[begin + 1] == help[begin..begin + 3][1];
      assert help[begin + 2] == help[begin..begin + 3][2];
      assert begin + 3 <= it;
    }
    if begin + 3 <= it {
      assert help[begin..it][..3] == help[begin..begin + 3];
    }
  }

  /** The flags of the loop: `begun` says that the line begins a paragraph, `prev` that the paragraph before is a
      bullet. */
  predicate Flags(help: string, it: nat, begin: nat, starts: bool, within: bool, first: bool, begun: bool, prev: bool)
    requires begin <= it <= |help|
  {
    if starts then it == begin && begun && !first && prev == within
    else if begun then it > begin && within == IsBullet(help, begin) && first == within
    else !first && within == prev
  }

  lemma {:induction false} HelpIndented(help: string, it: nat, begin: nat, starts: bool, within: bool, first: bool,
                                        begun: bool, prev: bool)
    requires begin <= it <= |help| && Flags(help, it, begin, starts, within, first, begun, prev)
    ensures Indented(HelpFrom(help, it, begin, starts, within, first), begun, prev)
    decreases |help| - it
  {
    if begin < it && (it < |help| ==> IsCut(help, it, begin)) {
      BulletLineIs(help, begin, it);
    }
    if it < |help| {
      var w := if starts then IsBullet(help, it) else within;
      var f := first || (starts && IsBullet(help, it));
      if IsCut(help, it, begin) {
        var newline := help[it] == '\n';
        HelpIndented(help, it + 1, it + 1, newline, w, false, newline, w);
        var rest := HelpFrom(help, it + 1, it + 1, newline, w, false);
        var ls := [HelpLine(w && !f, help[begin..it], help[it])] + rest;
        assert ls[1..] == rest;
      } else {
        HelpIndented(help, it + 1, begin, false, w, f, begun, prev);
      }
    }
  }

  /** The line begins a paragraph. */
  predicate Starts(ls: seq<HelpLine>, k: nat)
    requires k <= |ls|
  {
    k == 0 || ls[k - 1].sep == '\n'
  }

  /** The line belongs to a paragraph that begins with a bullet. */
  ghost predicate InBullet(ls: seq<HelpLine>, k: nat)
    requires k < |ls|
  {
    exists p: nat | p <= k :: BulletFrom(ls, p, k)
  }

  ghost predicate BulletFrom(ls: seq<HelpLine>, p: nat, k: nat)
    requires p <= k < |ls|
  {
    Starts(ls, p) && IsBulletLine(ls[p].text) && forall m | p <= m < k :: ls[m].sep != '\n'
  }

  lemma InBulletStep(ls: seq<HelpLine>, k: nat)
    requires k < |ls|
    ensures InBullet(ls, k) <==> if Starts(ls, k) then IsBulletLine(ls[k].text) else InBullet(ls, k - 1)
  {
    if InBullet(ls, k) {
      var p: nat :| p <= k && BulletFrom(ls, p, k);
      assert p < k ==> BulletFrom(ls, p, k - 1);
    }
    if Starts(ls, k) && IsBulletLine(ls[k].text) {
      assert BulletFrom(ls, k, k);
    }
    if !Starts(ls, k) && InBullet(ls, k - 1) {
      var p: nat :| p <= k - 1 && BulletFrom(ls, p, k - 1);
      assert BulletFrom(ls, p, k);
    }
  }

  lemma {:induction false} IndentedAt(ls: seq<HelpLine>, k: nat)
    requires k < |ls| && Indented(ls, true, false)
    ensures Indented(ls[k..], Starts(ls, k), k > 0 && InBullet(ls, k - 1))
  {
    if k == 0 {
      assert ls[0..] == ls;
    } else {
      IndentedAt(ls, k - 1);
      InBulletStep(ls, k - 1);
      assert ls[k - 1..][1..] == ls[k..];
    }
  }

  /** Whatever the documentation is, exactly those lines are indented that go on with a bullet; and the last one,
      if it is empty and follows a bullet. */
  lemma IndentedExactly(help: string, k: nat)
    requires k < |HelpLines(help)|
    ensures var ls := HelpLines(help);
            ls[k].pad <==>
            || (!Starts(ls, k) && InBullet(ls, k))
            || (Starts(ls, k) && k == |ls| - 1 && ls[k].text == "" && k > 0 && InBullet(ls, k - 1))
  {
    var ls := HelpLines(help);
    HelpIndented(help, 0, 0, true, false, false, true, false);
    IndentedAt(ls, k);
    InBulletStep(ls, k);
  }

  // ----- The lines of a dump -----

  function HelpTexts(prefix: string, help: string): seq<string>
  {
    RenderAll(prefix, HelpLines(help))
  }

  predicate Commented(mode: Mode, e: Entry)
  {
    mode.DefaultValue? || (mode.DefaultIfUnset? && e.isDefault)
  }

  function Assignment(mode: Mode, e: Entry): string
  {
    if Commented(mode, e) then "#" + e.name + "=" + e.byDefault else e.name + "=" + e.Current()
  }

  function UnitLines(unit: string): seq<string>
  {
    if unit == "" then [] else ["# Default unit: " + unit]
  }

  function EntryLines(mode: Mode, e: Entry): seq<string>
  {
    if !e.exportable || e.deprecated then []
    else HelpTexts("#", e.help) + (["# Default: " + e.byDefault] + (UnitLines(e.unit) + [Assignment(mode, e), ""]))
  }

  function EntriesLines(mode: Mode, es: seq<Entry>): seq<string>
  {
    if es == [] then [] else EntriesLines(mode, es[..|es| - 1]) + EntryLines(mode, es[|es| - 1])
  }

  function Banner(help: string): seq<string>
  {
    ["##"] + (HelpTexts("##", help) + ["##"])
  }

  function HeadLines(s: Struct): seq<string>
  {
    ["", "", "", "", ""] + (Banner(s.help) + ["[" + s.name + "]", ""])
  }

  function StructLines(mode: Mode, s: Struct): seq<string>
  {
    if s.dumped then HeadLines(s) + EntriesLines(mode, s.entries) else []
  }

  function StructsLines(mode: Mode, ss: seq<Struct>): seq<string>
  {
    if ss == [] then [] else StructsLines(mode, ss[..|ss| - 1]) + StructLines(mode, ss[|ss| - 1])
  }

  function DumpLines(mode: Mode, root: Root): seq<string>
  {
    Banner(root.help) + StructsLines(mode, root.structs)
  }

  lemma {:induction false} TextBoth(a: seq<string>, b: seq<string>)
    ensures Text(a + b) == Text(a) + Text(b)
  {
    if a == [] {
      assert a + b == b;
    } else {
      assert (a + b)[1..] == a[1..] + b;
      TextBoth(a[1..], b);
    }
  }

  lemma TextOne(line: string)
    ensures Text([line]) == line + "\n"
  {
    assert [line][1..] == [];
  }

  // ----- The dumper -----

  class FileConfigDumper {
    var os: string
    const mDumpMode: Mode

    constructor (mode: Mode)
      ensures os == "" && mDumpMode == mode
    {
      os, mDumpMode := "", mode;
    }

    method Put(line: string)
      modifies this
      ensures os == old(os) + Text([line])
    {
      TextOne(line);
      os := os + (line + "\n");
    }

    method PrintHelp(help: string, prefix: string)
      modifies this
      ensures os == old(os) + Text(HelpTexts(prefix, help))
    {
      ghost var all := os + Text(HelpTexts(prefix, help));
      var it, begin := 0, 0;
      var lineStarts, isWithinBullet, isBulletFirstLine := true, false, false;
      while it < |help|
        invariant begin <= it <= |help|
        invariant os + HelpRest(prefix, help, it, begin, lineStarts, isWithinBullet, isBulletFirstLine) == all
      {
        RestStep(prefix, help, it, begin, lineStarts, isWithinBullet, isBulletFirstLine);
        if lineStarts {
          if IsBullet(help, it) {
            isWithinBullet, isBulletFirstLine := true, true;
          } else {
            isWithinBullet := false;
          }
          lineStarts := false;
        }
        if IsCut(help, it, begin) {
          var line := HelpLine(isWithinBullet && !isBulletFirstLine, help[begin..it], help[it]);
          ghost var rest := HelpRest(prefix, help, it + 1, it + 1, help[it] == '\n', isWithinBullet, false);
          Assoc(os, Text([Render(prefix, line)]), rest);
          isBulletFirstLine := false;
          Put(Render(prefix, line));
          begin := it + 1;
        }
        if help[it] == '\n' {
          lineStarts, isBulletFirstLine := true, false;
        }
        it := it + 1;
      }
      var line := HelpLine(isWithinBullet && !isBulletFirstLine, help[begin..], '\n');
      assert RenderAll(prefix, [line]) == [Render(prefix, line)];
      Put(Render(prefix, line));
    }

    method DumpModuleValue(e: Entry)
      modifies this
      ensures os == old(os) + Text(EntryLines(mDumpMode, e))
    {
      if !e.exportable || e.deprecated {
        return;
      }
      ghost var start, a, b := os, HelpTexts("#", e.help), ["# Default: " + e.byDefault];
      PrintHelp(e.help, "#");
      Put("# Default: " + e.byDefault);
      Grow(start, a, b);
      DumpUnit(e.unit);
      Grow(start, a + b, UnitLines(e.unit));
      DumpAssignment(e);
      Grow(start, a + b + UnitLines(e.unit), [Assignment(mDumpMode, e), ""]);
      Assoc(a + b, UnitLines(e.unit), [Assignment(mDumpMode, e), ""]);
      Assoc(a, b, UnitLines(e.unit) + [Assignment(mDumpMode, e), ""]);
    }

    method DumpUnit(unit: string)
      modifies this
      ensures os == old(os) + Text(UnitLines(unit))
    {
      if unit != "" {
        Put("# Default unit: " + unit);
      }
    }

    method DumpAssignment(e: Entry)
      modifies this
      ensures os == old(os) + Text([Assignment(mDumpMode, e), ""])
    {
      ghost var start := os;
      if mDumpMode.DefaultValue? || (mDumpMode.DefaultIfUnset? && e.isDefault) {
        Put("#" + e.name + "=" + e.byDefault);
      } else {
        Put(e.name + "=" + e.Current());
      }
      Put("");
      Grow(start, [Assignment(mDumpMode, e)], [""]);
      assert [Assignment(mDumpMode, e)] + [""] == [Assignment(mDumpMode, e), ""];
    }

    method DumpBanner(help: string)
      modifies this
      ensures os == old(os) + Text(Banner(help))
    {
      ghost var start, a, b := os, ["##"], HelpTexts("##", help);
      Put("##");
      PrintHelp(help, "##");
      Grow(start, a, b);
      Put("##");
      Grow(start, a + b, ["##"]);
      Assoc(a, b, ["##"]);
    }

    method DumpModuleHead(s: Struct)
      modifies this
      ensures os == old(os) + Text(HeadLines(s))
    {
      ghost var start, a, b := os, ["", "", "", "", ""], Banner(s.help);
      os := os + "\n\n\n\n\n";
      BlankText();
      DumpBanner(s.help);
      Grow(start, a, b);
      DumpName(s.name);
      Grow(start, a + b, ["[" + s.name + "]", ""]);
      Assoc(a, b, ["[" + s.name + "]", ""]);
    }

    method DumpName(name: string)
      modifies this
      ensures os == old(os) + Text(["[" + name + "]", ""])
    {
      ghost var start := os;
      Put("[" + name + "]");
      Put("");
      Grow(start, ["[" + name + "]"], [""]);
      assert ["[" + name + "]"] + [""] == ["[" + name + "]", ""];
    }

    method DumpEntries(es: seq<Entry>)
      modifies this
      ensures os == old(os) + Text(EntriesLines(mDumpMode, es))
    {
      for k := 0 to |es|
        invariant os == old(os) + Text(EntriesLines(mDumpMode, es[..k]))
      {
        DumpModuleValue(es[k]);
        Grow(old(os), EntriesLines(mDumpMode, es[..k]), EntryLines(mDumpMode, es[k]));
        assert es[..k + 1][..k] == es[..k];
      }
      assert es[..|es|] == es;
    }

    method DumpStruct(s: Struct)
      modifies this
      ensures os == old(os) + Text(StructLines(mDumpMode, s))
    {
      if s.dumped {
        DumpModuleHead(s);
        DumpEntries(s.entries);
        Grow(old(os), HeadLines(s), EntriesLines(mDumpMode, s.entries));
      }
    }

    method Dump(root: Root)
      modifies this
      ensures os == old(os) + Text(DumpLines(mDumpMode, root))
    {
      DumpBanner(root.help);
      ghost var start, ss := os, root.structs;
      for k := 0 to |root.structs|
        invariant os == start + Text(StructsLines(mDumpMode, ss[..k]))
      {
        DumpStruct(root.structs[k]);
        Grow(start, StructsLines(mDumpMode, ss[..k]), StructLines(mDumpMode, ss[k]));
        assert ss[..k + 1][..k] == ss[..k];
      }
      assert ss[..|ss|] == ss;
      Grow(old(os), Banner(root.help), StructsLines(mDumpMode, ss));
    }
  }

  lemma Grow(start: string, a: seq<string>, b: seq<string>)
    ensures (start + Text(a)) + Text(b) == start + Text(a + b)
  {
    TextBoth(a, b);
    Assoc(start, Text(a), Text(b));
  }

  lemma BlankText()
    ensures Text(["", "", "", "", ""]) == "\n\n\n\n\n"
  {
    TextOne("");
    TextBoth([""], [""]);
    TextBoth(["", ""], ["", ""]);
    TextBoth(["", "", "", ""], [""]);
    assert [""] + [""] == ["", ""] && ["", ""] + ["", ""] == ["", "", "", ""];
    assert ["", "", "", ""] + [""] == ["", "", "", "", ""];
  }

  ghost function HelpRest(prefix: string, help: string, it: nat, begin: nat, starts: bool, within: bool, first: bool)
    : string
    requires begin <= it <= |help|
  {
    Text(RenderAll(prefix, HelpFrom(help, it, begin, starts, within, first)))
  }

  lemma RestStep(prefix: string, help: string, it: nat, begin: nat, starts: bool, within: bool, first: bool)
    requires begin <= it < |help|
    ensures var w := if starts then IsBullet(help, it) else within;
            var f := first || (starts && IsBullet(help, it));
            HelpRest(prefix, help, it, begin, starts, within, first) ==
            if IsCut(help, it, begin) then
              Text([Render(prefix, HelpLine(w && !f, help[begin..it], help[it]))]) +
              HelpRest(prefix, help, it + 1, it + 1, help[it] == '\n', w, false)
            else HelpRest(prefix, help, it + 1, begin, false, w, f)
  {
    if IsCut(help, it, begin) {
      var ls := HelpFrom(help, it, begin, starts, within, first);
      TextBoth([Render(prefix, ls[0])], RenderAll(prefix, ls[1..]));
    }
  }
}
