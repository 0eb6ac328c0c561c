/**
  A dumped configuration, read again.
  */
module ConfigRoundTrip {
  import opened Collections
  import opened LpConfigText
  import opened ConfigDump

  // ----- What the lines of a dump mean to the parser -----

  lemma FindAt(s: string, c: char, k: nat)
    requires k < |s| && s[k] == c && forall j | 0 <= j < k :: s[j] != c
    ensures Find(s, c) == k
  {}

  lemma CommentMeaning(line: string)
    requires line != [] && line[0] == '#'
    ensures Meaning(line + "\n") == Nothing
  {}

  lemma BlankMeaning()
    ensures Meaning("" + "\n") == Nothing
  {
    assert "" + "\n" == "\n";
    assert IsComment("\n") == false;
    assert !StartsSection("\n");
  }

  /** A name that scanf reads as one word. */
  predicate IsName(name: string)
  {
    name != [] && forall c | c in name :: !IsSpace(c)
  }

  lemma {:induction false} WholeWord(s: string)
    requires forall c | c in s :: !IsSpace(c)
    ensures UpToSpace(s) == s
  {
    if s != [] {
      WholeWord(s[1..]);
    }
  }

  lemma NameIsWord(name: string)
    requires IsName(name)
    ensures Word(name) == name
  {
    assert name[0] in name;
    WholeWord(name);
  }

  lemma HeaderMeaning(name: string)
    requires IsName(name) && ']' !in name
    ensures Meaning("[" + name + "]" + "\n") == Header(name)
  {
    var s := "[" + name + "]" + "\n";
    FindAt(s, '[', 0);
    FindAt(s, ']', |name| + 1);
    assert s[1..|name| + 1] == name;
    assert s[0..] == s;
    NameIsWord(name);
  }

  predicate IsKey(name: string)
  {
    IsName(name) && '=' !in name && name[0] != '#' && name[0] != '['
  }

  lemma ValueMeaning(value: string)
    requires '\n' !in value
    ensures ValueOf(value + "\n") == if value == "" then None else Some(Strip(value))
  {
    var rest := value + "\n";
    FindAt(rest, '\n', |value|);
    assert rest[..|value|] == value;
  }

  lemma KeyMeaning(name: string, rest: string)
    requires IsKey(name)
    ensures Meaning(name + "=" + rest) ==
            var v := ValueOf(rest); if v.None? then Nothing else Pair(name, v.value)
  {
    var s := name + "=" + rest;
    assert name[0] in name && s[0] == name[0] && s[0] != ' ';
    assert SkipBlanks(s) == s;
    assert !StartsSection(s);
    FindAt(s, '=', |name|);
    assert s[..|name|] == name && s[|name| + 1..] == rest;
    NameIsWord(name);
  }

  lemma PairMeaning(name: string, value: string)
    requires IsKey(name) && '\n' !in value
    ensures Meaning(name + "=" + value + "\n") ==
            if value == "" then Nothing else Pair(name, Strip(value))
  {
    ValueMeaning(value);
    KeyMeaning(name, value + "\n");
    assert name + "=" + value + "\n" == name + "=" + (value + "\n");
  }

  // ----- Reading the text is reading its lines -----

  lemma {:induction false} TakeBoth(p: Parser, a: seq<string>, b: seq<string>)
    requires p.Valid()
    ensures TakeLines(p, a + b) == TakeLines(TakeLines(p, a), b)
    decreases |b|
  {
    if b == [] {
      assert a + b == a;
    } else {
      assert (a + b)[..|a + b| - 1] == a + b[..|b| - 1];
      TakeBoth(p, a, b[..|b| - 1]);
    }
  }

  lemma TakeOne(p: Parser, line: string)
    requires p.Valid()
    ensures TakeLines(p, [line]) == Take(p, Meaning(line + "\n"))
  {
    assert [line][..0] == [];
  }

  lemma FirstChunk(line: string, rest: string)
    requires Plain(line)
    ensures var s := line + "\n" + rest;
            Chunk(s) == |line| + 1 && Cut(s[..Chunk(s)]) == line + "\n" && s[Chunk(s)..] == rest
  {
    var s := line + "\n" + rest;
    FindAt(s, '\n', |line|);
    assert s[..|line| + 1] == line + "\n";
    assert Find(line + "\n", '\0') == |line| + 1;
  }

  lemma {:induction false} TextTaken(p: Parser, lines: seq<string>)
    requires p.Valid() && forall l | l in lines :: Plain(l)
    ensures TakeText(p, Text(lines)) == TakeLines(p, lines)
    decreases |lines|
  {
    if lines != [] {
      var q := Take(p, Meaning(lines[0] + "\n"));
      FirstChunk(lines[0], Text(lines[1..]));
      TextTaken(q, lines[1..]);
      TakeOne(p, lines[0]);
      TakeBoth(p, [lines[0]], lines[1..]);
      assert [lines[0]] + lines[1..] == lines;
    }
  }

  lemma {:induction false} Ignored(p: Parser, lines: seq<string>)
    requires p.Valid() && forall l | l in lines :: Meaning(l + "\n") == Nothing
    ensures TakeLines(p, lines) == p
    decreases |lines|
  {
    if lines != [] {
      Ignored(p, lines[..|lines| - 1]);
      assert lines[|lines| - 1] in lines;
    }
  }

  // ----- Documentation is skipped -----

  lemma {:induction false} RenderedAre(prefix: string, ls: seq<HelpLine>, line: string)
    requires prefix != [] && prefix[0] == '#' && line in RenderAll(prefix, ls)
    ensures line != [] && line[0] == '#'
  {
    if line != Render(prefix, ls[0]) {
      RenderedAre(prefix, ls[1..], line);
    }
  }

  /** Whatever the documentation is, the parser takes every line of it for a comment. */
  lemma HelpIsComment(prefix: string, help: string, line: string)
    requires prefix != [] && prefix[0] == '#' && line in HelpTexts(prefix, help)
    ensures IsComment(line + "\n") && Meaning(line + "\n") == Nothing
  {
    RenderedAre(prefix, HelpLines(help), line);
    CommentMeaning(line);
  }

  lemma HelpSkipped(p: Parser, prefix: string, help: string)
    requires p.Valid() && prefix != [] && prefix[0] == '#'
    ensures TakeLines(p, HelpTexts(prefix, help)) == p
  {
    forall l | l in HelpTexts(prefix, help)
      ensures Meaning(l + "\n") == Nothing
    {
      HelpIsComment(prefix, help, l);
    }
    Ignored(p, HelpTexts(prefix, help));
  }

  lemma BannerSkipped(p: Parser, help: string)
    requires p.Valid()
    ensures TakeLines(p, Banner(help)) == p
  {
    CommentMeaning("##");
    TakeOne(p, "##");
    HelpSkipped(p, "##", help);
    TakeBoth(p, ["##"], HelpTexts("##", help) + ["##"]);
    TakeBoth(p, HelpTexts("##", help), ["##"]);
  }

  // ----- An entry -----

  /** The entry is written as an assignment that the parser will see. */
  predicate Kept(mode: Mode, e: Entry)
  {
    e.exportable && !e.deprecated && !Commented(mode, e) && e.Current() != ""
  }

  function ItemOf(mode: Mode, e: Entry): seq<Item>
  {
    if Kept(mode, e) then [Item(e.name, Strip(e.Current()))] else []
  }

  /** A parser that has just read an assignment for each of the items. */
  function TakeItems(p: Parser, items: seq<Item>): (r: Parser)
    requires p.Valid()
    ensures r.Valid()
  {
    if items == [] then p
    else Take(TakeItems(p, items[..|items| - 1]), Pair(items[|items| - 1].key, items[|items| - 1].value))
  }

  lemma AssignmentTaken(p: Parser, mode: Mode, e: Entry)
    requires p.Valid() && IsKey(e.name) && '\n' !in e.Current() && e.exportable && !e.deprecated
    ensures TakeLines(p, [Assignment(mode, e), ""]) == TakeItems(p, ItemOf(mode, e))
  {
    var line := Assignment(mode, e);
    if Commented(mode, e) {
      CommentMeaning(line);
    } else {
      PairMeaning(e.name, e.Current());
    }
    BlankMeaning();
    TakeOne(p, line);
    TakeOne(TakeLines(p, [line]), "");
    TakeBoth(p, [line], [""]);
    assert [line] + [""] == [line, ""];
  }

  lemma EntryTaken(p: Parser, mode: Mode, e: Entry)
    requires p.Valid() && IsKey(e.name) && '\n' !in e.Current()
    ensures TakeLines(p, EntryLines(mode, e)) == TakeItems(p, ItemOf(mode, e))
  {
    if e.exportable && !e.deprecated {
      var a, b := HelpTexts("#", e.help), ["# Default: " + e.byDefault];
      var c, d := UnitLines(e.unit), [Assignment(mode, e), ""];
      HelpSkipped(p, "#", e.help);
      forall l | l in b + c
        ensures Meaning(l + "\n") == Nothing
      {
        CommentMeaning(l);
      }
      Ignored(p, b);
      Ignored(p, c);
      AssignmentTaken(p, mode, e);
      TakeBoth(p, c, d);
      TakeBoth(p, b, c + d);
      TakeBoth(p, a, b + (c + d));
    }
  }

  // ----- The entries of a section -----

  function Items(mode: Mode, es: seq<Entry>): seq<Item>
  {
    if es == [] then [] else Items(mode, es[..|es| - 1]) + ItemOf(mode, es[|es| - 1])
  }

  /** No two entries have the same name, whatever the case. */
  ghost predicate DistinctKeys(es: seq<Entry>)
  {
    forall i, j | 0 <= i < j < |es| :: !Same(es[i].name, es[j].name)
  }

  lemma {:induction false} ItemFrom(mode: Mode, es: seq<Entry>, i: nat)
    requires i < |Items(mode, es)|
    ensures exists k :: 0 <= k < |es| && Kept(mode, es[k]) &&
                        Items(mode, es)[i] == Item(es[k].name, Strip(es[k].Current()))
  {
    var n := |es| - 1;
    if i < |Items(mode, es[..n])| {
      ItemFrom(mode, es[..n], i);
      var k :| 0 <= k < n && Kept(mode, es[..n][k]) &&
               Items(mode, es[..n])[i] == Item(es[..n][k].name, Strip(es[..n][k].Current()));
      assert es[..n][k] == es[k];
    } else {
      assert Kept(mode, es[n]);
    }
  }

  lemma {:induction false} EntriesTaken(p: Parser, mode: Mode, ss: seq<Section>, name: string, es: seq<Entry>)
    requires p == Parser(ss + [Section(name, [])], Some(|ss|)) && DistinctKeys(es)
    requires forall e | e in es :: IsKey(e.name) && '\n' !in e.Current()
    ensures TakeLines(p, EntriesLines(mode, es)) == Parser(ss + [Section(name, Items(mode, es))], Some(|ss|))
    decreases |es|
  {
    if es != [] {
      var n := |es| - 1;
      var e, items := es[n], Items(mode, es[..n]);
      EntriesTaken(p, mode, ss, name, es[..n]);
      TakeBoth(p, EntriesLines(mode, es[..n]), EntryLines(mode, e));
      var q := Parser(ss + [Section(name, items)], Some(|ss|));
      EntryTaken(q, mode, e);
      NewKey(mode, es);
      ItemTaken(q, ss, name, items, mode, e);
    }
  }

  lemma NewKey(mode: Mode, es: seq<Entry>)
    requires es != [] && DistinctKeys(es)
    ensures FindItem(Items(mode, es[..|es| - 1]), es[|es| - 1].name) == |Items(mode, es[..|es| - 1])|
  {
    var n := |es| - 1;
    var i := FindItem(Items(mode, es[..n]), es[n].name);
    if i < |Items(mode, es[..n])| {
      ItemFrom(mode, es[..n], i);
    }
  }

  lemma ItemTaken(q: Parser, ss: seq<Section>, name: string, items: seq<Item>, mode: Mode, e: Entry)
    requires q == Parser(ss + [Section(name, items)], Some(|ss|)) && FindItem(items, e.name) == |items|
    ensures TakeItems(q, ItemOf(mode, e)) == Parser(ss + [Section(name, items + ItemOf(mode, e))], Some(|ss|))
  {
    if Kept(mode, e) {
      var item := Item(e.name, Strip(e.Current()));
      assert [item][..0] == [];
      assert TakeItems(q, [item]) == Take(q, Pair(item.key, item.value));
      assert (ss + [Section(name, items)])[|ss| := Section(name, items + [item])] ==
             ss + [Section(name, items + [item])];
    } else {
      assert items + [] == items;
    }
  }

  // ----- All sections -----

  function Sections(mode: Mode, ss: seq<Struct>): seq<Section>
  {
    if ss == [] then []
    else
      var s := ss[|ss| - 1];
      Sections(mode, ss[..|ss| - 1]) + if s.dumped then [Section(s.name, Items(mode, s.entries))] else []
  }

  ghost predicate DistinctNames(ss: seq<Struct>)
  {
    forall i, j | 0 <= i < j < |ss| :: !Same(ss[i].name, ss[j].name)
  }

  ghost predicate WellFormed(s: Struct)
  {
    && IsName(s.name) && ']' !in s.name && DistinctKeys(s.entries)
    && forall e | e in s.entries :: IsKey(e.name) && '\n' !in e.Current()
  }

  lemma {:induction false} SectionFrom(mode: Mode, ss: seq<Struct>, i: nat)
    requires i < |Sections(mode, ss)|
    ensures exists k :: 0 <= k < |ss| && ss[k].dumped &&
                        Sections(mode, ss)[i] == Section(ss[k].name, Items(mode, ss[k].entries))
  {
    var n := |ss| - 1;
    if i < |Sections(mode, ss[..n])| {
      SectionFrom(mode, ss[..n], i);
      var k :| 0 <= k < n && ss[..n][k].dumped &&
               Sections(mode, ss[..n])[i] == Section(ss[..n][k].name, Items(mode, ss[..n][k].entries));
      assert ss[..n][k] == ss[k];
    } else {
      assert ss[n].dumped;
    }
  }

  lemma NewName(mode: Mode, ss: seq<Struct>)
    requires ss != [] && DistinctNames(ss)
    ensures FindSection(Sections(mode, ss[..|ss| - 1]), ss[|ss| - 1].name) == |Sections(mode, ss[..|ss| - 1])|
  {
    var n := |ss| - 1;
    var i := FindSection(Sections(mode, ss[..n]), ss[n].name);
    if i < |Sections(mode, ss[..n])| {
      SectionFrom(mode, ss[..n], i);
    }
  }

  lemma HeadTaken(p: Parser, s: Struct)
    requires p.Parser? && p.Valid() && WellFormed(s) && FindSection(p.sections, s.name) == |p.sections|
    ensures TakeLines(p, HeadLines(s)) == Parser(p.sections + [Section(s.name, [])], Some(|p.sections|))
  {
    var a, b, c := ["", "", "", "", ""], Banner(s.help), ["[" + s.name + "]", ""];
    BlankMeaning();
    Ignored(p, a);
    BannerSkipped(p, s.help);
    NameTaken(p, s.name);
    TakeBoth(p, b, c);
    TakeBoth(p, a, b + c);
  }

  lemma NameTaken(p: Parser, name: string)
    requires p.Valid() && IsName(name) && ']' !in name
    ensures TakeLines(p, ["[" + name + "]", ""]) == Take(p, Header(name))
  {
    var line := "[" + name + "]";
    HeaderMeaning(name);
    BlankMeaning();
    TakeOne(p, line);
    TakeOne(TakeLines(p, [line]), "");
    TakeBoth(p, [line], [""]);
    assert [line] + [""] == [line, ""];
  }

  lemma {:induction false} StructsTaken(p: Parser, mode: Mode, ss: seq<Struct>)
    requires p == Parser([], None) && DistinctNames(ss) && forall s | s in ss :: WellFormed(s)
    ensures var q := TakeLines(p, StructsLines(mode, ss)); q.Parser? && q.sections == Sections(mode, ss)
    decreases |ss|
  {
    if ss != [] {
      var n := |ss| - 1;
      var s := ss[n];
      assert s in ss;
      StructsTaken(p, mode, ss[..n]);
      TakeBoth(p, StructsLines(mode, ss[..n]), StructLines(mode, s));
      if s.dumped {
        var q := TakeLines(p, StructsLines(mode, ss[..n]));
        NewName(mode, ss);
        HeadTaken(q, s);
        TakeBoth(q, HeadLines(s), EntriesLines(mode, s.entries));
        EntriesTaken(TakeLines(q, HeadLines(s)), mode, q.sections, s.name, s.entries);
      }
    }
  }

  // ----- Looking values up -----

  lemma SameBack(a: string, b: string)
    ensures Same(a, b) == Same(b, a)
  {}

  lemma {:induction false} ItemFound(mode: Mode, es: seq<Entry>, j: nat)
    requires j < |es| && DistinctKeys(es)
    ensures var i := FindItem(Items(mode, es), es[j].name);
            if Kept(mode, es[j])
            then i < |Items(mode, es)| && Items(mode, es)[i] == Item(es[j].name, Strip(es[j].Current()))
            else i == |Items(mode, es)|
  {
    var items := Items(mode, es);
    var i := FindItem(items, es[j].name);
    if i < |items| {
      ItemFrom(mode, es, i);
      var k :| 0 <= k < |es| && Kept(mode, es[k]) && items[i] == Item(es[k].name, Strip(es[k].Current()));
      assert Same(es[j].name, es[j].name) && Same(es[k].name, es[j].name);
      SameBack(es[j].name, es[k].name);
      assert k == j;
    } else if Kept(mode, es[j]) {
      ItemPresent(mode, es, j);
    }
  }

  lemma {:induction false} ItemPresent(mode: Mode, es: seq<Entry>, j: nat)
    requires j < |es| && Kept(mode, es[j])
    ensures Item(es[j].name, Strip(es[j].Current())) in Items(mode, es)
  {
    var n := |es| - 1;
    if j < n {
      ItemPresent(mode, es[..n], j);
    }
  }

  lemma {:induction false} SectionPresent(mode: Mode, ss: seq<Struct>, j: nat)
    requires j < |ss| && ss[j].dumped
    ensures Section(ss[j].name, Items(mode, ss[j].entries)) in Sections(mode, ss)
  {
    var n := |ss| - 1;
    if j < n {
      SectionPresent(mode, ss[..n], j);
    }
  }

  lemma SectionFound(mode: Mode, ss: seq<Struct>, j: nat)
    requires j < |ss| && DistinctNames(ss)
    ensures var i := FindSection(Sections(mode, ss), ss[j].name);
            if ss[j].dumped
            then i < |Sections(mode, ss)| && Sections(mode, ss)[i] == Section(ss[j].name, Items(mode, ss[j].entries))
            else i == |Sections(mode, ss)|
  {
    var secs := Sections(mode, ss);
    var i := FindSection(secs, ss[j].name);
    if i < |secs| {
      SectionFrom(mode, ss, i);
      var k :| 0 <= k < |ss| && ss[k].dumped && secs[i] == Section(ss[k].name, Items(mode, ss[k].entries));
      SameBack(ss[j].name, ss[k].name);
      assert k == j;
    } else if ss[j].dumped {
      SectionPresent(mode, ss, j);
    }
  }

  lemma Looked(mode: Mode, ss: seq<Struct>, i: nat, j: nat)
    requires DistinctNames(ss) && i < |ss| && j < |ss[i].entries| && DistinctKeys(ss[i].entries)
    ensures var s, e := ss[i], ss[i].entries[j];
            GetString(Sections(mode, ss), s.name, e.name) ==
            if s.dumped && Kept(mode, e) then Some(SkipBlanks(Strip(e.Current()))) else None
  {
    SectionFound(mode, ss, i);
    ItemFound(mode, ss[i].entries, j);
  }

  // ----- The round trip -----

  predicate Clean(s: string)
  {
    '\n' !in s && '\0' !in s
  }

  predicate CleanEntry(e: Entry)
  {
    Clean(e.name) && Clean(e.Current()) && Clean(e.byDefault) && Clean(e.unit) && '\0' !in e.help
  }

  ghost predicate CleanStruct(s: Struct)
  {
    WellFormed(s) && Clean(s.name) && '\0' !in s.help && forall e | e in s.entries :: CleanEntry(e)
  }

  /** Names are words and differ by more than case, only documentation has newlines, and no line is too long. */
  ghost predicate Dumpable(mode: Mode, root: Root)
  {
    && '\0' !in root.help && DistinctNames(root.structs) && (forall s | s in root.structs :: CleanStruct(s))
    && forall l | l in DumpLines(mode, root) :: |l| + 1 < MAX_LEN
  }

  lemma {:induction false} RenderedFrom(prefix: string, ls: seq<HelpLine>, line: string) returns (l: HelpLine)
    requires line in RenderAll(prefix, ls)
    ensures l in ls && line == Render(prefix, l)
  {
    if line == Render(prefix, ls[0]) {
      l := ls[0];
    } else {
      l := RenderedFrom(prefix, ls[1..], line);
    }
  }

  lemma HelpClean(prefix: string, help: string, line: string)
    requires Clean(prefix) && '\0' !in help && line in HelpTexts(prefix, help)
    ensures Clean(line)
  {
    var l := RenderedFrom(prefix, HelpLines(help), line);
    HelpPreserved(help);
    HelpChars(help, 0, 0, true, false, false);
  }

  lemma BannerClean(help: string, line: string)
    requires '\0' !in help && line in Banner(help)
    ensures Clean(line)
  {
    if line in HelpTexts("##", help) {
      HelpClean("##", help, line);
    }
  }

  lemma InOneOf(a: seq<string>, b: seq<string>, c: seq<string>, d: seq<string>, line: string)
    requires line in a + (b + (c + d))
    ensures line in a || line in b || line in c || line in d
  {}

  lemma EntryClean(mode: Mode, e: Entry, line: string)
    requires CleanEntry(e) && line in EntryLines(mode, e)
    ensures Clean(line)
  {
    var a, b := HelpTexts("#", e.help), ["# Default: " + e.byDefault];
    var c, d := UnitLines(e.unit), [Assignment(mode, e), ""];
    InOneOf(a, b, c, d, line);
    if line in a {
      HelpClean("#", e.help, line);
    } else if line in b {
      CleanBoth("# Default: ", e.byDefault);
    } else if line in c {
      CleanBoth("# Default unit: ", e.unit);
    } else {
      AssignmentClean(mode, e);
    }
  }

  lemma CleanBoth(a: string, b: string)
    ensures Clean(a + b) <==> Clean(a) && Clean(b)
  {
    assert forall c :: c in a + b <==> c in a || c in b;
  }

  lemma AssignmentClean(mode: Mode, e: Entry)
    requires CleanEntry(e)
    ensures Clean(Assignment(mode, e))
  {
    CleanBoth("#", e.name);
    CleanBoth("#" + e.name, "=");
    CleanBoth("#" + e.name + "=", e.byDefault);
    CleanBoth(e.name, "=");
    CleanBoth(e.name + "=", e.Current());
  }

  lemma {:induction false} EntriesClean(mode: Mode, es: seq<Entry>, line: string)
    requires (forall e | e in es :: CleanEntry(e)) && line in EntriesLines(mode, es)
    ensures Clean(line)
    decreases |es|
  {
    var n := |es| - 1;
    if line in EntriesLines(mode, es[..n]) {
      EntriesClean(mode, es[..n], line);
    } else {
      assert es[n] in es;
      EntryClean(mode, es[n], line);
    }
  }

  lemma StructClean(mode: Mode, s: Struct, line: string)
    requires CleanStruct(s) && line in StructLines(mode, s)
    ensures Clean(line)
  {
    if line in EntriesLines(mode, s.entries) {
      EntriesClean(mode, s.entries, line);
    } else if line in Banner(s.help) {
      BannerClean(s.help, line);
    }
  }

  lemma {:induction false} StructsClean(mode: Mode, ss: seq<Struct>, line: string)
    requires (forall s | s in ss :: CleanStruct(s)) && line in StructsLines(mode, ss)
    ensures Clean(line)
    decreases |ss|
  {
    var n := |ss| - 1;
    if line in StructsLines(mode, ss[..n]) {
      StructsClean(mode, ss[..n], line);
    } else {
      assert ss[n] in ss;
      StructClean(mode, ss[n], line);
    }
  }

  /** Reading a dumped configuration finds no error, and finds for each entry what the dump has kept of it. */
  lemma DumpRead(mode: Mode, root: Root, i: nat, j: nat)
    requires Dumpable(mode, root) && i < |root.structs| && j < |root.structs[i].entries|
    ensures var p := TakeText(Parser([], None), Text(DumpLines(mode, root)));
            var s, e := root.structs[i], root.structs[i].entries[j];
            && p.Parser?
            && GetString(p.sections, s.name, e.name) ==
               if s.dumped && Kept(mode, e) then Some(SkipBlanks(Strip(e.Current()))) else None
  {
    var p, ss := Parser([], None), root.structs;
    var head, rest := Banner(root.help), StructsLines(mode, ss);
    forall l | l in DumpLines(mode, root)
      ensures Plain(l)
    {
      if l in head {
        BannerClean(root.help, l);
      } else {
        StructsClean(mode, ss, l);
      }
    }
    TextTaken(p, DumpLines(mode, root));
    TakeBoth(p, head, rest);
    BannerSkipped(p, root.help);
    StructsTaken(p, mode, ss);
    assert ss[i] in ss;
    Looked(mode, ss, i, j);
  }

  // ----- Setting the values -----

  predicate IsBoolean(v: string)
  {
    v == "true" || v == "false" || v == "1" || v == "0"
  }

  /** Reading one entry: the value found, if it suits the type, or else the default. */
  function ReadEntry(sections: seq<Section>, section: string, e: Entry): Option<Entry>
  {
    var v := GetString(sections, section, e.name);
    if v.None? then Some(e.(value := e.byDefault, isDefault := true))
    else if e.boolean && !IsBoolean(v.value) then None
    else Some(e.(value := v.value, isDefault := false))
  }

  predicate Typed(e: Entry)
  {
    e.boolean ==> IsBoolean(e.Current())
  }

  lemma {:induction false} StripKeeps(s: string)
    ensures if |s| <= 1 || s[|s| - 1] != ' ' then Strip(s) == s else |Strip(s)| < |s|
  {
    if |s| > 1 && s[|s| - 1] == ' ' {
      StripKeeps(s[..|s| - 1]);
    }
  }

  lemma {:induction false} SkipKeeps(s: string)
    ensures if s == "" || s[0] != ' ' then SkipBlanks(s) == s else |SkipBlanks(s)| < |s|
  {
    if s != "" && s[0] == ' ' {
      SkipKeeps(s[1..]);
    }
  }

  predicate NoOuterBlank(v: string)
  {
    v != "" && v[0] != ' ' && v[|v| - 1] != ' '
  }

  /** A value comes back from the file exactly when it neither starts nor ends with a blank. */
  lemma ValueBack(v: string)
    requires v != ""
    ensures SkipBlanks(Strip(v)) == v <==> NoOuterBlank(v)
  {
    var t := Strip(v);
    StripKeeps(v);
    SkipKeeps(t);
    if t != v {
      assert |SkipBlanks(t)| < |v|;
    }
  }

  lemma EntryBack(sections: seq<Section>, mode: Mode, s: Struct, e: Entry)
    requires Typed(e)
    requires GetString(sections, s.name, e.name) ==
             if s.dumped && Kept(mode, e) then Some(SkipBlanks(Strip(e.Current()))) else None
    ensures var r := ReadEntry(sections, s.name, e);
            && r.Some?
            && (r.value.value == e.Current() <==>
                if s.dumped && Kept(mode, e) then NoOuterBlank(e.Current()) else e.Current() == e.byDefault)
            && (!s.dumped || !Kept(mode, e) ==> r.value.value == e.byDefault && r.value.isDefault)
  {
    if Kept(mode, e) {
      ValueBack(e.Current());
    }
  }

  /** A dumped configuration can be read again, and each entry gets the value that it had if and only if
      - it was written and its value neither starts nor ends with a blank, or
      - it was not written, or its value is empty, and its value is the default.
      An entry that was not written, or was written with an empty value, gets its default.  So a value set by an old
      name, which is deprecated and not written, is lost where entries at their default are commented out. */
  lemma DumpReload(mode: Mode, root: Root, i: nat, j: nat)
    requires Dumpable(mode, root) && i < |root.structs| && j < |root.structs[i].entries|
    requires Typed(root.structs[i].entries[j])
    ensures var p := TakeText(Parser([], None), Text(DumpLines(mode, root)));
            var s, e := root.structs[i], root.structs[i].entries[j];
            && p.Parser?
            && var r := ReadEntry(p.sections, s.name, e);
               && r.Some?
               && (r.value.value == e.Current() <==>
                   if s.dumped && Kept(mode, e) then NoOuterBlank(e.Current()) else e.Current() == e.byDefault)
               && (!s.dumped || !Kept(mode, e) ==> r.value.value == e.byDefault && r.value.isDefault)
  {
    DumpRead(mode, root, i, j);
    EntryBack(TakeText(Parser([], None), Text(DumpLines(mode, root))).sections, mode, root.structs[i],
              root.structs[i].entries[j]);
  }

  /** The same, mode by mode.  Written is, in a section that is dumped, an entry that is exported and not
      deprecated: always in the first mode, never in the second, and unless it has its default in the third.  An
      entry reads back as it was if it was written, or else as its default. */
  lemma ReloadByMode(mode: Mode, root: Root, i: nat, j: nat, v: string)
    requires Dumpable(mode, root) && i < |root.structs| && j < |root.structs[i].entries|
    requires var e := root.structs[i].entries[j];
             Typed(e) && v == if e.isDefault && e.oldName.Some? then e.oldName.value else e.value
    ensures var p := TakeText(Parser([], None), Text(DumpLines(mode, root)));
            var s, e := root.structs[i], root.structs[i].entries[j];
            var written := s.dumped && e.exportable && !e.deprecated && v != "" &&
                           (mode == CurrentValue || (mode == DefaultIfUnset && !e.isDefault));
            && p.Parser?
            && (written && NoOuterBlank(v) ==>
                  ReadEntry(p.sections, s.name, e) == Some(e.(value := v, isDefault := false)))
            && (!written ==> ReadEntry(p.sections, s.name, e) == Some(e.(value := e.byDefault, isDefault := true)))
  {
    DumpRead(mode, root, i, j);
    var p := TakeText(Parser([], None), Text(DumpLines(mode, root)));
    EntryByMode(p.sections, mode, root.structs[i], root.structs[i].entries[j], v);
  }

  lemma EntryByMode(sections: seq<Section>, mode: Mode, s: Struct, e: Entry, v: string)
    requires Typed(e) && v == if e.isDefault && e.oldName.Some? then e.oldName.value else e.value
    requires GetString(sections, s.name, e.name) ==
             if s.dumped && Kept(mode, e) then Some(SkipBlanks(Strip(e.Current()))) else None
    ensures var written := s.dumped && e.exportable && !e.deprecated && v != "" &&
                           (mode == CurrentValue || (mode == DefaultIfUnset && !e.isDefault));
            && (written && NoOuterBlank(v) ==>
                  ReadEntry(sections, s.name, e) == Some(e.(value := v, isDefault := false)))
            && (!written ==> ReadEntry(sections, s.name, e) == Some(e.(value := e.byDefault, isDefault := true)))
  {
    if v != "" {
      ValueBack(v);
    }
  }

  /** The lines that are written for an entry stand together in the dump: its documentation, its default, its unit
      if it has one, and its setting or the commented default. */
  lemma EntryShown(mode: Mode, root: Root, i: nat, j: nat) returns (before: seq<string>, after: seq<string>)
    requires i < |root.structs| && j < |root.structs[i].entries|
    requires root.structs[i].dumped && root.structs[i].entries[j].exportable && !root.structs[i].entries[j].deprecated
    ensures var e := root.structs[i].entries[j];
            DumpLines(mode, root) ==
            before +
            (HelpTexts("#", e.help) + ["# Default: " + e.byDefault] +
             (if e.unit == "" then [] else ["# Default unit: " + e.unit]) +
             [if mode == CurrentValue || (mode == DefaultIfUnset && !e.isDefault) then e.name + "=" + e.Current()
              else "#" + e.name + "=" + e.byDefault] +
             [""]) +
            after
  {
    var s := root.structs[i];
    var a, b := EntryWithin(mode, s.entries, j);
    var c, d := StructWithin(mode, root.structs, i);
    before := Banner(root.help) + (c + (HeadLines(s) + a));
    after := b + d;
    var block := EntryLines(mode, s.entries[j]);
    Nested(Banner(root.help), c, HeadLines(s), a, block, b, d);
    EntryBlock(mode, s.entries[j]);
  }

  /** The dump begins with the documentation of the whole; the lines of a section that is dumped stand together: five
      empty ones, its documentation, its name in brackets, an empty one, and those of its entries in order. */
  lemma SectionShown(mode: Mode, root: Root, i: nat) returns (before: seq<string>, after: seq<string>)
    requires i < |root.structs| && root.structs[i].dumped
    ensures var s := root.structs[i];
            DumpLines(mode, root) ==
            (["##"] + HelpTexts("##", root.help) + ["##"]) +
            (before +
             (["", "", "", "", ""] + (["##"] + HelpTexts("##", s.help) + ["##"]) + ["[" + s.name + "]", ""] +
              EntriesLines(mode, s.entries)) +
             after)
  {
    before, after := StructWithin(mode, root.structs, i);
    BannerBlock(root.help);
    BannerBlock(root.structs[i].help);
    Assoc(["", "", "", "", ""], Banner(root.structs[i].help), ["[" + root.structs[i].name + "]", ""]);
  }

  lemma BannerBlock(help: string)
    ensures Banner(help) == ["##"] + HelpTexts("##", help) + ["##"]
  {
    Assoc(["##"], HelpTexts("##", help), ["##"]);
  }

  lemma EntryBlock(mode: Mode, e: Entry)
    requires e.exportable && !e.deprecated
    ensures EntryLines(mode, e) ==
            HelpTexts("#", e.help) + ["# Default: " + e.byDefault] +
            (if e.unit == "" then [] else ["# Default unit: " + e.unit]) +
            [if mode == CurrentValue || (mode == DefaultIfUnset && !e.isDefault) then e.name + "=" + e.Current()
             else "#" + e.name + "=" + e.byDefault] +
            [""]
  {}

  lemma Nested<T>(a: seq<T>, c: seq<T>, h: seq<T>, e: seq<T>, x: seq<T>, b: seq<T>, d: seq<T>)
    ensures a + (c + (h + (e + x + b)) + d) == (a + (c + (h + e))) + x + (b + d)
  {}

  lemma {:induction false} EntryWithin(mode: Mode, es: seq<Entry>, j: nat) returns (a: seq<string>, b: seq<string>)
    requires j < |es|
    ensures EntriesLines(mode, es) == a + EntryLines(mode, es[j]) + b
    decreases |es|
  {
    var n := |es| - 1;
    if j == n {
      a, b := EntriesLines(mode, es[..n]), [];
      assert a + EntryLines(mode, es[j]) + [] == a + EntryLines(mode, es[j]);
    } else {
      var more;
      a, more := EntryWithin(mode, es[..n], j);
      Assoc(a + EntryLines(mode, es[j]), more, EntryLines(mode, es[n]));
      b := more + EntryLines(mode, es[n]);
    }
  }

  lemma {:induction false} StructWithin(mode: Mode, ss: seq<Struct>, i: nat) returns (a: seq<string>, b: seq<string>)
    requires i < |ss| && ss[i].dumped
    ensures StructsLines(mode, ss) == a + (HeadLines(ss[i]) + EntriesLines(mode, ss[i].entries)) + b
    decreases |ss|
  {
    var n := |ss| - 1;
    if i == n {
      a, b := StructsLines(mode, ss[..n]), [];
      assert a + StructLines(mode, ss[i]) + [] == a + StructLines(mode, ss[i]);
    } else {
      var more;
      a, more := StructWithin(mode, ss[..n], i);
      Assoc(a + StructLines(mode, ss[i]), more, StructLines(mode, ss[n]));
      b := more + StructLines(mode, ss[n]);
    }
  }

  /** A value that is set by an old name only is lost when entries at their default are commented out. */
  lemma OldNameLost(root: Root, i: nat, j: nat)
    requires Dumpable(DefaultIfUnset, root) && i < |root.structs| && j < |root.structs[i].entries|
    requires var e := root.structs[i].entries[j];
             Typed(e) && e.isDefault && e.oldName.Some? && e.oldName.value != e.byDefault
    ensures var p := TakeText(Parser([], None), Text(DumpLines(DefaultIfUnset, root)));
            var s, e := root.structs[i], root.structs[i].entries[j];
            && p.Parser? && ReadEntry(p.sections, s.name, e) == Some(e.(value := e.byDefault))
            && e.Current() != e.byDefault
  {
    DumpRead(DefaultIfUnset, root, i, j);
  }

  /** One section with one such entry. */
  function OldNameRoot(section: string, key: string, byDefault: string, old': string): Root
  {
    var e := Entry(key, "", byDefault, "", false, true, false, byDefault, true, Some(old'));
    Root("", [Struct(section, "", true, [e])])
  }

  lemma NoHelp(prefix: string)
    ensures HelpTexts(prefix, "") == [prefix + " " + ""]
  {
    assert ""[0..] == "";
    var l := HelpLine(false, "", '\n');
    assert HelpLines("") == [l];
    assert RenderAll(prefix, [l]) == [Render(prefix, l)];
  }

  lemma OldNameLines(root: Root, section: string, key: string, byDefault: string, old': string, line: string)
    requires root == OldNameRoot(section, key, byDefault, old')
    requires line in DumpLines(DefaultIfUnset, root)
    ensures |line| <= 12 + |section| + |key| + |byDefault|
  {
    var s := root.structs[0];
    var e := s.entries[0];
    NoHelp("#");
    NoHelp("##");
    assert root.structs[..0] == [] && s.entries[..0] == [];
    assert StructsLines(DefaultIfUnset, root.structs) == [] + StructLines(DefaultIfUnset, s);
    assert EntriesLines(DefaultIfUnset, s.entries) == [] + EntryLines(DefaultIfUnset, e);
  }

  lemma OldNameDumpable(root: Root, section: string, key: string, byDefault: string, old': string)
    requires root == OldNameRoot(section, key, byDefault, old')
    requires IsName(section) && ']' !in section && Clean(section) && IsKey(key) && Clean(key)
    requires Clean(byDefault) && Clean(old') && |section| + |key| + |byDefault| + 13 < MAX_LEN
    ensures Dumpable(DefaultIfUnset, root)
  {
    forall line | line in DumpLines(DefaultIfUnset, root)
      ensures |line| + 1 < MAX_LEN
    {
      OldNameLines(root, section, key, byDefault, old', line);
    }
    assert CleanStruct(root.structs[0]);
  }

  /** It happens: a value given by an old name is not the one that is read. */
  lemma OldNameExample(root: Root, section: string, key: string, byDefault: string, old': string)
    requires root == OldNameRoot(section, key, byDefault, old') && byDefault != old'
    requires IsName(section) && ']' !in section && Clean(section) && IsKey(key) && Clean(key)
    requires Clean(byDefault) && Clean(old') && |section| + |key| + |byDefault| + 13 < MAX_LEN
    ensures var p := TakeText(Parser([], None), Text(DumpLines(DefaultIfUnset, root)));
            var e := root.structs[0].entries[0];
            && e.Current() == old' && p.Parser?
            && ReadEntry(p.sections, section, e) == Some(e.(value := byDefault)) && byDefault != old'
  {
    OldNameDumpable(root, section, key, byDefault, old');
    OldNameLost(root, 0, 0);
  }

  // ----- Why lines must be short -----

  /** A word of documentation that fills the parser's buffer: what comes after it is read as a setting. */
  lemma LongHelpIsRead(p: Parser, w: string, key: string, value: string)
    requires p.Valid() && |w| == MAX_LEN - 3 && Clean(w) && ' ' !in w
    requires IsKey(key) && value != "" && Plain(key + "=" + value) && ' ' !in value
    ensures var help := w + (key + "=" + value);
            && HelpTexts("#", help) == ["# " + help]
            && TakeText(p, Text(HelpTexts("#", help))) == Take(p, Pair(key, value))
  {
    var setting := key + "=" + value;
    var help, line := w + setting, "# " + w;
    CleanBoth(key + "=", value);
    CleanBoth(key, "=");
    NoBlank(w, key, value);
    LongWord(help, 0, true);
    assert "#" + " " + help == "# " + help;
    assert RenderAll("#", HelpLines(help)) == ["# " + help];
    TextOne("# " + help);
    assert "# " + help + "\n" == line + (setting + "\n");
    FullBuffer(p, line, setting + "\n");
    SettingRead(p, key, value);
  }

  lemma NoBlank(w: string, key: string, value: string)
    requires Clean(w) && ' ' !in w && IsKey(key) && Clean(value) && ' ' !in value
    ensures '\n' !in w + (key + "=" + value) && ' ' !in w + (key + "=" + value)
  {
    assert IsSpace(' ') && IsSpace('\n');
  }

  /** The parser reads a full buffer first. */
  lemma FullBuffer(p: Parser, line: string, rest: string)
    requires p.Valid() && |line| == MAX_LEN - 1 && Clean(line) && line[0] == '#' && rest != ""
    ensures TakeText(p, line + rest) == TakeText(p, rest)
  {
    assert Find(line + rest, '\n') >= MAX_LEN - 1;
    assert (line + rest)[..MAX_LEN - 1] == line && (line + rest)[MAX_LEN - 1..] == rest;
    assert Find(line, '\0') == |line|;
    assert SkipBlanks(line) == line;
  }

  lemma SettingRead(p: Parser, key: string, value: string)
    requires p.Valid() && IsKey(key) && value != "" && Plain(key + "=" + value) && ' ' !in value
    ensures TakeText(p, key + "=" + value + "\n") == Take(p, Pair(key, value))
  {
    var setting := key + "=" + value;
    CleanBoth(key + "=", value);
    assert setting + "\n" + "" == setting + "\n";
    FirstChunk(setting, "");
    PairMeaning(key, value);
    StripKeeps(value);
  }

  lemma {:induction false} LongWord(help: string, it: nat, starts: bool)
    requires it <= |help| && '\n' !in help && ' ' !in help
    ensures HelpFrom(help, it, 0, starts, false, false) == [HelpLine(false, help, '\n')]
    decreases |help| - it
  {
    if it == |help| {
      assert help[0..] == help;
    } else {
      LongWord(help, it + 1, false);
    }
  }
}
