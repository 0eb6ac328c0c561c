/**
  The configuration file format: what a line of it means to the parser, and what a whole file means.
  */
module LpConfigText {
  import opened Collections

  const MAX_LEN := 20480

  // ----- Characters and words -----

  predicate IsSpace(c: char)
  {
    c == ' ' || c == '\t' || c == '\n' || c == '\r' || c == '\U{0b}' || c == '\U{0c}'
  }

  function Lower(c: char): char
  {
    if 'A' <= c <= 'Z' then (c as int + 32) as char else c
  }

  /** strcasecmp finds no difference. */
  predicate Same(a: string, b: string)
  {
    |a| == |b| && forall i | 0 <= i < |a| :: Lower(a[i]) == Lower(b[i])
  }

  /** The first position of the character, or the length. */
  function Find(s: string, c: char): (k: nat)
    ensures k <= |s| && (forall j | 0 <= j < k :: s[j] != c) && (k < |s| ==> s[k] == c)
  {
    if s == [] || s[0] == c then 0 else 1 + Find(s[1..], c)
  }

  function SkipBlanks(s: string): string
  {
    if s != [] && s[0] == ' ' then SkipBlanks(s[1..]) else s
  }

  function SkipSpaces(s: string): string
  {
    if s != [] && IsSpace(s[0]) then SkipSpaces(s[1..]) else s
  }

  function UpToSpace(s: string): string
  {
    if s == [] || IsSpace(s[0]) then [] else [s[0]] + UpToSpace(s[1..])
  }

  /** What scanf reads for "%s", empty if there is nothing to read. */
  function Word(s: string): string
  {
    UpToSpace(SkipSpaces(s))
  }

  /** Blanks at the end are dropped, but the first character stays whatever it is. */
  function Strip(s: string): string
  {
    if |s| > 1 && s[|s| - 1] == ' ' then Strip(s[..|s| - 1]) else s
  }

  // ----- A line -----

  datatype Line = Nothing | Header(name: string) | Pair(key: string, value: string)

  predicate IsComment(s: string)
  {
    var t := SkipBlanks(s); t != [] && t[0] == '#'
  }

  /** The text after the equals sign.  A line that ends without a newline keeps its blanks, and may be empty. */
  function ValueOf(s: string): Option<string>
  {
    var k := Find(s, '\n');
    if k == |s| then Some(s) else if k == 0 then None else Some(Strip(s[..k]))
  }

  function PairOf(s: string): Line
  {
    var k := Find(s, '=');
    if k == |s| || Word(s[..k]) == [] then Nothing
    else
      var v := ValueOf(s[k + 1..]);
      if v.None? then Nothing else Pair(Word(s[..k]), v.value)
  }

  /** The text between the brackets, if the line has a closing one. */
  function HeaderOf(s: string): Line
    requires s != [] && s[0] == '['
  {
    var k := Find(s, ']');
    if k == |s| || Word(s[1..k]) == [] then Nothing else Header(Word(s[1..k]))
  }

  predicate StartsSection(s: string)
  {
    var k := Find(s, '['); k < |s| && forall j | 0 <= j < k :: s[j] == ' '
  }

  function Meaning(s: string): Line
  {
    if IsComment(s) then Nothing
    else if StartsSection(s) then HeaderOf(s[Find(s, '[')..])
    else PairOf(s)
  }

  // ----- A file -----

  datatype Item = Item(key: string, value: string)
  datatype Section = Section(name: string, items: seq<Item>)

  /** The sections read so far and the one that items go to. */
  datatype Parser = Parser(sections: seq<Section>, cur: Option<nat>) | Duplicate(key: string) {
    predicate Valid()
    {
      Parser? && cur.Some? ==> cur.value < |sections|
    }
  }

  function FindSection(ss: seq<Section>, name: string): (k: nat)
    ensures k <= |ss| && (forall j | 0 <= j < k :: !Same(ss[j].name, name)) && (k < |ss| ==> Same(ss[k].name, name))
  {
    if ss == [] || Same(ss[0].name, name) then 0 else 1 + FindSection(ss[1..], name)
  }

  function FindItem(items: seq<Item>, key: string): (k: nat)
    ensures k <= |items| && (forall j | 0 <= j < k :: !Same(items[j].key, key))
    ensures k < |items| ==> Same(items[k].key, key)
  {
    if items == [] || Same(items[0].key, key) then 0 else 1 + FindItem(items[1..], key)
  }

  /** What a line does to the parser.  A key that the section has already is an error. */
  function Take(p: Parser, line: Line): (r: Parser)
    requires p.Valid()
    ensures r.Valid()
  {
    if p.Duplicate? then p
    else
      match line
      case Nothing => p
      case Header(name) =>
        var k := FindSection(p.sections, name);
        if k < |p.sections| then p.(cur := Some(k))
        else Parser(p.sections + [Section(name, [])], Some(k))
      case Pair(key, value) =>
        if p.cur.None? then p
        else
          var sec := p.sections[p.cur.value];
          if FindItem(sec.items, key) < |sec.items| then Duplicate(key)
          else p.(sections := p.sections[p.cur.value := sec.(items := sec.items + [Item(key, value)])])
  }

  /** What fgets stores: up to a newline, which is included, and no more than the buffer holds. */
  function Chunk(s: string): (k: nat)
    requires s != []
    ensures 0 < k <= |s| && k < MAX_LEN
  {
    var k := Find(s, '\n');
    if k < |s| && k + 1 < MAX_LEN then k + 1 else if |s| < MAX_LEN then |s| else MAX_LEN - 1
  }

  /** The text of the buffer, as a C string. */
  function Cut(s: string): string
  {
    s[..Find(s, '\0')]
  }

  function TakeText(p: Parser, s: string): (r: Parser)
    requires p.Valid()
    ensures r.Valid()
    decreases |s|
  {
    if s == [] then p else TakeText(Take(p, Meaning(Cut(s[..Chunk(s)]))), s[Chunk(s)..])
  }

  function GetString(ss: seq<Section>, section: string, key: string): Option<string>
  {
    var k := FindSection(ss, section);
    if k == |ss| then None
    else
      var i := FindItem(ss[k].items, key);
      if i == |ss[k].items| then None else Some(SkipBlanks(ss[k].items[i].value))
  }

  // ----- The lines of a file that is written line by line -----

  /** Each line is followed by a newline. */
  function Text(lines: seq<string>): string
  {
    if lines == [] then [] else lines[0] + "\n" + Text(lines[1..])
  }

  predicate Plain(line: string)
  {
    |line| + 1 < MAX_LEN && '\n' !in line && '\0' !in line
  }

  function TakeLines(p: Parser, lines: seq<string>): (r: Parser)
    requires p.Valid()
    ensures r.Valid()
    decreases |lines|
  {
    if lines == [] then p
    else Take(TakeLines(p, lines[..|lines| - 1]), Meaning(lines[|lines| - 1] + "\n"))
  }
}
