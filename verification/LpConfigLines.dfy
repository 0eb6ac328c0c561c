/**
  What the lines of a configuration file mean, told without the scanner: which lines are headers and settings, and what
  a lookup finds after any sequence of them.
  */
module LpConfigLines {
  import opened Collections
  import opened LpConfigText

  // ----- Words -----

  predicate AllSpace(s: string)
  {
    forall i | 0 <= i < |s| :: IsSpace(s[i])
  }

  predicate NoSpace(s: string)
  {
    forall i | 0 <= i < |s| :: !IsSpace(s[i])
  }

  /** The text begins, after white space, with the word, and white space or nothing follows it. */
  ghost predicate BeginsWith(s: string, w: string)
  {
    exists pre, post :: s == pre + w + post && Around(pre, w, post)
  }

  ghost predicate Around(pre: string, w: string, post: string)
  {
    AllSpace(pre) && w != "" && NoSpace(w) && (post == "" || IsSpace(post[0]))
  }

  lemma {:induction false} SkipsSpace(pre: string, s: string)
    requires AllSpace(pre) && (s == "" || !IsSpace(s[0]))
    ensures SkipSpaces(pre + s) == s
  {
    if pre == "" {
      assert pre + s == s;
    } else {
      assert (pre + s)[1..] == pre[1..] + s;
      SkipsSpace(pre[1..], s);
    }
  }

  lemma {:induction false} TakesWord(w: string, post: string)
    requires NoSpace(w) && (post == "" || IsSpace(post[0]))
    ensures UpToSpace(w + post) == w
  {
    if w == "" {
      assert w + post == post;
    } else {
      assert (w + post)[1..] == w[1..] + post;
      TakesWord(w[1..], post);
    }
  }

  lemma {:induction false} SpaceOf(s: string) returns (pre: string)
    ensures AllSpace(pre) && s == pre + SkipSpaces(s)
    ensures SkipSpaces(s) == "" || !IsSpace(SkipSpaces(s)[0])
  {
    if s != [] && IsSpace(s[0]) {
      var more := SpaceOf(s[1..]);
      pre := [s[0]] + more;
      assert s == [s[0]] + s[1..];
    } else {
      pre := "";
    }
  }

  lemma {:induction false} WordOf(s: string) returns (post: string)
    ensures NoSpace(UpToSpace(s)) && s == UpToSpace(s) + post && (post == "" || IsSpace(post[0]))
  {
    if s == [] || IsSpace(s[0]) {
      post := s;
    } else {
      post := WordOf(s[1..]);
      assert s == [s[0]] + s[1..];
    }
  }

  /** What scanf reads as a word. */
  lemma WordExactly(s: string, w: string)
    ensures Word(s) == w && w != "" <==> BeginsWith(s, w)
  {
    if Word(s) == w && w != "" {
      var pre := SpaceOf(s);
      var post := WordOf(SkipSpaces(s));
      assert s == pre + w + post && Around(pre, w, post);
    }
    if BeginsWith(s, w) {
      var pre, post :| s == pre + w + post && Around(pre, w, post);
      Assoc(pre, w, post);
      SkipsSpace(pre, w + post);
      TakesWord(w, post);
    }
  }

  // ----- Lines -----

  predicate Blanks(s: string)
  {
    forall i | 0 <= i < |s| :: s[i] == ' '
  }

  /** The first character that is not a blank is this one. */
  ghost predicate Opens(s: string, c: char)
  {
    exists k: nat | k < |s| :: s[k] == c && Blanks(s[..k])
  }

  lemma {:induction false} SkipsBlanks(s: string, k: nat)
    requires k < |s| && Blanks(s[..k]) && s[k] != ' '
    ensures SkipBlanks(s) == s[k..]
  {
    if k > 0 {
      assert s[0] == s[..k][0];
      assert s[1..][..k - 1] == s[..k][1..];
      SkipsBlanks(s[1..], k - 1);
    }
  }

  lemma {:induction false} BlanksOf(s: string) returns (k: nat)
    ensures k <= |s| && Blanks(s[..k]) && SkipBlanks(s) == s[k..] && (k < |s| ==> s[k] != ' ')
  {
    k := 0;
    if s != [] && s[0] == ' ' {
      var m := BlanksOf(s[1..]);
      k := m + 1;
      assert s[..k] == [s[0]] + s[1..][..m];
    }
  }

  lemma CommentExactly(s: string)
    ensures IsComment(s) <==> Opens(s, '#')
  {
    var k := BlanksOf(s);
    if k < |s| && s[k] == '#' {
      assert Opens(s, '#');
    }
    if Opens(s, '#') {
      var m: nat :| m < |s| && s[m] == '#' && Blanks(s[..m]);
      SkipsBlanks(s, m);
    }
  }

  lemma SectionExactly(s: string)
    ensures StartsSection(s) <==> Opens(s, '[')
  {
    var k := Find(s, '[');
    if StartsSection(s) {
      assert s[k] == '[' && Blanks(s[..k]);
    }
    if Opens(s, '[') {
      var m: nat :| m < |s| && s[m] == '[' && Blanks(s[..m]);
      assert forall j | 0 <= j < m :: s[j] == s[..m][j];
      assert k == m;
    }
  }

  /** The parts of the text before and after the first such character. */
  ghost predicate Parts(s: string, left: string, c: char, right: string)
  {
    s == left + [c] + right && c !in left
  }

  lemma PartsFound(s: string, left: string, c: char, right: string)
    requires Parts(s, left, c, right)
    ensures Find(s, c) == |left| < |s| && s[..|left|] == left && s[|left| + 1..] == right
  {
    assert s[|left|] == c;
    assert forall j | 0 <= j < |left| :: s[j] == left[j];
  }

  lemma FoundParts(s: string, c: char)
    requires Find(s, c) < |s|
    ensures Parts(s, s[..Find(s, c)], c, s[Find(s, c) + 1..])
  {}

  /** The line is a header of that name: blanks, an opening bracket, the name as the first word, a closing bracket. */
  ghost predicate IsHeader(s: string, name: string)
  {
    exists blanks, inner, rest :: HeaderParts(s, blanks, inner, rest) && BeginsWith(inner, name)
  }

  ghost predicate HeaderParts(s: string, blanks: string, inner: string, rest: string)
  {
    s == blanks + ("[" + inner + "]" + rest) && Blanks(blanks) && ']' !in inner
  }

  lemma HeaderFound(s: string, blanks: string, inner: string, rest: string)
    requires HeaderParts(s, blanks, inner, rest)
    ensures Find(s, '[') == |blanks| < |s|
    ensures var t := s[|blanks|..]; Find(t, ']') == 1 + |inner| < |t| && t[0] == '[' && t[1..1 + |inner|] == inner
  {
    var t := "[" + inner + "]" + rest;
    assert s[|blanks|] == '[' && s[|blanks|..] == t;
    assert forall j | 0 <= j < |blanks| :: s[j] == blanks[j];
    PartsFound(t, "[" + inner, ']', rest);
  }

  lemma NotBoth(s: string, c: char, d: char)
    requires c != d && c != ' ' && d != ' '
    ensures !(Opens(s, c) && Opens(s, d))
  {
    if Opens(s, c) && Opens(s, d) {
      var k: nat :| k < |s| && s[k] == c && Blanks(s[..k]);
      var m: nat :| m < |s| && s[m] == d && Blanks(s[..m]);
      SkipsBlanks(s, k);
      SkipsBlanks(s, m);
    }
  }

  /** A line that opens with a bracket is its header or nothing. */
  lemma SectionMeans(s: string)
    requires Opens(s, '[')
    ensures Find(s, '[') < |s| && Meaning(s) == HeaderOf(s[Find(s, '[')..]) && Blanks(s[..Find(s, '[')])
  {
    SectionExactly(s);
    NotBoth(s, '#', '[');
    CommentExactly(s);
  }

  lemma HeaderWord(t: string, name: string)
    requires t != "" && t[0] == '['
    ensures HeaderOf(t) == Header(name) <==> Find(t, ']') < |t| && BeginsWith(t[1..Find(t, ']')], name)
  {
    var k := Find(t, ']');
    if k < |t| {
      WordExactly(t[1..k], name);
    }
  }

  lemma Bracketed(t: string, k: nat)
    requires 0 < k < |t| && t[0] == '[' && t[k] == ']'
    ensures t == "[" + t[1..k] + "]" + t[k + 1..]
  {}

  lemma Rejoined(s: string, at: nat)
    requires at <= |s|
    ensures s == s[..at] + s[at..]
  {}

  lemma HeaderCut(s: string, t: string, at: nat, k: nat)
    requires at < |s| && t == s[at..] && Blanks(s[..at]) && t[0] == '[' && k == Find(t, ']') < |t|
    ensures k > 0 && HeaderParts(s, s[..at], t[1..k], t[k + 1..])
  {
    Bracketed(t, k);
    Rejoined(s, at);
  }

  lemma HeaderThere(s: string, blanks: string, inner: string, rest: string, name: string)
    requires HeaderParts(s, blanks, inner, rest) && BeginsWith(inner, name)
    ensures IsHeader(s, name)
  {}

  lemma HeaderRead(s: string, name: string)
    requires Opens(s, '[') && Meaning(s) == Header(name)
    ensures IsHeader(s, name)
  {
    SectionMeans(s);
    var at := Find(s, '[');
    var t := s[at..];
    var k := Find(t, ']');
    HeaderWord(t, name);
    HeaderCut(s, t, at, k);
    HeaderThere(s, s[..at], t[1..k], t[k + 1..], name);
  }

  lemma HeaderExactly(s: string, name: string)
    requires Opens(s, '[')
    ensures Meaning(s) == Header(name) <==> IsHeader(s, name)
  {
    if Meaning(s) == Header(name) {
      HeaderRead(s, name);
    } else if blanks, inner, rest :| HeaderParts(s, blanks, inner, rest) && BeginsWith(inner, name) {
      SectionMeans(s);
      HeaderFound(s, blanks, inner, rest);
      HeaderWord(s[|blanks|..], name);
    }
  }

  /** Trailing blanks are gone, but for a first character. */
  ghost predicate Trimmed(t: string, v: string)
  {
    exists k: nat | k <= |t| :: v == t[..k] && TrimsAt(t, k)
  }

  predicate TrimsAt(t: string, k: nat)
    requires k <= |t|
  {
    (forall i | k <= i < |t| :: t[i] == ' ') && (t != "" ==> k > 0) && (k > 1 ==> t[k - 1] != ' ')
  }

  lemma {:induction false} StripTrims(t: string) returns (k: nat)
    ensures k <= |t| && Strip(t) == t[..k] && TrimsAt(t, k)
  {
    if |t| > 1 && t[|t| - 1] == ' ' {
      var n := |t| - 1;
      k := StripTrims(t[..n]);
      assert t[..n][..k] == t[..k];
      assert forall i | 0 <= i < n :: t[i] == t[..n][i];
    } else {
      k := |t|;
      assert t[..k] == t;
    }
  }

  lemma TrimExactly(t: string, v: string)
    ensures v == Strip(t) <==> Trimmed(t, v)
  {
    var k := StripTrims(t);
    if m: nat :| m <= |t| && v == t[..m] && TrimsAt(t, m) {
      assert m == k;
    }
  }

  /** The text after the equals sign gives the value: all of it if no newline ends it, otherwise what comes before the
      newline, which must not be empty, without the blanks at its end. */
  ghost predicate IsValue(right: string, v: string)
  {
    || ('\n' !in right && v == right)
    || exists t, rest :: Parts(right, t, '\n', rest) && t != "" && Trimmed(t, v)
  }

  lemma ValueExactly(right: string, v: string)
    ensures ValueOf(right) == Some(v) <==> IsValue(right, v)
  {
    var k := Find(right, '\n');
    if k < |right| {
      FoundParts(right, '\n');
      TrimExactly(right[..k], v);
      if t, rest :| Parts(right, t, '\n', rest) && t != "" && Trimmed(t, v) {
        PartsFound(right, t, '\n', rest);
      }
    } else if t, rest :| Parts(right, t, '\n', rest) && t != "" && Trimmed(t, v) {
      PartsFound(right, t, '\n', rest);
    }
  }

  /** The line sets a key: the first word before the first equals sign, to the value after it. */
  ghost predicate IsSetting(s: string, key: string, v: string)
  {
    exists left, right :: Parts(s, left, '=', right) && BeginsWith(left, key) && IsValue(right, v)
  }

  lemma PairExactly(s: string, key: string, v: string)
    ensures PairOf(s) == Pair(key, v) <==> IsSetting(s, key, v)
  {
    var k := Find(s, '=');
    if PairOf(s) == Pair(key, v) {
      FoundParts(s, '=');
      WordExactly(s[..k], key);
      ValueExactly(s[k + 1..], v);
    }
    if left, right :| Parts(s, left, '=', right) && BeginsWith(left, key) && IsValue(right, v) {
      PartsFound(s, left, '=', right);
      WordExactly(left, key);
      ValueExactly(right, v);
    }
  }

  /** What a line means: a line that opens with `#` nothing; one that opens with a bracket a header or nothing;
      any other one a setting or nothing. */
  lemma LineExactly(s: string, name: string, key: string, v: string)
    ensures Meaning(s) == Header(name) <==> Opens(s, '[') && IsHeader(s, name)
    ensures Meaning(s) == Pair(key, v) <==> !Opens(s, '#') && !Opens(s, '[') && IsSetting(s, key, v)
  {
    CommentExactly(s);
    SectionExactly(s);
    if Opens(s, '[') {
      SectionMeans(s);
      HeaderExactly(s, name);
    } else {
      PairExactly(s, key, v);
    }
  }

  // ----- Names without regard to case -----

  const CAPITALS := "ABCDEFGHIJKLMNOPQRSTUVWXYZ"
  const SMALL := "abcdefghijklmnopqrstuvwxyz"

  /** The capital letter and the small one at the same place of the alphabet. */
  ghost predicate Letter(k: int, capital: char, small: char)
  {
    0 <= k < 26 && capital == CAPITALS[k] && small == SMALL[k]
  }

  /** The two characters are equal, or a capital letter and its small one. */
  ghost predicate Alike(a: char, b: char)
  {
    a == b || exists k :: Letter(k, a, b) || Letter(k, b, a)
  }

  lemma CapitalIs(k: nat)
    requires k < 26
    ensures CAPITALS[k] as int == 65 + k
  {}

  lemma SmallIs(k: nat)
    requires k < 26
    ensures SMALL[k] as int == 97 + k
  {}

  lemma LetterIs(k: int, capital: char, small: char)
    ensures Letter(k, capital, small) <==> 0 <= k < 26 && capital as int == 65 + k && small as int == 97 + k
  {
    if 0 <= k < 26 {
      CapitalIs(k);
      SmallIs(k);
    }
  }

  lemma LowerExactly(a: char, b: char)
    ensures Lower(a) == Lower(b) <==> Alike(a, b)
  {
    forall k
      ensures Letter(k, a, b) <==> 0 <= k < 26 && a as int == 65 + k && b as int == 97 + k
      ensures Letter(k, b, a) <==> 0 <= k < 26 && b as int == 65 + k && a as int == 97 + k
    {
      LetterIs(k, a, b);
      LetterIs(k, b, a);
    }
    assert 'A' <= a <= 'Z' && b as int == a as int + 32 ==> Letter(a as int - 65, a, b);
    assert 'A' <= b <= 'Z' && a as int == b as int + 32 ==> Letter(b as int - 65, b, a);
  }

  /** Names are the same exactly when they differ in the case of letters at most. */
  lemma SameExactly(a: string, b: string)
    ensures Same(a, b) <==> |a| == |b| && forall i | 0 <= i < |a| :: Alike(a[i], b[i])
  {
    if |a| == |b| {
      forall i | 0 <= i < |a|
        ensures Lower(a[i]) == Lower(b[i]) <==> Alike(a[i], b[i])
      {
        LowerExactly(a[i], b[i]);
      }
    }
  }

  // ----- Files -----

  /** The lines, one after another. */
  function TakeAll(lines: seq<Line>): (p: Parser)
    ensures p.Valid()
  {
    if lines == [] then Parser([], None) else Take(TakeAll(lines[..|lines| - 1]), lines[|lines| - 1])
  }

  /** The header that stands at the end of the lines. */
  function HeaderNow(lines: seq<Line>): Option<string>
  {
    if lines == [] then None
    else if lines[|lines| - 1].Header? then Some(lines[|lines| - 1].name)
    else HeaderNow(lines[..|lines| - 1])
  }

  /** Line `i` sets the key in the section. */
  ghost predicate SetsAt(lines: seq<Line>, i: nat, section: string, key: string)
  {
    && i < |lines| && lines[i].Pair? && Same(lines[i].key, key)
    && HeaderNow(lines[..i]).Some? && Same(HeaderNow(lines[..i]).value, section)
  }

  /** Some key is set twice in a section. */
  ghost predicate SetsTwice(lines: seq<Line>)
  {
    exists i: nat, j: nat | i < j < |lines| :: Again(lines, i, j)
  }

  /** Line `j` sets the key that line `i` sets, in the same section. */
  ghost predicate Again(lines: seq<Line>, i: nat, j: nat)
  {
    && j < |lines| && lines[j].Pair? && HeaderNow(lines[..j]).Some?
    && SetsAt(lines, i, HeaderNow(lines[..j]).value, lines[j].key)
  }

  /** The value that the sections hold for the key, as it was written. */
  function Held(ss: seq<Section>, section: string, key: string): Option<string>
  {
    var k := FindSection(ss, section);
    if k == |ss| then None
    else
      var i := FindItem(ss[k].items, key);
      if i == |ss[k].items| then None else Some(ss[k].items[i].value)
  }

  lemma SameTwice(a: string, b: string, c: string)
    requires Same(a, b)
    ensures Same(b, a) && (Same(b, c) <==> Same(a, c))
  {}

  /** No two sections have the same name, and the current one is that of the header. */
  ghost predicate Orderly(p: Parser, header: Option<string>)
  {
    p.Parser? ==>
      && (forall i, j | 0 <= i < j < |p.sections| :: !Same(p.sections[i].name, p.sections[j].name))
      && (p.cur.Some? <==> header.Some?)
      && (p.cur.Some? ==> p.cur.value < |p.sections| && Same(p.sections[p.cur.value].name, header.value))
  }

  lemma SectionAt(ss: seq<Section>, k: nat, name: string)
    requires k < |ss| && Same(ss[k].name, name)
    requires forall i, j | 0 <= i < j < |ss| :: !Same(ss[i].name, ss[j].name)
    ensures FindSection(ss, name) == k
  {
    var m := FindSection(ss, name);
    if m < k {
      SameTwice(ss[m].name, name, ss[k].name);
      SameTwice(ss[k].name, name, ss[m].name);
    }
  }

  lemma {:induction false} FindAppended(ss: seq<Section>, x: Section, name: string)
    ensures FindSection(ss + [x], name) ==
            if FindSection(ss, name) < |ss| then FindSection(ss, name)
            else if Same(x.name, name) then |ss| else |ss| + 1
  {
    if ss != [] {
      assert (ss + [x])[1..] == ss[1..] + [x];
      FindAppended(ss[1..], x, name);
    }
  }

  lemma {:induction false} FindUpdated(ss: seq<Section>, k: nat, x: Section, name: string)
    requires k < |ss| && x.name == ss[k].name
    ensures FindSection(ss[k := x], name) == FindSection(ss, name)
  {
    if k == 0 {
      assert ss[k := x][1..] == ss[1..];
    } else {
      assert ss[k := x][1..] == ss[1..][k - 1 := x];
      FindUpdated(ss[1..], k - 1, x, name);
    }
  }

  lemma {:induction false} ItemAppended(items: seq<Item>, x: Item, key: string)
    ensures FindItem(items + [x], key) ==
            if FindItem(items, key) < |items| then FindItem(items, key)
            else if Same(x.key, key) then |items| else |items| + 1
  {
    if items != [] {
      assert (items + [x])[1..] == items[1..] + [x];
      ItemAppended(items[1..], x, key);
    }
  }

  /** What a header does to lookups: nothing. */
  lemma HeaderHeld(p: Parser, name: string, section: string, key: string)
    requires p.Parser? && p.Valid()
    ensures Held(Take(p, Header(name)).sections, section, key) == Held(p.sections, section, key)
  {
    FindAppended(p.sections, Section(name, []), section);
  }

  /** What a setting does to lookups: its own key in the current section is found, or was there already. */
  lemma PairHeld(p: Parser, header: string, key: string, v: string, section: string, other: string)
    requires p.Parser? && p.Valid() && Orderly(p, Some(header))
    ensures var r := Take(p, Pair(key, v));
            && (r.Duplicate? <==> Held(p.sections, header, key).Some?)
            && (r.Parser? ==>
                  Held(r.sections, section, other) ==
                  if Same(header, section) && Same(key, other) then Some(v) else Held(p.sections, section, other))
  {
    var k := p.cur.value;
    var sec := p.sections[k];
    var new' := sec.(items := sec.items + [Item(key, v)]);
    SectionAt(p.sections, k, header);
    SameTwice(sec.name, header, section);
    if Same(header, section) {
      SectionAt(p.sections, k, section);
    }
    FindUpdated(p.sections, k, new', section);
    ItemAppended(sec.items, Item(key, v), other);
    if Same(key, other) {
      SameKeys(sec.items, key, other);
    }
  }

  lemma {:induction false} SameKeys(items: seq<Item>, key: string, other: string)
    requires Same(key, other)
    ensures FindItem(items, key) == FindItem(items, other)
  {
    if items != [] {
      SameTwice(key, other, items[0].key);
      SameKeys(items[1..], key, other);
    }
  }

  lemma TakeOrderly(p: Parser, header: Option<string>, line: Line)
    requires p.Valid() && Orderly(p, header)
    ensures Orderly(Take(p, line), if line.Header? then Some(line.name) else header)
  {
    if p.Parser? && line.Header? && FindSection(p.sections, line.name) == |p.sections| {
      forall i | 0 <= i < |p.sections|
        ensures !Same(p.sections[i].name, line.name)
      {}
    }
  }

  lemma {:induction false} AllOrderly(lines: seq<Line>)
    ensures Orderly(TakeAll(lines), HeaderNow(lines))
  {
    if lines != [] {
      AllOrderly(lines[..|lines| - 1]);
      TakeOrderly(TakeAll(lines[..|lines| - 1]), HeaderNow(lines[..|lines| - 1]), lines[|lines| - 1]);
    }
  }

  /** Some line sets the key in the section, and it set it to the value. */
  ghost predicate SetTo(lines: seq<Line>, section: string, key: string, v: string)
  {
    exists i: nat :: SetsAt(lines, i, section, key) && lines[i].value == v
  }

  lemma SetStep(lines: seq<Line>, section: string, key: string, v: string)
    requires lines != []
    ensures var before, n := lines[..|lines| - 1], |lines| - 1;
            SetTo(lines, section, key, v) <==>
            SetTo(before, section, key, v) || (SetsAt(lines, n, section, key) && lines[n].value == v)
  {
    var before, n := lines[..|lines| - 1], |lines| - 1;
    forall i: nat | i < n
      ensures SetsAt(before, i, section, key) <==> SetsAt(lines, i, section, key)
    {
      assert before[..i] == lines[..i];
    }
    if i: nat :| SetsAt(lines, i, section, key) && lines[i].value == v {
      assert i < n ==> SetsAt(before, i, section, key);
    }
    if i: nat :| SetsAt(before, i, section, key) && before[i].value == v {
      assert SetsAt(lines, i, section, key);
    }
  }

  lemma HeldStep(lines: seq<Line>, section: string, key: string)
    requires lines != [] && TakeAll(lines[..|lines| - 1]).Parser? && TakeAll(lines).Parser?
    ensures Held(TakeAll(lines).sections, section, key) ==
            if SetsAt(lines, |lines| - 1, section, key) then Some(lines[|lines| - 1].value)
            else Held(TakeAll(lines[..|lines| - 1]).sections, section, key)
  {
    var before, line := lines[..|lines| - 1], lines[|lines| - 1];
    AllOrderly(before);
    match line
    case Nothing =>
    case Header(name) => HeaderHeld(TakeAll(before), name, section, key);
    case Pair(k, v) =>
      if HeaderNow(before).Some? {
        PairHeld(TakeAll(before), HeaderNow(before).value, k, v, section, key);
      }
  }

  /** After any lines, a lookup finds a value exactly when some line set the key to it in the section. */
  lemma {:induction false} HeldExactly(lines: seq<Line>, section: string, key: string, v: string)
    requires TakeAll(lines).Parser?
    ensures Held(TakeAll(lines).sections, section, key) == Some(v) <==> SetTo(lines, section, key, v)
  {
    if lines != [] {
      var before, n := lines[..|lines| - 1], |lines| - 1;
      HeldExactly(before, section, key, v);
      SetStep(lines, section, key, v);
      HeldStep(lines, section, key);
      if SetsAt(lines, n, section, key) && SetTo(before, section, key, v) {
        SetAgain(lines, section, key);
      }
    }
  }

  lemma SetAgain(lines: seq<Line>, section: string, key: string)
    requires lines != [] && SetsAt(lines, |lines| - 1, section, key) && TakeAll(lines[..|lines| - 1]).Parser?
    requires Held(TakeAll(lines[..|lines| - 1]).sections, section, key).Some?
    ensures TakeAll(lines).Duplicate?
  {
    var before, line := lines[..|lines| - 1], lines[|lines| - 1];
    AllOrderly(before);
    var header := HeaderNow(before).value;
    SameLookup(TakeAll(before).sections, header, section, line.key, key);
    PairHeld(TakeAll(before), header, line.key, line.value, section, key);
  }

  lemma {:induction false} SameSections(ss: seq<Section>, a: string, b: string)
    requires Same(a, b)
    ensures FindSection(ss, a) == FindSection(ss, b)
  {
    if ss != [] {
      SameTwice(a, b, ss[0].name);
      SameSections(ss[1..], a, b);
    }
  }

  lemma SameLookup(ss: seq<Section>, a: string, b: string, k: string, l: string)
    requires Same(a, b) && Same(k, l)
    ensures Held(ss, a, k) == Held(ss, b, l)
  {
    SameSections(ss, a, b);
    if FindSection(ss, a) < |ss| {
      SameKeys(ss[FindSection(ss, a)].items, k, l);
    }
  }

  /** Line `n` sets a key again. */
  ghost predicate Repeats(lines: seq<Line>, n: nat)
  {
    exists i: nat | i < n :: Again(lines, i, n)
  }

  lemma TwiceStep(lines: seq<Line>)
    requires lines != []
    ensures SetsTwice(lines) <==> SetsTwice(lines[..|lines| - 1]) || Repeats(lines, |lines| - 1)
  {
    var before, n := lines[..|lines| - 1], |lines| - 1;
    forall i: nat, j: nat | i < j < n
      ensures Again(before, i, j) <==> Again(lines, i, j)
    {
      assert before[..i] == lines[..i] && before[..j] == lines[..j];
    }
    if i: nat, j: nat :| i < j < |lines| && Again(lines, i, j) {
      assert j < n ==> Again(before, i, j);
    }
    if i: nat, j: nat :| i < j < n && Again(before, i, j) {
      assert Again(lines, i, j);
    }
  }

  lemma RepeatsIs(lines: seq<Line>, header: string, key: string)
    requires lines != [] && lines[|lines| - 1].Pair? && key == lines[|lines| - 1].key
    requires HeaderNow(lines[..|lines| - 1]) == Some(header) && TakeAll(lines[..|lines| - 1]).Parser?
    ensures Repeats(lines, |lines| - 1) <==> Held(TakeAll(lines[..|lines| - 1]).sections, header, key).Some?
  {
    var before, n := lines[..|lines| - 1], |lines| - 1;
    forall i: nat | i < n
      ensures Again(lines, i, n) <==> SetsAt(before, i, header, key)
    {
      assert before[..i] == lines[..i];
    }
    var held := Held(TakeAll(before).sections, header, key);
    if held.Some? {
      HeldExactly(before, header, key, held.value);
    }
    if i: nat :| i < n && SetsAt(before, i, header, key) {
      HeldExactly(before, header, key, before[i].value);
    }
  }

  lemma DuplicateStep(lines: seq<Line>)
    requires lines != [] && TakeAll(lines[..|lines| - 1]).Parser?
    ensures TakeAll(lines).Duplicate? <==> Repeats(lines, |lines| - 1)
  {
    var before, line := lines[..|lines| - 1], lines[|lines| - 1];
    AllOrderly(before);
    if line.Pair? && HeaderNow(before).Some? {
      var header := HeaderNow(before).value;
      RepeatsIs(lines, header, line.key);
      PairHeld(TakeAll(before), header, line.key, line.value, header, line.key);
    }
  }

  /** A file is refused exactly when it sets a key twice in a section, names compared without regard to case; a section
      may be left and taken up again. */
  lemma {:induction false} RefusedExactly(lines: seq<Line>)
    ensures TakeAll(lines).Duplicate? <==> SetsTwice(lines)
  {
    if lines != [] {
      RefusedExactly(lines[..|lines| - 1]);
      TwiceStep(lines);
      if TakeAll(lines[..|lines| - 1]).Parser? {
        DuplicateStep(lines);
      }
    }
  }

  /** The lines of a text as the parser gets them. */
  function LinesOf(s: string): seq<Line>
    decreases |s|
  {
    if s == [] then [] else [Meaning(Cut(s[..Chunk(s)]))] + LinesOf(s[Chunk(s)..])
  }

  lemma OneMore(done: seq<Line>, line: Line)
    ensures TakeAll(done + [line]) == Take(TakeAll(done), line)
  {
    assert (done + [line])[..|done|] == done;
  }

  lemma {:induction false} TakesLines(done: seq<Line>, s: string)
    ensures TakeText(TakeAll(done), s) == TakeAll(done + LinesOf(s))
    decreases |s|
  {
    if s == [] {
      assert done + LinesOf(s) == done;
    } else {
      var line, rest := Meaning(Cut(s[..Chunk(s)])), s[Chunk(s)..];
      OneMore(done, line);
      TakesLines(done + [line], rest);
      Assoc(done, [line], LinesOf(rest));
    }
  }

  /** Reading a file and looking up a key: the file is refused exactly when it sets a key twice in a section, and
      otherwise the lookup gives the value that some line sets, without blanks in front, and nothing if no line
      does. */
  lemma FileExactly(text: string, section: string, key: string, v: string)
    ensures var p := TakeText(Parser([], None), text);
            && (p.Duplicate? <==> SetsTwice(LinesOf(text)))
            && (p.Parser? ==>
                  && (SetTo(LinesOf(text), section, key, v) ==>
                        GetString(p.sections, section, key) == Some(SkipBlanks(v)))
                  && (GetString(p.sections, section, key).None? <==>
                      forall u :: !SetTo(LinesOf(text), section, key, u)))
  {
    var lines := LinesOf(text);
    TakesLines([], text);
    assert [] + lines == lines;
    RefusedExactly(lines);
    if TakeAll(lines).Parser? {
      forall u
        ensures Held(TakeAll(lines).sections, section, key) == Some(u) <==> SetTo(lines, section, key, u)
      {
        HeldExactly(lines, section, key, u);
      }
    }
  }
}
