/**
  The configuration parser, on its line buffer, and the reader that sets the values.
  */
module LpConfigFile {
  import opened Collections
  import opened LpConfigText
  import opened ConfigDump
  import opened ConfigRoundTrip

  // ----- Strings in a buffer -----

  /** The C string that starts at a position. */
  function Str(b: seq<char>, p: nat): string
    requires p <= |b|
  {
    Cut(b[p..])
  }

  ghost predicate Ends(b: seq<char>, p: nat)
  {
    p <= |b| && p + |Str(b, p)| < |b|
  }

  lemma First(b: seq<char>, p: nat)
    requires Ends(b, p)
    ensures b[p] == '\0' <==> Str(b, p) == []
    ensures Str(b, p) != [] ==> Str(b, p)[0] == b[p] && Str(b, p + 1) == Str(b, p)[1..] && Ends(b, p + 1)
  {
    assert b[p..][0] == b[p];
    if b[p] != '\0' {
      assert b[p..][1..] == b[p + 1..];
    }
  }

  lemma {:induction false} Tail(b: seq<char>, p: nat, k: nat)
    requires Ends(b, p) && k <= |Str(b, p)|
    ensures Str(b, p + k) == Str(b, p)[k..] && Ends(b, p + k)
    decreases k
  {
    if k > 0 {
      First(b, p);
      Tail(b, p + 1, k - 1);
    }
  }

  /** A terminator written into the string cuts it, and leaves what comes after. */
  lemma Terminated(b: seq<char>, p: nat, q: nat)
    requires Ends(b, p) && p <= q <= p + |Str(b, p)|
    ensures Str(b[q := '\0'], p) == Str(b, p)[..q - p]
    ensures q < p + |Str(b, p)| ==> Str(b[q := '\0'], q + 1) == Str(b, p)[q + 1 - p..] && Ends(b[q := '\0'], q + 1)
  {
    var c := b[q := '\0'];
    assert forall j | 0 <= j < q - p :: c[p..][j] == b[p..][j];
    assert c[p..][q - p] == '\0';
    assert Find(c[p..], '\0') == q - p;
    if q < p + |Str(b, p)| {
      assert c[q + 1..] == b[q + 1..];
      Tail(b, p, q + 1 - p);
    }
  }

  method StrChr(buf: array<char>, p: nat, c: char) returns (q: nat, found: bool)
    requires Ends(buf[..], p) && c != '\0'
    ensures q == p + Find(Str(buf[..], p), c) && (found <==> q < p + |Str(buf[..], p)|)
  {
    ghost var b, s := buf[..], Str(buf[..], p);
    q := p;
    First(b, p);
    while buf[q] != '\0' && buf[q] != c
      invariant Ends(b, q) && p <= q && |s| == q - p + |Str(b, q)| && Find(s, c) == q - p + Find(Str(b, q), c)
      decreases buf.Length - q
    {
      First(b, q);
      q := q + 1;
    }
    First(b, q);
    found := buf[q] == c;
  }

  method SkipInitialBlanks(buf: array<char>, p: nat) returns (q: nat)
    requires Ends(buf[..], p)
    ensures Ends(buf[..], q) && Str(buf[..], q) == SkipBlanks(Str(buf[..], p))
  {
    ghost var b, s := buf[..], SkipBlanks(Str(buf[..], p));
    q := p;
    while buf[q] == ' '
      invariant Ends(b, q) && SkipBlanks(Str(b, q)) == s
      decreases buf.Length - q
    {
      First(b, q);
      q := q + 1;
    }
    First(b, q);
  }

  method IsAComment(buf: array<char>) returns (r: bool)
    requires Ends(buf[..], 0)
    ensures r == IsComment(Str(buf[..], 0))
  {
    var p := SkipInitialBlanks(buf, 0);
    First(buf[..], p);
    r := buf[p] == '#';
  }

  method IsFirstChar(buf: array<char>, pos: nat) returns (r: bool)
    requires pos <= buf.Length
    ensures r <==> forall j | 0 <= j < pos :: buf[j] == ' '
  {
    for p := 0 to pos
      invariant forall j | 0 <= j < p :: buf[j] == ' '
    {
      if buf[p] != ' ' {
        return false;
      }
    }
    return true;
  }

  method SkipSpaceIn(buf: array<char>, p: nat) returns (q: nat)
    requires Ends(buf[..], p)
    ensures Ends(buf[..], q) && Str(buf[..], q) == SkipSpaces(Str(buf[..], p))
  {
    ghost var b, s := buf[..], SkipSpaces(Str(buf[..], p));
    q := p;
    while buf[q] != '\0' && IsSpace(buf[q])
      invariant Ends(b, q) && SkipSpaces(Str(b, q)) == s
      decreases buf.Length - q
    {
      First(b, q);
      q := q + 1;
    }
    First(b, q);
  }

  method ScanWord(buf: array<char>, p: nat) returns (word: string)
    requires Ends(buf[..], p)
    ensures word == Word(Str(buf[..], p))
  {
    var q := SkipSpaceIn(buf, p);
    ghost var b, all := buf[..], UpToSpace(Str(buf[..], q));
    word := [];
    while buf[q] != '\0' && !IsSpace(buf[q])
      invariant Ends(b, q) && word + UpToSpace(Str(b, q)) == all
      decreases buf.Length - q
    {
      First(b, q);
      Assoc(word, [buf[q]], UpToSpace(Str(b, q + 1)));
      word := word + [buf[q]];
      q := q + 1;
    }
    First(b, q);
  }

  method CopyString(buf: array<char>, p: nat) returns (s: string)
    requires Ends(buf[..], p)
    ensures s == Str(buf[..], p)
  {
    ghost var b := buf[..];
    var q := p;
    s := [];
    while buf[q] != '\0'
      invariant Ends(b, q) && s + Str(b, q) == Str(b, p)
      decreases buf.Length - q
    {
      First(b, q);
      ghost var rest := Str(b, q);
      assert s + rest == s + [rest[0]] + rest[1..];
      s := s + [buf[q]];
      q := q + 1;
    }
    First(b, q);
  }

  // ----- A line -----

  /** Blanks before the terminator at `end` are replaced by terminators, down to the start of the string. */
  method StripEnd(buf: array<char>, p: nat, end: int) returns (last: int)
    requires Ends(buf[..], p) && end == p + |Str(buf[..], p)| - 1
    modifies buf
    ensures Ends(buf[..], p) && Str(buf[..], p) == Strip(old(Str(buf[..], p)))
    ensures last >= p <==> old(Str(buf[..], p)) != []
  {
    last := end;
    while last > p && buf[last] == ' '
      invariant p - 1 <= last && (old(Str(buf[..], p)) != [] ==> p <= last)
      invariant Ends(buf[..], p) && last == p + |Str(buf[..], p)| - 1
      invariant Strip(Str(buf[..], p)) == Strip(old(Str(buf[..], p)))
    {
      ghost var b, s := buf[..], Str(buf[..], p);
      Tail(b, p, last - p);
      First(b, last);
      Terminated(b, p, last);
      buf[last] := '\0';
      assert buf[..] == b[last := '\0'];
      last := last - 1;
    }
    if last > p {
      Tail(buf[..], p, last - p);
      First(buf[..], last);
    }
  }

  method ParseValue(buf: array<char>, p: nat) returns (v: Option<string>)
    requires Ends(buf[..], p)
    modifies buf
    ensures v == ValueOf(old(Str(buf[..], p)))
  {
    ghost var b, s := buf[..], Str(buf[..], p);
    var pos2, found := StrChr(buf, p, '\n');
    if !found {
      var whole := CopyString(buf, p);
      return Some(whole);
    }
    Terminated(b, p, pos2);
    buf[pos2] := '\0';
    assert buf[..] == b[pos2 := '\0'];
    var end: int := pos2;
    var last := StripEnd(buf, p, end - 1);
    if last < p {
      return None;
    }
    var text := CopyString(buf, p);
    return Some(text);
  }

  method ParsePair(buf: array<char>) returns (line: Line)
    requires Ends(buf[..], 0)
    modifies buf
    ensures line == PairOf(old(Str(buf[..], 0)))
  {
    ghost var b, s := buf[..], Str(buf[..], 0);
    var pos1, found := StrChr(buf, 0, '=');
    if !found {
      return Nothing;
    }
    Terminated(b, 0, pos1);
    buf[pos1] := '\0';
    assert buf[..] == b[pos1 := '\0'];
    var key := ScanWord(buf, 0);
    if key == [] {
      return Nothing;
    }
    var v := ParseValue(buf, pos1 + 1);
    return if v.None? then Nothing else Pair(key, v.value);
  }

  method ParseHeader(buf: array<char>, pos1: nat) returns (line: Line)
    requires Ends(buf[..], pos1) && buf[pos1] == '['
    modifies buf
    ensures var s := old(Str(buf[..], pos1)); s != [] && s[0] == '[' && line == HeaderOf(s)
  {
    ghost var b, s := buf[..], Str(buf[..], pos1);
    First(b, pos1);
    var pos2, found := StrChr(buf, pos1, ']');
    if !found {
      return Nothing;
    }
    Terminated(b, pos1, pos2);
    buf[pos2] := '\0';
    assert buf[..] == b[pos2 := '\0'];
    First(buf[..], pos1);
    assert s[..pos2 - pos1][1..] == s[1..pos2 - pos1];
    var name := ScanWord(buf, pos1 + 1);
    return if name == [] then Nothing else Header(name);
  }

  method ParseLine(buf: array<char>) returns (line: Line)
    requires Ends(buf[..], 0)
    modifies buf
    ensures line == Meaning(old(Str(buf[..], 0)))
  {
    ghost var s := Str(buf[..], 0);
    var comment := IsAComment(buf);
    if comment {
      return Nothing;
    }
    var pos1, found := StrChr(buf, 0, '[');
    assert forall j | 0 <= j < |s| :: s[j] == buf[j];
    var first := IsFirstChar(buf, pos1);
    if found && first {
      Tail(buf[..], 0, pos1);
      line := ParseHeader(buf, pos1);
    } else {
      line := ParsePair(buf);
    }
  }

  /** fgets: the next piece of the text, with a terminator. */
  method FGets(buf: array<char>, text: string, pos: nat) returns (next: nat)
    requires buf.Length == MAX_LEN && pos < |text|
    modifies buf
    ensures next == pos + Chunk(text[pos..]) && Ends(buf[..], 0)
    ensures Str(buf[..], 0) == Cut(text[pos..][..Chunk(text[pos..])])
  {
    ghost var rest := text[pos..];
    var n := 0;
    var stop := false;
    while !stop && n < MAX_LEN - 1 && pos + n < |text|
      invariant n <= MAX_LEN - 1 && pos + n <= |text| && buf[..n] == rest[..n]
      invariant if stop then n > 0 && Find(rest, '\n') == n - 1 && n <= |rest| else Find(rest, '\n') >= n
      decreases MAX_LEN - n, !stop
    {
      buf[n] := text[pos + n];
      assert buf[..n + 1] == rest[..n + 1];
      stop := text[pos + n] == '\n';
      n := n + 1;
    }
    buf[n] := '\0';
    assert buf[..n] == rest[..n];
    CutCopied(buf[..], rest[..n]);
    next := pos + n;
  }

  lemma CutCopied(b: seq<char>, s: string)
    requires |s| < |b| && b[..|s|] == s && b[|s|] == '\0'
    ensures Ends(b, 0) && Str(b, 0) == Cut(s)
  {
    var k := Find(s, '\0');
    assert b[0..] == b;
    assert forall j | 0 <= j < |s| :: b[j] == s[j];
    assert Find(b, '\0') == k;
    assert b[..k] == s[..k];
  }

  // ----- A file -----

  class LpConfig {
    var mSections: seq<Section>

    method FindSectionIn(name: string) returns (k: nat)
      ensures k == FindSection(mSections, name)
    {
      k := 0;
      while k < |mSections| && !Same(mSections[k].name, name)
        invariant k <= |mSections| && FindSection(mSections, name) == k + FindSection(mSections[k..], name)
      {
        assert mSections[k..][1..] == mSections[k + 1..];
        k := k + 1;
      }
    }

    static method FindItemIn(items: seq<Item>, key: string) returns (k: nat)
      ensures k == FindItem(items, key)
    {
      k := 0;
      while k < |items| && !Same(items[k].key, key)
        invariant k <= |items| && FindItem(items, key) == k + FindItem(items[k..], key)
      {
        assert items[k..][1..] == items[k + 1..];
        k := k + 1;
      }
    }

    method FindOrAddSection(name: string) returns (k: nat)
      modifies this
      ensures k < |mSections|
      ensures forall cur: Option<nat> | Parser(old(mSections), cur).Valid() ::
                Parser(mSections, Some(k)) == Take(Parser(old(mSections), cur), Header(name))
    {
      k := FindSectionIn(name);
      if k == |mSections| {
        mSections := mSections + [Section(name, [])];
      }
    }

    /** False, and no change, if the section has the key. */
    method AddItem(k: nat, key: string, value: string) returns (ok: bool)
      requires k < |mSections|
      modifies this
      ensures |mSections| == |old(mSections)|
      ensures Take(Parser(old(mSections), Some(k)), Pair(key, value)) ==
              if ok then Parser(mSections, Some(k)) else Duplicate(key)
    {
      var items := mSections[k].items;
      var i := FindItemIn(items, key);
      ok := i == |items|;
      if ok {
        mSections := mSections[k := mSections[k].(items := items + [Item(key, value)])];
      }
    }

    /** Reads a whole file.  `duplicate` is the key of the exception, if there is one. */
    method ParseFile(text: string) returns (duplicate: Option<string>)
      modifies this
      ensures var p := TakeText(Parser(old(mSections), None), text);
              if duplicate.None? then p.Parser? && p.sections == mSections else p == Duplicate(duplicate.value)
    {
      var buf := new char[MAX_LEN];
      var cur: Option<nat> := None;
      var pos := 0;
      assert text[0..] == text;
      while pos < |text|
        invariant pos <= |text| && Parser(mSections, cur).Valid()
        invariant TakeText(Parser(mSections, cur), text[pos..]) == TakeText(Parser(old(mSections), None), text)
      {
        ghost var p, rest := Parser(mSections, cur), text[pos..];
        var next := FGets(buf, text, pos);
        var line := ParseLine(buf);
        assert rest[Chunk(rest)..] == text[next..];
        pos := next;
        match line
        case Nothing =>
        case Header(name) =>
          var k := FindOrAddSection(name);
          cur := Some(k);
        case Pair(key, value) =>
          if cur.Some? {
            var ok := AddItem(cur.value, key, value);
            if !ok {
              AfterDuplicate(key, text[next..]);
              return Some(key);
            }
          }
      }
      return None;
    }

    method GetStringIn(section: string, key: string) returns (v: Option<string>)
      ensures v == GetString(mSections, section, key)
    {
      var k := FindSectionIn(section);
      if k == |mSections| {
        return None;
      }
      var items := mSections[k].items;
      var i := FindItemIn(items, key);
      if i == |items| {
        return None;
      }
      return Some(SkipBlanks(items[i].value));
    }
  }

  lemma {:induction false} AfterDuplicate(key: string, s: string)
    ensures TakeText(Duplicate(key), s) == Duplicate(key)
    decreases |s|
  {
    if s != [] {
      AfterDuplicate(key, s[Chunk(s)..]);
    }
  }

  // ----- Setting the values -----

  class ConfigValue {
    const fixed: Entry
    var mValue: string
    var mIsDefault: bool

    ghost function Value(): Entry
      reads this
    {
      fixed.(value := mValue, isDefault := mIsDefault)
    }

    constructor (e: Entry)
      ensures Value() == e
    {
      fixed, mValue, mIsDefault := e, e.value, e.isDefault;
    }

    /** False, and no change, if the value does not suit the type. */
    method Set(value: string) returns (ok: bool)
      modifies this
      ensures ok <==> (fixed.boolean ==> IsBoolean(value))
      ensures Value() == if ok then old(Value()).(value := value, isDefault := false) else old(Value())
    {
      ok := !fixed.boolean || IsBoolean(value);
      if ok {
        mValue, mIsDefault := value, false;
      }
    }

    method Get() returns (v: string)
      ensures v == Value().Current()
    {
      if mIsDefault && fixed.oldName.Some? {
        return fixed.oldName.value;
      }
      return mValue;
    }

    method RestoreDefault()
      modifies this
      ensures Value() == old(Value()).(value := fixed.byDefault, isDefault := true)
    {
      mValue, mIsDefault := fixed.byDefault, true;
    }
  }

  /** Reads the values of one section.  It stops at the first that does not suit its type. */
  method ReadValues(cfg: LpConfig, section: string, values: seq<ConfigValue>) returns (ok: bool)
    requires forall i, j | 0 <= i < j < |values| :: values[i] != values[j]
    modifies set v | v in values
    ensures ok ==> forall j | 0 <= j < |values| ::
              ReadEntry(cfg.mSections, section, old(values[j].Value())) == Some(values[j].Value())
    ensures !ok ==> exists k | 0 <= k < |values| ::
              && ReadEntry(cfg.mSections, section, old(values[k].Value())) == None
              && (forall j | 0 <= j < k ::
                    ReadEntry(cfg.mSections, section, old(values[j].Value())) == Some(values[j].Value()))
              && (forall j | k <= j < |values| :: values[j].Value() == old(values[j].Value()))
  {
    for k := 0 to |values|
      invariant forall j | 0 <= j < k ::
                  ReadEntry(cfg.mSections, section, old(values[j].Value())) == Some(values[j].Value())
      invariant forall j | k <= j < |values| :: values[j].Value() == old(values[j].Value())
      invariant unchanged(cfg)
    {
      var v := cfg.GetStringIn(section, values[k].fixed.name);
      if v.Some? {
        ok := values[k].Set(v.value);
        if !ok {
          return;
        }
      } else {
        values[k].RestoreDefault();
      }
    }
    ok := true;
  }
}
