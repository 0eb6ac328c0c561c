/**
  The `#` and `,` text format of a registrar record: contacts are joined to one line and
  split again with strsep.  The numbers of a contact are kept as the text that is written.
  */
module RecordSerializer {
  import opened Collections

  datatype Contact = Contact(uri: string, expires: string, q: string, id: string, key: string, updated: string,
                             callId: string, cseq: string, alias: bool, path: seq<string>, accept: seq<string>)

  /** What the parser hands to the record: a contact without its id. */
  datatype Fields = Fields(uri: string, expires: string, q: string, key: string, updated: string,
                           callId: string, cseq: string, alias: bool, path: seq<string>, accept: seq<string>)

  /** Accepted, refused, or comparing a string that is not there; and the contacts added up to then. */
  datatype Status = Accepted | Refused | Undefined
  datatype Result = Result(status: Status, added: seq<Fields>)

  // ----- Splitting and joining -----

  function Join(parts: seq<string>, sep: char): string
  {
    if parts == [] then "" else if |parts| == 1 then parts[0] else parts[0] + [sep] + Join(parts[1..], sep)
  }

  function Split(s: string, sep: char): (parts: seq<string>)
    ensures parts != []
  {
    if s == "" then [""]
    else if s[0] == sep then [""] + Split(s[1..], sep)
    else
      var more := Split(s[1..], sep);
      [[s[0]] + more[0]] + more[1..]
  }

  lemma {:induction false} SplitAround(a: string, b: string, sep: char)
    ensures Split(a + [sep] + b, sep) == Split(a, sep) + Split(b, sep)
  {
    var s := a + [sep] + b;
    if a == "" {
      assert s[1..] == b;
    } else {
      assert s[1..] == a[1..] + [sep] + b;
      SplitAround(a[1..], b, sep);
    }
  }

  lemma {:induction false} SplitWhole(s: string, sep: char)
    ensures sep !in s ==> Split(s, sep) == [s]
    ensures sep in s ==> |Split(s, sep)| > 1
  {
    if s != "" {
      SplitWhole(s[1..], sep);
      assert s == [s[0]] + s[1..];
    }
  }

  ghost predicate Free(parts: seq<string>, sep: char)
  {
    forall i | 0 <= i < |parts| :: sep !in parts[i]
  }

  /** Splitting undoes joining exactly when there is a part and none holds the separator, and finds more parts
      otherwise. */
  lemma {:induction false} SplitJoin(parts: seq<string>, sep: char)
    ensures Split(Join(parts, sep), sep) == parts <==> parts != [] && Free(parts, sep)
    ensures parts == [] || !Free(parts, sep) ==> |Split(Join(parts, sep), sep)| > |parts|
  {
    if parts == [] {
      return;
    }
    SplitWhole(parts[0], sep);
    if |parts| > 1 {
      SplitAround(parts[0], Join(parts[1..], sep), sep);
      SplitJoin(parts[1..], sep);
      assert parts == [parts[0]] + parts[1..];
      assert Free(parts, sep) <==> sep !in parts[0] && Free(parts[1..], sep);
    } else {
      assert parts == [parts[0]];
    }
  }

  lemma {:induction false} JoinHolds(parts: seq<string>, sep: char, c: char)
    requires c != sep
    ensures c !in Join(parts, sep) <==> Free(parts, c)
  {
    if |parts| > 1 {
      JoinHolds(parts[1..], sep, c);
      assert Free(parts, c) <==> c !in parts[0] && Free(parts[1..], c);
    }
  }

  // ----- Writing -----

  /** What stands between the `#`s of one contact.  The route is always left empty. */
  function Tokens(c: Contact): (ts: seq<string>)
    ensures |ts| == 13
  {
    ["", c.uri, c.expires, c.q, c.id, "", c.key, c.updated, c.callId, c.cseq,
     if c.alias then "true" else "false", Join(c.path, ','), Join(c.accept, ',')]
  }

  function AllTokens(cs: seq<Contact>): (ts: seq<string>)
    ensures |ts| == 13 * |cs|
  {
    if cs == [] then [] else Tokens(cs[0]) + AllTokens(cs[1..])
  }

  function Serialized(cs: seq<Contact>): string
  {
    Join(AllTokens(cs), '#')
  }

  /** The first tokens, up to number `k`. */
  function Upto(ts: seq<string>, k: nat): string
    requires k < |ts|
  {
    if k == 0 then ts[0] else Upto(ts, k - 1) + "#" + ts[k]
  }

  lemma {:induction false} UptoIs(ts: seq<string>, k: nat)
    requires k < |ts|
    ensures Join(ts, '#') == if k == |ts| - 1 then Upto(ts, k) else Upto(ts, k) + "#" + Join(ts[k + 1..], '#')
  {
    if k > 0 {
      UptoIs(ts, k - 1);
      var rest := ts[k..];
      assert rest[1..] == ts[k + 1..];
      Assoc(Upto(ts, k - 1) + "#", ts[k] + "#", Join(rest[1..], '#'));
      Assoc(Upto(ts, k - 1) + "#", ts[k], "#");
    }
  }

  /** The text of one contact: every field after a `#`, in this order, with nothing for the route. */
  lemma OneContactText(c: Contact)
    ensures Serialized([c]) ==
            "" + "#" + c.uri + "#" + c.expires + "#" + c.q + "#" + c.id + "#" + "" + "#" + c.key + "#" + c.updated +
            "#" + c.callId + "#" + c.cseq + "#" + (if c.alias then "true" else "false") + "#" + Join(c.path, ',') +
            "#" + Join(c.accept, ',')
  {
    var ts := Tokens(c);
    assert AllTokens([c]) == ts + [] == ts;
    UptoIs(ts, 12);
    assert Upto(ts, 0) == "" && Upto(ts, 1) == "" + "#" + c.uri;
    assert Upto(ts, 2) == "" + "#" + c.uri + "#" + c.expires;
    assert Upto(ts, 4) == Upto(ts, 2) + "#" + c.q + "#" + c.id;
    assert Upto(ts, 6) == Upto(ts, 4) + "#" + "" + "#" + c.key;
    assert Upto(ts, 8) == Upto(ts, 6) + "#" + c.updated + "#" + c.callId;
    assert Upto(ts, 10) == Upto(ts, 8) + "#" + c.cseq + "#" + (if c.alias then "true" else "false");
    assert Upto(ts, 12) == Upto(ts, 10) + "#" + Join(c.path, ',') + "#" + Join(c.accept, ',');
  }

  // ----- Reading -----

  predicate Complete(ts: seq<string>)
  {
    |ts| >= 10 && ts[0] == "" && ts[1] != "" && ts[4] != "" && ts[2] != "" && ts[7] != "" && ts[8] != ""
  }

  function ListAt(ts: seq<string>, i: nat): seq<string>
  {
    if i < |ts| then Split(ts[i], ',') else []
  }

  function FieldsAt(ts: seq<string>): Fields
    requires |ts| > 10
  {
    Fields(ts[1], ts[2], ts[3], ts[6], ts[7], ts[8], ts[9], ts[10] == "true",
           (if ts[5] != "" then [ts[5]] else []) + ListAt(ts, 11), ListAt(ts, 12))
  }

  function Drop(ts: seq<string>, n: nat): seq<string>
  {
    if n < |ts| then ts[n..] else []
  }

  function ParseTokens(ts: seq<string>, added: seq<Fields>): Result
    decreases |ts|
  {
    if ts == [] then Result(Accepted, added)
    else if !Complete(ts) then Result(Refused, added)
    else if |ts| == 10 then Result(Undefined, added)
    else ParseTokens(Drop(ts, 13), added + [FieldsAt(ts)])
  }

  function Parsed(text: string): Result
  {
    ParseTokens(Split(text, '#'), [])
  }

  // ----- The round trip -----

  predicate WellFormed(c: Contact)
  {
    && c.uri != "" && c.expires != "" && c.id != "" && c.updated != "" && c.callId != ""
    && c.path != [] && c.accept != []
  }

  /** No field holds a separator of the level it is written at. */
  ghost predicate SeparatorFree(c: Contact)
  {
    && '#' !in c.uri && '#' !in c.expires && '#' !in c.q && '#' !in c.id
    && '#' !in c.key && '#' !in c.updated && '#' !in c.callId && '#' !in c.cseq
    && Free(c.path, '#') && Free(c.accept, '#') && Free(c.path, ',') && Free(c.accept, ',')
  }

  function Restored(cs: seq<Contact>): seq<Fields>
  {
    seq(|cs|, i requires 0 <= i < |cs| =>
      var c := cs[i];
      Fields(c.uri, c.expires, c.q, c.key, c.updated, c.callId, c.cseq, c.alias, c.path, c.accept))
  }

  lemma TokensFree(c: Contact)
    ensures SeparatorFree(c) <==> Free(Tokens(c), '#') && Free(c.path, ',') && Free(c.accept, ',')
  {
    JoinHolds(c.path, ',', '#');
    JoinHolds(c.accept, ',', '#');
    var ts := Tokens(c);
    assert ts[1] == c.uri && ts[2] == c.expires && ts[3] == c.q && ts[4] == c.id;
    assert ts[6] == c.key && ts[7] == c.updated && ts[8] == c.callId && ts[9] == c.cseq;
    assert ts[11] == Join(c.path, ',') && ts[12] == Join(c.accept, ',');
  }

  lemma FreeBoth(a: seq<string>, b: seq<string>, sep: char)
    ensures Free(a + b, sep) <==> Free(a, sep) && Free(b, sep)
  {
    assert forall i | 0 <= i < |a| :: (a + b)[i] == a[i];
    assert forall i | 0 <= i < |b| :: (a + b)[|a| + i] == b[i];
  }

  lemma {:induction false} AllTokensFree(cs: seq<Contact>)
    ensures Free(AllTokens(cs), '#') <==> forall i | 0 <= i < |cs| :: Free(Tokens(cs[i]), '#')
  {
    if cs != [] {
      AllTokensFree(cs[1..]);
      FreeBoth(Tokens(cs[0]), AllTokens(cs[1..]), '#');
      assert cs == [cs[0]] + cs[1..];
    }
  }

  /** The contact comes back when its tokens do. */
  ghost predicate Survives(c: Contact)
  {
    WellFormed(c) && Free(c.path, ',') && Free(c.accept, ',')
  }

  lemma FieldsBack(c: Contact, ts: seq<string>)
    requires |ts| >= 13 && ts[..13] == Tokens(c)
    ensures Complete(ts) && FieldsAt(ts) == Restored([c])[0] <==> Survives(c)
  {
    SplitJoin(c.path, ',');
    SplitJoin(c.accept, ',');
    assert forall i | 0 <= i < 13 :: ts[i] == ts[..13][i];
  }

  /** The contact at the front of its tokens comes back exactly when it is well formed and its lists survive. */
  lemma FrontContact(c: Contact, more: seq<string>)
    ensures var ts := Tokens(c) + more;
            && Drop(ts, 13) == more
            && (Complete(ts) && FieldsAt(ts) == Restored([c])[0] <==> Survives(c))
  {
    FieldsBack(c, Tokens(c) + more);
  }

  lemma {:induction false} AddedGrows(ts: seq<string>, added: seq<Fields>)
    ensures added <= ParseTokens(ts, added).added
    ensures ParseTokens(ts, added).status == Accepted ==> |ts| <= 13 * (|ParseTokens(ts, added).added| - |added|)
    decreases |ts|
  {
    if ts != [] && Complete(ts) && |ts| > 10 {
      AddedGrows(Drop(ts, 13), added + [FieldsAt(ts)]);
    }
  }

  lemma {:induction false} TokensComeBack(cs: seq<Contact>, added: seq<Fields>)
    ensures ParseTokens(AllTokens(cs), added) == Result(Accepted, added + Restored(cs)) <==>
            forall i | 0 <= i < |cs| :: Survives(cs[i])
  {
    if cs == [] {
      assert added + Restored(cs) == added;
    } else {
      var ts, more := AllTokens(cs), AllTokens(cs[1..]);
      FrontContact(cs[0], more);
      var first := Restored([cs[0]])[0];
      assert added + Restored(cs) == (added + [first]) + Restored(cs[1..]);
      if Survives(cs[0]) {
        TokensComeBack(cs[1..], added + [first]);
        assert cs == [cs[0]] + cs[1..];
      } else if Complete(ts) {
        AddedGrows(more, added + [FieldsAt(ts)]);
        assert ParseTokens(ts, added).added[|added|] == FieldsAt(ts);
      }
    }
  }

  /** Parsing recovers the contacts exactly when there is one at least, the mandatory fields are not
      empty, no list is empty, and no field holds a separator of its level. */
  lemma RoundTripExactly(cs: seq<Contact>)
    ensures Parsed(Serialized(cs)) == Result(Accepted, Restored(cs)) <==>
            cs != [] && forall i | 0 <= i < |cs| :: WellFormed(cs[i]) && SeparatorFree(cs[i])
  {
    var ts := AllTokens(cs);
    forall i | 0 <= i < |cs|
      ensures SeparatorFree(cs[i]) <==> Free(Tokens(cs[i]), '#') && Free(cs[i].path, ',') && Free(cs[i].accept, ',')
    {
      TokensFree(cs[i]);
    }
    AllTokensFree(cs);
    if cs == [] {
      assert !Complete(Split("", '#'));
    } else {
      SplitJoin(ts, '#');
      if Free(ts, '#') {
        TokensComeBack(cs, []);
        assert [] + Restored(cs) == Restored(cs);
      } else {
        AddedGrows(Split(Serialized(cs), '#'), []);
      }
    }
  }

  lemma LineSplit(ts: seq<string>, path: seq<string>, accept: seq<string>)
    requires |ts| == 13 && Free(ts[..11], '#') && ts[11] == Join(path, ',') && ts[12] == Join(accept, ',')
    requires Free(path, '#') && Free(accept, '#')
    ensures Split(Join(ts, '#'), '#') == ts
  {
    JoinHolds(path, ',', '#');
    JoinHolds(accept, ',', '#');
    assert forall i | 0 <= i < 11 :: ts[i] == ts[..11][i];
    SplitJoin(ts, '#');
  }

  lemma LineTokens(ts: seq<string>, added: seq<Fields>)
    requires |ts| == 13
    ensures ParseTokens(ts, added) ==
            if Complete(ts) then Result(Accepted, added + [FieldsAt(ts)]) else Result(Refused, added)
  {
    assert Drop(ts, 13) == [];
  }

  /** What is read of one line that has all its fields: they are taken in this order, the route is put in front of the
      path if there is one, and the lists are those that were joined.  The line is refused if the uri, the expiry, the
      id, the update time or the call id is empty. */
  lemma LineRead(ts: seq<string>, path: seq<string>, accept: seq<string>)
    requires |ts| == 13 && Free(ts[..11], '#') && ts[11] == Join(path, ',') && ts[12] == Join(accept, ',')
    requires path != [] && Free(path, '#') && Free(path, ',') && accept != [] && Free(accept, '#') && Free(accept, ',')
    requires ts[0] == ""
    ensures var uri, expires, q, id, route, key := ts[1], ts[2], ts[3], ts[4], ts[5], ts[6];
            var updated, callId, cseq, alias := ts[7], ts[8], ts[9], ts[10];
            Parsed(Join(ts, '#')) ==
            if uri == "" || expires == "" || id == "" || updated == "" || callId == "" then Result(Refused, [])
            else Result(Accepted, [Fields(uri, expires, q, key, updated, callId, cseq, alias == "true",
                                          (if route == "" then [] else [route]) + path, accept)])
  {
    LineSplit(ts, path, accept);
    LineTokens(ts, []);
    SplitJoin(path, ',');
    SplitJoin(accept, ',');
    assert [] + [FieldsAt(ts)] == [FieldsAt(ts)];
  }

  // ----- strsep over a buffer that it cuts -----

  /** The duplicated text and the place of the next token, or -1 for the null pointer at the end. */
  class Scanner {
    const buffer: array<char>
    var at: int

    ghost predicate Valid()
      reads this
    {
      -1 <= at <= buffer.Length
    }

    /** The tokens that are left. */
    ghost function Left(sep: char): seq<string>
      requires Valid()
      reads this, buffer
    {
      if at < 0 then [] else Split(buffer[at..], sep)
    }

    constructor (text: string)
      ensures Valid() && fresh(buffer) && forall sep :: Left(sep) == Split(text, sep)
    {
      buffer := new char[|text|](i requires 0 <= i < |text| => text[i]);
      at := 0;
      new;
      assert buffer[0..] == text;
    }

    method StrSep(sep: char) returns (token: Option<string>)
      requires Valid()
      modifies this, buffer
      ensures Valid()
      ensures old(Left(sep)) == [] ==> token == None && Left(sep) == []
      ensures old(Left(sep)) != [] ==> token == Some(old(Left(sep))[0]) && Left(sep) == old(Left(sep))[1..]
    {
      if at < 0 {
        return None;
      }
      var end := at;
      while end < buffer.Length && buffer[end] != sep
        invariant at <= end <= buffer.Length
        invariant sep !in buffer[at..end]
      {
        end := end + 1;
      }
      ghost var rest := buffer[at..];
      SplitWhole(buffer[at..end], sep);
      token := Some(buffer[at..end]);
      if end < buffer.Length {
        assert rest == buffer[at..end] + [sep] + buffer[end + 1..];
        SplitAround(buffer[at..end], buffer[end + 1..], sep);
        ghost var after := buffer[end + 1..];
        buffer[end] := '\0';
        at := end + 1;
        assert buffer[at..] == after;
      } else {
        assert rest == buffer[at..end];
        at := -1;
      }
    }
  }

  ghost function TokenAt(ts: seq<string>, k: nat): Option<string>
  {
    if k < |ts| then Some(ts[k]) else None
  }

  /** strsep, when `k` of the tokens `ts` have been read. */
  method Next(rc: Scanner, sep: char, ghost ts: seq<string>, ghost k: nat) returns (token: Option<string>)
    requires rc.Valid() && rc.Left(sep) == Drop(ts, k)
    modifies rc, rc.buffer
    ensures rc.Valid() && rc.Left(sep) == Drop(ts, k + 1)
    ensures token == TokenAt(ts, k)
  {
    token := rc.StrSep(sep);
  }

  lemma OneLonger<T>(s: seq<T>, k: nat)
    requires k < |s|
    ensures s[..k] + [s[k]] == s[..k + 1]
  {}

  method ReadAll(scanner: Scanner, sep: char, ghost parts: seq<string>) returns (items: seq<string>)
    requires scanner.Valid() && scanner.Left(sep) == parts
    modifies scanner, scanner.buffer
    ensures items == parts
  {
    items := [];
    var item := Next(scanner, sep, parts, 0);
    while item.Some?
      invariant scanner.Valid()
      invariant |items| <= |parts| && items == parts[..|items|]
      invariant item == TokenAt(parts, |items|) && scanner.Left(sep) == Drop(parts, |items| + 1)
      decreases |parts| - |items|
    {
      OneLonger(parts, |items|);
      items := items + [item.value];
      item := Next(scanner, sep, parts, |items|);
    }
  }

  method SplitList(text: Option<string>) returns (items: seq<string>)
    ensures items == if text.Some? then Split(text.value, ',') else []
  {
    if text.None? {
      return [];
    }
    var scanner := new Scanner(text.value);
    items := ReadAll(scanner, ',', Split(text.value, ','));
  }

  /** The twelve tokens after the empty one. */
  datatype Line = Line(uri: Option<string>, expires: Option<string>, q: Option<string>, id: Option<string>,
                       route: Option<string>, key: Option<string>, updated: Option<string>, callId: Option<string>,
                       cseq: Option<string>, alias: Option<string>, path: Option<string>, accept: Option<string>)

  ghost predicate LineOf(ts: seq<string>, line: Line)
  {
    && line.uri == TokenAt(ts, 1) && line.expires == TokenAt(ts, 2) && line.q == TokenAt(ts, 3)
    && line.id == TokenAt(ts, 4) && line.route == TokenAt(ts, 5) && line.key == TokenAt(ts, 6)
    && line.updated == TokenAt(ts, 7) && line.callId == TokenAt(ts, 8) && line.cseq == TokenAt(ts, 9)
    && line.alias == TokenAt(ts, 10) && line.path == TokenAt(ts, 11) && line.accept == TokenAt(ts, 12)
  }

  method NextFour(rc: Scanner, ghost ts: seq<string>, ghost k: nat)
    returns (a: Option<string>, b: Option<string>, c: Option<string>, d: Option<string>)
    requires rc.Valid() && rc.Left('#') == Drop(ts, k)
    modifies rc, rc.buffer
    ensures rc.Valid() && rc.Left('#') == Drop(ts, k + 4)
    ensures a == TokenAt(ts, k) && b == TokenAt(ts, k + 1) && c == TokenAt(ts, k + 2) && d == TokenAt(ts, k + 3)
  {
    a := Next(rc, '#', ts, k);
    b := Next(rc, '#', ts, k + 1);
    c := Next(rc, '#', ts, k + 2);
    d := Next(rc, '#', ts, k + 3);
  }

  method ReadLine(rc: Scanner, ghost ts: seq<string>) returns (line: Line)
    requires rc.Valid() && rc.Left('#') == Drop(ts, 1)
    modifies rc, rc.buffer
    ensures rc.Valid() && rc.Left('#') == Drop(ts, 13) && LineOf(ts, line)
  {
    var uri, expires, q, id := NextFour(rc, ts, 1);
    var route, key, updated, callId := NextFour(rc, ts, 5);
    var cseq, alias, path, accept := NextFour(rc, ts, 9);
    line := Line(uri, expires, q, id, route, key, updated, callId, cseq, alias, path, accept);
  }

  /** The checks on one line and the contact it adds. */
  method ReadContact(empty: string, line: Line, ghost ts: seq<string>) returns (status: Status, fields: seq<Fields>)
    requires ts != [] && empty == ts[0] && LineOf(ts, line)
    ensures status == if !Complete(ts) then Refused else if |ts| == 10 then Undefined else Accepted
    ensures fields == if status == Accepted then [FieldsAt(ts)] else []
  {
    if empty != "" || Missing(line.uri) || Missing(line.id) || Missing(line.expires) || Missing(line.updated)
       || Missing(line.callId) || line.cseq.None? {
      return Refused, [];
    }
    var paths := SplitList(line.path);
    if line.route != Some("") {
      paths := [line.route.value] + paths;
    }
    var accepts := SplitList(line.accept);
    if line.alias.None? {
      return Undefined, [];
    }
    status := Accepted;
    fields := [Fields(line.uri.value, line.expires.value, line.q.value, line.key.value, line.updated.value,
                      line.callId.value, line.cseq.value, line.alias.value == "true", paths, accepts)];
    assert [] + ListAt(ts, 11) == ListAt(ts, 11);
  }

  /** RecordSerializerC::parse. */
  method Parse(text: string) returns (r: Result)
    ensures r == Parsed(text)
  {
    var rc := new Scanner(text);
    r := ReadContacts(rc, Split(text, '#'), Parsed(text));
  }

  method ReadContacts(rc: Scanner, ghost tokens: seq<string>, ghost all: Result) returns (r: Result)
    requires rc.Valid() && rc.Left('#') == tokens && all == ParseTokens(tokens, [])
    modifies rc, rc.buffer
    ensures r == all
  {
    var added := [];
    ghost var ts := tokens;
    var empty := Next(rc, '#', ts, 0);
    while empty.Some?
      invariant rc.Valid()
      invariant empty == TokenAt(ts, 0) && rc.Left('#') == Drop(ts, 1)
      invariant ParseTokens(ts, added) == all
      decreases |ts|
    {
      var line := ReadLine(rc, ts);
      var status, fields := ReadContact(empty.value, line, ts);
      if status != Accepted {
        return Result(status, added);
      }
      added := added + fields;
      ts := Drop(ts, 13);
      empty := Next(rc, '#', ts, 0);
    }
    r := Result(Accepted, added);
  }

  predicate Missing(token: Option<string>)
  {
    token.None? || token.value == ""
  }

  method JoinList(items: seq<string>) returns (text: string)
    ensures text == Join(items, ',')
  {
    text := "";
    for i := 0 to |items|
      invariant text == Join(items[..i], ',')
    {
      JoinAppend(items[..i], items[i], ',');
      assert items[..i + 1] == items[..i] + [items[i]];
      if i != 0 {
        text := text + ",";
      }
      text := text + items[i];
    }
    assert items[..|items|] == items;
  }

  lemma {:induction false} JoinAppend(parts: seq<string>, part: string, sep: char)
    ensures Join(parts + [part], sep) == if parts == [] then part else Join(parts, sep) + [sep] + part
  {
    if parts != [] {
      JoinAppend(parts[1..], part, sep);
      assert (parts + [part])[1..] == parts[1..] + [part];
    }
  }

  lemma {:induction false} JoinBoth(a: seq<string>, b: seq<string>, sep: char)
    requires a != [] && b != []
    ensures Join(a + b, sep) == Join(a, sep) + [sep] + Join(b, sep)
  {
    if |a| == 1 {
      assert (a + b)[1..] == b;
    } else {
      assert (a + b)[1..] == a[1..] + b;
      JoinBoth(a[1..], b, sep);
    }
  }

  lemma {:induction false} AllTokensAppend(cs: seq<Contact>, c: Contact)
    ensures AllTokens(cs + [c]) == AllTokens(cs) + Tokens(c)
  {
    if cs == [] {
      assert AllTokens([c]) == Tokens(c) + AllTokens([]);
    } else {
      AllTokensAppend(cs[1..], c);
      assert (cs + [c])[1..] == cs[1..] + [c];
    }
  }

  /** RecordSerializerC::serialize. */
  method Serialize(contacts: seq<Contact>) returns (text: string)
    ensures text == Serialized(contacts)
  {
    text := "";
    for i := 0 to |contacts|
      invariant text == Serialized(contacts[..i])
    {
      var c := contacts[i];
      AllTokensAppend(contacts[..i], c);
      assert contacts[..i + 1] == contacts[..i] + [c];
      var one := SerializeContact(c);
      if i != 0 {
        JoinBoth(AllTokens(contacts[..i]), Tokens(c), '#');
        text := text + "#";
      } else {
        assert AllTokens(contacts[..i]) + Tokens(c) == Tokens(c);
      }
      text := text + one;
    }
    assert contacts[..|contacts|] == contacts;
  }

  /** Writes one more of the tokens `ts`. */
  method Put(text: string, x: string, ghost ts: seq<string>, ghost k: nat) returns (r: string)
    requires 0 < k < |ts| && x == ts[k] && text == Upto(ts, k - 1)
    ensures r == Upto(ts, k)
  {
    r := text + "#" + x;
  }

  method PutFour(text: string, a: string, b: string, c: string, d: string, ghost ts: seq<string>, ghost k: nat)
    returns (r: string)
    requires 0 < k && k + 3 < |ts| && a == ts[k] && b == ts[k + 1] && c == ts[k + 2] && d == ts[k + 3]
    requires text == Upto(ts, k - 1)
    ensures r == Upto(ts, k + 3)
  {
    r := Put(text, a, ts, k);
    r := Put(r, b, ts, k + 1);
    r := Put(r, c, ts, k + 2);
    r := Put(r, d, ts, k + 3);
  }

  method SerializeContact(c: Contact) returns (text: string)
    ensures text == Join(Tokens(c), '#')
  {
    ghost var ts := Tokens(c);
    text := PutFour("", c.uri, c.expires, c.q, c.id, ts, 1);
    text := PutFour(text, "", c.key, c.updated, c.callId, ts, 5);
    var path := JoinList(c.path);
    var accept := JoinList(c.accept);
    text := PutFour(text, c.cseq, if c.alias then "true" else "false", path, accept, ts, 9);
    UptoIs(ts, 12);
  }
}
