/**
  JSON values and the text that stands for them, as cJSON reads and writes it.

  A C string is its characters before the terminator.  `At` is the dereference of a
  pointer into it: the character, or NUL at the end.  A pointer is the text that is
  left to read.
  */
module JsonText {

  datatype Json =
    | Null
    | False
    | True
    | Number(n: int)
    | String(s: string)
    | Array(items: seq<Json>)
    | Object(members: seq<Member>)

  datatype Member = Member(name: string, value: Json)

  const INT_MIN := -0x8000_0000
  const INT_MAX := 0x7fff_ffff

  /** The trees the round trip is about: whole 32-bit numbers, NUL-free strings. */
  predicate Printable(v: Json)
  {
    match v
    case Number(n) => INT_MIN <= n <= INT_MAX
    case String(s) => '\0' !in s
    case Array(items) => forall i | 0 <= i < |items| :: Printable(items[i])
    case Object(ms) => forall i | 0 <= i < |ms| :: '\0' !in ms[i].name && Printable(ms[i].value)
    case _ => true
  }

  // ----- Writing -----

  function Digit(d: nat): char
    requires d < 10
  {
    '0' + d as char
  }

  /** "%d" for a number that is not negative. */
  function Decimal(n: nat): string
  {
    if n < 10 then [Digit(n)] else Decimal(n / 10) + [Digit(n % 10)]
  }

  function PrintNumber(n: int): string
  {
    if n < 0 then "-" + Decimal(-n) else Decimal(n)
  }

  function HexDigit(d: nat): char
    requires d < 16
  {
    if d < 10 then '0' + d as char else 'a' + (d - 10) as char
  }

  /** The second character of a two-character escape, or NUL if there is none for `c`. */
  function ShortEscape(c: char): char
  {
    match c
    case '\\' => '\\'
    case '\"' => '\"'
    case '\U{8}' => 'b'
    case '\U{C}' => 'f'
    case '\n' => 'n'
    case '\r' => 'r'
    case '\t' => 't'
    case _ => '\0'
  }

  function EscapeChar(c: char): string
  {
    if ShortEscape(c) != '\0' then ['\\', ShortEscape(c)]
    else if c < ' ' then ['\\', 'u', '0', '0', HexDigit(c as nat / 16), HexDigit(c as nat % 16)]
    else [c]
  }

  function Escape(s: string): string
  {
    if s == "" then "" else EscapeChar(s[0]) + Escape(s[1..])
  }

  function PrintString(s: string): string
  {
    "\"" + Escape(s) + "\""
  }

  function Tabs(n: nat): string
  {
    seq(n, _ => '\t')
  }

  function When(b: bool, s: string): string
  {
    if b then s else ""
  }

  /** The entries of an array, separated. */
  function JoinItems(entries: seq<string>, fmt: bool): string
  {
    if entries == [] then ""
    else if |entries| == 1 then entries[0]
    else entries[0] + "," + When(fmt, " ") + JoinItems(entries[1..], fmt)
  }

  /** The members of an object, each on its own line when formatted. */
  function JoinMembers(names: seq<string>, entries: seq<string>, depth: nat, fmt: bool): string
    requires |names| == |entries|
  {
    if entries == [] then ""
    else
      When(fmt, Tabs(depth)) + names[0] + ":" + When(fmt, "\t") + entries[0] +
      When(|entries| > 1, ",") + When(fmt, "\n") + JoinMembers(names[1..], entries[1..], depth, fmt)
  }

  function ArrayText(entries: seq<string>, fmt: bool): string
  {
    "[" + JoinItems(entries, fmt) + "]"
  }

  /** `depth` is the depth of the members, one more than that of the object. */
  function ObjectText(names: seq<string>, entries: seq<string>, depth: nat, fmt: bool): string
    requires |names| == |entries| && depth > 0
  {
    "{" + When(fmt, "\n") + JoinMembers(names, entries, depth, fmt) + When(fmt, Tabs(depth - 1)) + "}"
  }

  function PrintValue(v: Json, depth: nat, fmt: bool): string
    decreases v, 1
  {
    match v
    case Null => "null"
    case False => "false"
    case True => "true"
    case Number(n) => PrintNumber(n)
    case String(s) => PrintString(s)
    case Array(items) => ArrayText(PrintItems(items, depth + 1, fmt), fmt)
    case Object(ms) => ObjectText(PrintNames(ms), PrintMembers(ms, depth + 1, fmt), depth + 1, fmt)
  }

  function PrintItems(items: seq<Json>, depth: nat, fmt: bool): (texts: seq<string>)
    ensures |texts| == |items|
    decreases items, 0
  {
    if items == [] then [] else [PrintValue(items[0], depth, fmt)] + PrintItems(items[1..], depth, fmt)
  }

  function PrintMembers(ms: seq<Member>, depth: nat, fmt: bool): (texts: seq<string>)
    ensures |texts| == |ms|
    decreases ms, 0
  {
    if ms == [] then [] else [PrintValue(ms[0].value, depth, fmt)] + PrintMembers(ms[1..], depth, fmt)
  }

  function PrintNames(ms: seq<Member>): (texts: seq<string>)
    ensures |texts| == |ms|
  {
    if ms == [] then [] else [PrintString(ms[0].name)] + PrintNames(ms[1..])
  }

  // ----- Reading -----

  /** What a parsing function leaves: a value and the text after it; the place of the
      error, which cJSON keeps in `ep`; or `Undefined`, where C would read past the
      terminator, scan hexadecimal digits that are not there, or leave the whole
      32-bit numbers. */
  datatype Parsed<T> = Ok(value: T, rest: string) | Malformed(at: string) | Undefined {
    predicate IsFailure() { !Ok? }
    function PropagateFailure<U>(): Parsed<U>
      requires IsFailure()
    {
      if Malformed? then Malformed(at) else Undefined
    }
    function Extract(): (T, string)
      requires !IsFailure()
    {
      (value, rest)
    }
  }

  function At(s: string): char
  {
    if s == "" then '\0' else s[0]
  }

  function Skip(s: string): (r: string)
    ensures |r| <= |s|
  {
    if At(s) != '\0' && At(s) <= ' ' then Skip(s[1..]) else s
  }

  predicate IsDigit(c: char)
  {
    '0' <= c <= '9'
  }

  function DigitValue(c: char): nat
    requires IsDigit(c)
  {
    c as nat - '0' as nat
  }

  /** Reads digits onto the number read so far. */
  function ReadDigits(s: string, n: nat): (r: (nat, string))
    ensures |r.1| <= |s|
  {
    if IsDigit(At(s)) then ReadDigits(s[1..], 10 * n + DigitValue(s[0])) else (n, s)
  }

  /** Text after a number that would be read as its fraction or exponent. */
  predicate HasFraction(s: string)
  {
    (At(s) == '.' && IsDigit(At(s[1..]))) || At(s) == 'e' || At(s) == 'E'
  }

  /** The digits of a number: at most one leading zero, then a run that does not start with one. */
  function ReadWhole(s: string): (r: (nat, string))
    ensures |r.1| <= |s|
  {
    var t := if At(s) == '0' then s[1..] else s;
    if '1' <= At(t) <= '9' then ReadDigits(t, 0) else (0, t)
  }

  function ParseNumber(s: string): (r: Parsed<int>)
    ensures r.Ok? && (At(s) == '-' || IsDigit(At(s))) ==> |r.rest| < |s|
    ensures !r.Malformed?
  {
    var (n, t) := ReadWhole(if At(s) == '-' then s[1..] else s);
    var sign: int := if At(s) == '-' then -1 else 1;
    var v := sign * n;
    if HasFraction(t) || v < INT_MIN || v > INT_MAX then Undefined else Ok(v, t)
  }

  predicate IsHex(c: char)
  {
    IsDigit(c) || 'a' <= c <= 'f' || 'A' <= c <= 'F'
  }

  function HexValue(c: char): (d: nat)
    requires IsHex(c)
    ensures d < 16
  {
    if IsDigit(c) then c as nat - '0' as nat
    else if c <= 'F' then c as nat - 'A' as nat + 10
    else c as nat - 'a' as nat + 10
  }

  predicate StartsWithHex4(s: string)
  {
    |s| >= 4 && IsHex(s[0]) && IsHex(s[1]) && IsHex(s[2]) && IsHex(s[3])
  }

  function Hex4(s: string): (u: nat)
    requires StartsWithHex4(s)
    ensures u < 0x1_0000
  {
    ((HexValue(s[0]) * 16 + HexValue(s[1])) * 16 + HexValue(s[2])) * 16 + HexValue(s[3])
  }

  predicate IsHighSurrogate(u: nat)
  {
    0xD800 <= u <= 0xDBFF
  }

  predicate IsLowSurrogate(u: nat)
  {
    0xDC00 <= u <= 0xDFFF
  }

  /** The two halves of a pair put together: 0x10000 is or-ed in, not added. */
  function Combine(high: nat, low: nat): (u: nat)
    requires IsHighSurrogate(high) && IsLowSurrogate(low)
    ensures 0x1_0000 <= u < 0x11_0000
  {
    var bits := (high % 0x400) * 0x400 + low % 0x400;
    if (bits / 0x1_0000) % 2 == 1 then bits else bits + 0x1_0000
  }

  function Utf8(u: nat): (s: string)
    requires 0 < u < 0x11_0000
    ensures |s| == if u < 0x80 then 1 else if u < 0x800 then 2 else if u < 0x1_0000 then 3 else 4
  {
    var tail := (k: nat) requires k < 64 => (0x80 + k) as char;
    if u < 0x80 then [u as char]
    else if u < 0x800 then [(0xC0 + u / 64) as char, tail(u % 64)]
    else if u < 0x1_0000 then [(0xE0 + u / 4096) as char, tail(u / 64 % 64), tail(u % 64)]
    else [(0xF0 + u / 262144) as char, tail(u / 4096 % 64), tail(u / 64 % 64), tail(u % 64)]
  }

  /** What the character after a backslash stands for, other than 'u'. */
  function Unshort(c: char): char
  {
    match c
    case 'b' => '\U{8}'
    case 'f' => '\U{C}'
    case 'n' => '\n'
    case 'r' => '\r'
    case 't' => '\t'
    case _ => c
  }

  /** A backslash escape at the front of `s`: what it stands for, and the text after it. */
  function ReadEscape(s: string): (r: Parsed<string>)
    requires At(s) == '\\'
    ensures !r.Malformed?
    ensures r.Ok? ==> |r.rest| < |s|
  {
    var c := At(s[1..]);
    if c == '\0' then Undefined
    else if c != 'u' then Ok([Unshort(c)], s[2..])
    else if !StartsWithHex4(s[2..]) then Undefined
    else
      var u := Hex4(s[2..]);
      var t := s[6..];
      if IsLowSurrogate(u) || u == 0 then Ok("", t)
      else if !IsHighSurrogate(u) then Ok(Utf8(u), t)
      else if At(t) != '\\' || At(t[1..]) != 'u' then Ok("", t)
      else if !StartsWithHex4(t[2..]) then Undefined
      else if !IsLowSurrogate(Hex4(t[2..])) then Ok("", t[6..])
      else Ok(Utf8(Combine(u, Hex4(t[2..]))), t[6..])
  }

  function Prepend(s: string, r: Parsed<string>): Parsed<string>
  {
    if r.Ok? then Ok(s + r.value, r.rest) else r
  }

  /** The characters of a string up to its closing quote or, as cJSON accepts, the end of the text. */
  function Unescape(s: string): (r: Parsed<string>)
    ensures !r.Malformed?
    ensures r.Ok? ==> |r.rest| <= |s|
  {
    if At(s) == '\"' then Ok("", s[1..])
    else if At(s) == '\0' then Ok("", s)
    else if At(s) != '\\' then Prepend([s[0]], Unescape(s[1..]))
    else
      var (c, rest) :- ReadEscape(s);
      Prepend(c, Unescape(rest))
  }

  function ParseString(s: string): (r: Parsed<string>)
    ensures r.Ok? ==> |r.rest| < |s|
  {
    if At(s) != '\"' then Malformed(s) else Unescape(s[1..])
  }

  function ParseValue(s: string): (r: Parsed<Json>)
    ensures r.Ok? ==> |r.rest| < |s|
    decreases |s|, 1
  {
    if "null" <= s then Ok(Null, s[4..])
    else if "false" <= s then Ok(False, s[5..])
    else if "true" <= s then Ok(True, s[4..])
    else if At(s) == '\"' then
      var (v, rest) :- ParseString(s);
      Ok(String(v), rest)
    else if At(s) == '-' || IsDigit(At(s)) then
      var (n, rest) :- ParseNumber(s);
      Ok(Number(n), rest)
    else if At(s) == '[' then ParseArray(s)
    else if At(s) == '{' then ParseObject(s)
    else Malformed(s)
  }

  function ParseArray(s: string): (r: Parsed<Json>)
    requires At(s) == '['
    ensures r.Ok? ==> |r.rest| < |s|
    decreases |s|, 0
  {
    var t := Skip(s[1..]);
    if At(t) == ']' then Ok(Array([]), t[1..])
    else
      var (items, rest) :- ParseItems(t);
      Ok(Array(items), rest)
  }

  function ParseObject(s: string): (r: Parsed<Json>)
    requires At(s) == '{'
    ensures r.Ok? ==> |r.rest| < |s|
    decreases |s|, 0
  {
    var t := Skip(s[1..]);
    if At(t) == '}' then Ok(Object([]), t[1..])
    else
      var (members, rest) :- ParseMembers(t);
      Ok(Object(members), rest)
  }

  function Ahead<T>(done: seq<T>, r: Parsed<seq<T>>): Parsed<seq<T>>
  {
    if r.Ok? then Ok(done + r.value, r.rest) else r
  }

  /** One item and those after it, up to the closing bracket. */
  function ParseItems(s: string): (r: Parsed<seq<Json>>)
    ensures r.Ok? ==> |r.rest| < |s|
    decreases |s|, 2
  {
    var (v, rest) :- ParseValue(Skip(s));
    Ahead([v], MoreItems(Skip(rest)))
  }

  /** What is left of an array after one of its items. */
  function MoreItems(s: string): (r: Parsed<seq<Json>>)
    ensures r.Ok? ==> |r.rest| < |s|
    decreases |s|, 0
  {
    if At(s) == ',' then ParseItems(s[1..])
    else if At(s) == ']' then Ok([], s[1..])
    else Malformed(s)
  }

  /** A name, a colon and a value. */
  function ParseMember(s: string): (r: Parsed<Member>)
    ensures r.Ok? ==> |r.rest| < |s|
    decreases |s|, 2
  {
    var (name, rest) :- ParseString(Skip(s));
    AfterName(name, Skip(rest))
  }

  function AfterName(name: string, s: string): (r: Parsed<Member>)
    ensures r.Ok? ==> |r.rest| < |s|
    decreases |s|, 0
  {
    if At(s) != ':' then Malformed(s)
    else
      var (v, rest) :- ParseValue(Skip(s[1..]));
      Ok(Member(name, v), rest)
  }

  /** One member and those after it, up to the closing brace. */
  function ParseMembers(s: string): (r: Parsed<seq<Member>>)
    ensures r.Ok? ==> |r.rest| < |s|
    decreases |s|, 3
  {
    var (m, rest) :- ParseMember(s);
    Ahead([m], MoreMembers(Skip(rest)))
  }

  /** What is left of an object after one of its members. */
  function MoreMembers(s: string): (r: Parsed<seq<Member>>)
    ensures r.Ok? ==> |r.rest| < |s|
    decreases |s|, 0
  {
    if At(s) == ',' then ParseMembers(s[1..])
    else if At(s) == '}' then Ok([], s[1..])
    else Malformed(s)
  }

  // ----- The entry points -----

  /** cJSON_Parse: leading blanks are skipped, text after the value is not looked at. */
  function Parse(text: string): Parsed<Json>
  {
    ParseValue(Skip(text))
  }

  /** cJSON_Print and cJSON_PrintUnformatted. */
  function Print(v: Json, fmt: bool): string
  {
    PrintValue(v, 0, fmt)
  }
}
