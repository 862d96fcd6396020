/**
 * The JSON text Python's `json` module writes with its defaults
 * (`ensure_ascii=True`): the compact form `json.dump(obj, f)` (items
 * separated by `", "`, keys by `": "`) and the `indent=4` form for a flat
 * object of strings. Each writer is paired with a reader that recovers what
 * was written, so the writers lose nothing (RFC 8259, sections 4 and 7).
 */
module Json {
  import opened Results
  import opened Hex
  import opened Decimal

  datatype Json =
    | JNum(n: int)
    | JStr(str: string)
    | JArr(items: seq<Json>)
    | JObj(members: seq<(string, Json)>)

  predicate IsPrintableAscii(s: string) {
    forall c :: c in s ==> ' ' <= c <= '~'
  }

  predicate IsAscii(s: string) {
    forall c :: c in s ==> c as int < 128
  }

  /** Four lowercase hex digits, as Python's `'{0:04x}'.format(n)`. */
  function Hex4(n: nat): (s: string)
    requires n < 0x1_0000
    ensures |s| == 4 && IsLowerHex(s) && IsPrintableAscii(s)
  {
    [HexDigit(n / 16 / 16 / 16), HexDigit(n / 16 / 16 % 16), HexDigit(n / 16 % 16), HexDigit(n % 16)]
  }

  /** The value of four lowercase hex digits, most significant first. */
  function Hex4Value(s: string): nat
    requires |s| == 4 && IsLowerHex(s)
  {
    ((HexValue(s[0]) * 16 + HexValue(s[1])) * 16 + HexValue(s[2])) * 16 + HexValue(s[3])
  }

  lemma Hex4RoundTrip(n: nat)
    requires n < 0x1_0000
    ensures Hex4Value(Hex4(n)) == n
  {
    var n1 := n / 16;
    var n2 := n1 / 16;
    HexValueOfDigit(n2 / 16);
    HexValueOfDigit(n2 % 16);
    HexValueOfDigit(n1 % 16);
    HexValueOfDigit(n % 16);
    assert n2 == (n2 / 16) * 16 + n2 % 16;
    assert n1 == n2 * 16 + n1 % 16;
    assert n == n1 * 16 + n % 16;
  }

  /** The UTF-16 high surrogate of a code point above the basic plane. */
  function HighSurrogate(n: int): int {
    0xD800 + (n - 0x1_0000) / 0x400
  }

  /** The UTF-16 low surrogate of a code point above the basic plane. */
  function LowSurrogate(n: int): int {
    0xDC00 + (n - 0x1_0000) % 0x400
  }

  /**
   * How `ensure_ascii` escapes one character: the two-character escapes for
   * backslash, quote, backspace, form feed, newline, carriage return and
   * tab; printable ASCII as itself; everything else as `\uXXXX`, with a
   * UTF-16 surrogate pair for characters beyond U+FFFF.
   */
  function EscapeChar(c: char): string
  {
    var n := c as int;
    if c == '\\' then "\\\\"
    else if c == '"' then "\\\""
    else if n == 8 then "\\b"
    else if n == 12 then "\\f"
    else if c == '\n' then "\\n"
    else if c == '\r' then "\\r"
    else if c == '\t' then "\\t"
    else if 0x20 <= n <= 0x7E then [c]
    else if n < 0x1_0000 then "\\u" + Hex4(n)
    else "\\u" + Hex4(HighSurrogate(n)) + "\\u" + Hex4(LowSurrogate(n))
  }

  /** The parts joined end to end, as `"".join(parts)`. */
  function Concat(parts: seq<string>): string {
    if parts == [] then "" else parts[0] + Concat(parts[1..])
  }

  /** Each character replaced by its escape, as `py_encode_basestring_ascii` does. */
  function Escape(s: string): string {
    Concat(seq(|s|, i requires 0 <= i < |s| => EscapeChar(s[i])))
  }

  lemma EscapeCons(s: string)
    requires s != []
    ensures Escape(s) == EscapeChar(s[0]) + Escape(s[1..])
  {
    var parts := seq(|s|, i requires 0 <= i < |s| => EscapeChar(s[i]));
    assert parts[1..] == seq(|s[1..]|, i requires 0 <= i < |s[1..]| => EscapeChar(s[1..][i]));
  }

  /** A JSON string literal. */
  function Quote(s: string): string {
    "\"" + Escape(s) + "\""
  }

  /** Escaping leaves nothing but printable ASCII. */
  lemma {:induction false} EscapeIsPrintable(s: string)
    ensures IsPrintableAscii(Escape(s))
  {
    if s != [] {
      EscapeCons(s);
      EscapeIsPrintable(s[1..]);
    }
  }

  lemma QuoteIsPrintable(s: string)
    ensures IsPrintableAscii(Quote(s))
  {
    EscapeIsPrintable(s);
  }

  /** `json.dumps(j)`: the compact text `json.dump` writes. */
  function Dumps(j: Json): string
    decreases j, 1
  {
    match j
    case JNum(n) => IntToString(n)
    case JStr(str) => Quote(str)
    case JArr(items) => "[" + DumpsItems(items) + "]"
    case JObj(members) => "{" + DumpsMembers(j, members) + "}"
  }

  function DumpsItems(items: seq<Json>): string
    decreases items
  {
    if items == [] then ""
    else if |items| == 1 then Dumps(items[0])
    else Dumps(items[0]) + ", " + DumpsItems(items[1..])
  }

  /** The members of `parent`, an object; `parent` only serves termination. */
  function DumpsMembers(ghost parent: Json, members: seq<(string, Json)>): string
    requires forall m :: m in members ==> m.1 < parent
    decreases parent, 0, |members|
  {
    if members == [] then ""
    else if |members| == 1 then Quote(members[0].0) + ": " + Dumps(members[0].1)
    else Quote(members[0].0) + ": " + Dumps(members[0].1) + ", " + DumpsMembers(parent, members[1..])
  }

  /** The compact text is printable ASCII whatever the strings inside it hold. */
  lemma {:induction false} DumpsIsPrintable(j: Json)
    ensures IsPrintableAscii(Dumps(j))
    decreases j, 1
  {
    match j
    case JNum(n) =>
    case JStr(str) => QuoteIsPrintable(str);
    case JArr(items) => DumpsItemsIsPrintable(items);
    case JObj(members) => DumpsMembersIsPrintable(j, members);
  }

  lemma {:induction false} DumpsItemsIsPrintable(items: seq<Json>)
    ensures IsPrintableAscii(DumpsItems(items))
    decreases items
  {
    if items != [] {
      DumpsIsPrintable(items[0]);
      if |items| > 1 {
        DumpsItemsIsPrintable(items[1..]);
      }
    }
  }

  lemma {:induction false} DumpsMembersIsPrintable(parent: Json, members: seq<(string, Json)>)
    requires forall m :: m in members ==> m.1 < parent
    ensures IsPrintableAscii(DumpsMembers(parent, members))
    decreases parent, 0, |members|
  {
    if members != [] {
      QuoteIsPrintable(members[0].0);
      DumpsIsPrintable(members[0].1);
      if |members| > 1 {
        DumpsMembersIsPrintable(parent, members[1..]);
      }
    }
  }

  /**
   * `json.dump(m, f, indent=4)` for an object whose values are strings:
   * each member on its own line indented by four spaces, members separated
   * by `","`, keys by `": "`, the closing brace on a line of its own and no
   * trailing newline; `{}` when empty.
   */
  function DumpsIndent4(members: seq<(string, string)>): string {
    if members == [] then "{}" else "{\n    " + Indent4Tail(members)
  }

  /** The member lines and the closing brace that follow `{\n    `. */
  function Indent4Tail(members: seq<(string, string)>): string
    requires members != []
  {
    Quote(members[0].0) + ": " + Quote(members[0].1)
    + if |members| == 1 then "\n}" else ",\n    " + Indent4Tail(members[1..])
  }

  lemma {:induction false} Indent4TailIsAscii(members: seq<(string, string)>)
    requires members != []
    ensures IsAscii(Indent4Tail(members))
  {
    QuoteIsPrintable(members[0].0);
    QuoteIsPrintable(members[0].1);
    if |members| > 1 {
      Indent4TailIsAscii(members[1..]);
    }
  }

  /** The `indent=4` text is ASCII, so writing it in text mode yields one byte per character. */
  lemma DumpsIndent4IsAscii(members: seq<(string, string)>)
    ensures IsAscii(DumpsIndent4(members))
  {
    if members != [] {
      Indent4TailIsAscii(members);
    }
  }

  /** The first member with the given key, as a Python dict lookup on distinct keys. */
  function Member(j: Json, key: string): (r: Option<Json>)
    ensures r.Some? ==> j.JObj? && exists i :: 0 <= i < |j.members| && j.members[i] == (key, r.value)
  {
    if j.JObj? then FirstWithKey(j.members, key) else None
  }

  function FirstWithKey<V>(members: seq<(string, V)>, key: string): (r: Option<V>)
    ensures r.Some? <==> exists i :: 0 <= i < |members| && members[i].0 == key
    ensures r.Some? ==> exists i :: 0 <= i < |members| && members[i] == (key, r.value)
  {
    if members == [] then None
    else if members[0].0 == key then Some(members[0].1)
    else FirstWithKey(members[1..], key)
  }

  /** The keys of an object's members, in order. */
  function Keys<V>(members: seq<(string, V)>): (ks: seq<string>)
    ensures |ks| == |members| && forall i :: 0 <= i < |members| ==> ks[i] == members[i].0
  {
    seq(|members|, i requires 0 <= i < |members| => members[i].0)
  }

  predicate Distinct<T(==)>(s: seq<T>) {
    forall i, j :: 0 <= i < j < |s| ==> s[i] != s[j]
  }

  /** With distinct keys, looking up member `i`'s key finds member `i`. */
  lemma {:induction false} FirstWithKeyDistinct<V>(members: seq<(string, V)>, i: nat)
    requires i < |members| && Distinct(Keys(members))
    ensures FirstWithKey(members, members[i].0) == Some(members[i].1)
  {
    if i > 0 {
      assert Keys(members)[0] != Keys(members)[i];
      assert Keys(members[1..]) == Keys(members)[1..];
      FirstWithKeyDistinct(members[1..], i - 1);
    }
  }

  /** Looking up member `i`'s key finds member `i` when no earlier member has that key. */
  lemma {:induction false} FirstWithKeyAt<V>(members: seq<(string, V)>, i: nat)
    requires i < |members| && forall j :: 0 <= j < i ==> members[j].0 != members[i].0
    ensures FirstWithKey(members, members[i].0) == Some(members[i].1)
  {
    if i > 0 {
      assert members[0].0 != members[i].0;
      FirstWithKeyAt(members[1..], i - 1);
    }
  }

  // ---------------------------------------------------------------------
  // Reading back.

  /** Reads four lowercase hex digits at the front of `t`. */
  function ReadHex4(t: string): (r: Option<nat>)
    ensures r.Some? ==> |t| >= 4 && r.value < 0x1_0000
  {
    if |t| >= 4 && IsLowerHex(t[..4]) then Some(Hex4Value(t[..4])) else None
  }

  /** Reads one character of a string literal's body, undoing EscapeChar. */
  function ReadChar(t: string): (r: Option<(char, string)>)
    ensures r.Some? ==> |r.value.1| < |t|
  {
    if t == [] || t[0] == '"' then None
    else if t[0] != '\\' then Some((t[0], t[1..]))
    else if |t| < 2 then None
    else if t[1] == '\\' then Some(('\\', t[2..]))
    else if t[1] == '"' then Some(('"', t[2..]))
    else if t[1] == 'b' then Some((8 as char, t[2..]))
    else if t[1] == 'f' then Some((12 as char, t[2..]))
    else if t[1] == 'n' then Some(('\n', t[2..]))
    else if t[1] == 'r' then Some(('\r', t[2..]))
    else if t[1] == 't' then Some(('\t', t[2..]))
    else if t[1] != 'u' then None
    else
      match ReadHex4(t[2..])
      case None => None
      case Some(hi) =>
        if 0xDC00 <= hi < 0xE000 then None
        else if hi < 0xD800 || 0xE000 <= hi then Some((hi as char, t[6..]))
        else if |t| < 8 || t[6..8] != "\\u" then None
        else
          match ReadHex4(t[8..])
          case None => None
          case Some(lo) =>
            if 0xDC00 <= lo < 0xE000
            then Some(((0x1_0000 + (hi - 0xD800) * 0x400 + (lo - 0xDC00)) as char, t[12..]))
            else None
  }

  /** Reads a string literal's body up to and including its closing quote. */
  function ReadBody(t: string): (r: Option<(string, string)>)
    ensures r.Some? ==> |r.value.1| < |t|
    decreases |t|
  {
    if t != [] && t[0] == '"' then Some(("", t[1..]))
    else
      match ReadChar(t)
      case None => None
      case Some((c, rest)) =>
        match ReadBody(rest)
        case None => None
        case Some((s, after)) => Some(([c] + s, after))
  }

  /** Reads a string literal at the front of `t`. */
  function ReadQuoted(t: string): (r: Option<(string, string)>)
    ensures r.Some? ==> |r.value.1| < |t|
  {
    if t != [] && t[0] == '"' then ReadBody(t[1..]) else None
  }

  lemma ReadEscapeShort(c: char, rest: string)
    requires c == '\\' || c == '"' || c as int == 8 || c as int == 12 || c == '\n' || c == '\r' || c == '\t'
    ensures ReadChar(EscapeChar(c) + rest) == Some((c, rest))
  {
    var t := EscapeChar(c) + rest;
    assert |EscapeChar(c)| == 2 && t[0] == '\\';
    assert t[2..] == rest;
  }

  lemma ReadEscapePrintable(c: char, rest: string)
    requires 0x20 <= c as int <= 0x7E && c != '\\' && c != '"'
    ensures ReadChar(EscapeChar(c) + rest) == Some((c, rest))
  {
    var t := EscapeChar(c) + rest;
    assert EscapeChar(c) == [c];
    assert t[1..] == rest;
  }

  lemma ReadHex4Hex4(n: nat, rest: string)
    requires n < 0x1_0000
    ensures ReadHex4(Hex4(n) + rest) == Some(n)
  {
    assert (Hex4(n) + rest)[..4] == Hex4(n);
    Hex4RoundTrip(n);
  }

  lemma ReadEscapeBmp(c: char, rest: string)
    requires (c as int < 0x20 || 0x7E < c as int < 0x1_0000)
    requires c as int != 8 && c as int != 12 && c != '\n' && c != '\r' && c != '\t'
    ensures ReadChar(EscapeChar(c) + rest) == Some((c, rest))
  {
    var n := c as int;
    var t := EscapeChar(c) + rest;
    assert t == "\\u" + (Hex4(n) + rest);
    ReadHex4Hex4(n, rest);
    assert t[2..] == Hex4(n) + rest;
    assert t[6..] == rest;
  }

  /** The surrogate pair of a code point above the basic plane, and back. */
  lemma SurrogatePair(n: int)
    requires 0x1_0000 <= n < 0x11_0000
    ensures 0xD800 <= HighSurrogate(n) < 0xDC00
    ensures 0xDC00 <= LowSurrogate(n) < 0xE000
    ensures 0x1_0000 + (HighSurrogate(n) - 0xD800) * 0x400 + (LowSurrogate(n) - 0xDC00) == n
  {
    var m := n - 0x1_0000;
    assert m == m / 0x400 * 0x400 + m % 0x400;
  }

  /** A `\\uXXXX\\uXXXX` pair of a high and a low surrogate reads back as one code point. */
  lemma ReadSurrogates(hi: nat, lo: nat, rest: string)
    requires 0xD800 <= hi < 0xDC00 && 0xDC00 <= lo < 0xE000
    ensures ReadChar("\\u" + Hex4(hi) + "\\u" + Hex4(lo) + rest)
         == Some(((0x1_0000 + (hi - 0xD800) * 0x400 + (lo - 0xDC00)) as char, rest))
  {
    var tail := "\\u" + (Hex4(lo) + rest);
    var t := "\\u" + Hex4(hi) + "\\u" + Hex4(lo) + rest;
    assert t == "\\u" + (Hex4(hi) + tail);
    ReadHex4Hex4(hi, tail);
    ReadHex4Hex4(lo, rest);
    assert t[2..] == Hex4(hi) + tail;
    assert t[6..] == tail;
    assert t[8..] == Hex4(lo) + rest;
    assert t[12..] == rest;
  }

  lemma ReadEscapeAstral(c: char, rest: string)
    requires 0x1_0000 <= c as int
    ensures ReadChar(EscapeChar(c) + rest) == Some((c, rest))
  {
    var n := c as int;
    SurrogatePair(n);
    assert EscapeChar(c) == "\\u" + Hex4(HighSurrogate(n)) + "\\u" + Hex4(LowSurrogate(n));
    ReadSurrogates(HighSurrogate(n), LowSurrogate(n), rest);
  }

  /** Every escaped character reads back as itself. */
  lemma ReadEscapeChar(c: char, rest: string)
    ensures ReadChar(EscapeChar(c) + rest) == Some((c, rest))
  {
    var n := c as int;
    if c == '\\' || c == '"' || n == 8 || n == 12 || c == '\n' || c == '\r' || c == '\t' {
      ReadEscapeShort(c, rest);
    } else if 0x20 <= n <= 0x7E {
      ReadEscapePrintable(c, rest);
    } else if n < 0x1_0000 {
      ReadEscapeBmp(c, rest);
    } else {
      ReadEscapeAstral(c, rest);
    }
  }

  lemma {:induction false} ReadBodyEscape(s: string, rest: string)
    ensures ReadBody(Escape(s) + "\"" + rest) == Some((s, rest))
  {
    var t := Escape(s) + "\"" + rest;
    if s == [] {
      assert t[1..] == rest;
    } else {
      var tail := Escape(s[1..]) + "\"" + rest;
      EscapeCons(s);
      assert t == EscapeChar(s[0]) + tail;
      ReadEscapeChar(s[0], tail);
      ReadBodyEscape(s[1..], rest);
      assert [s[0]] + s[1..] == s;
    }
  }

  /** A quoted string reads back as itself, leaving whatever follows it. */
  lemma ReadQuotedQuote(s: string, rest: string)
    ensures ReadQuoted(Quote(s) + rest) == Some((s, rest))
  {
    var t := Quote(s) + rest;
    assert t[1..] == Escape(s) + "\"" + rest;
    ReadBodyEscape(s, rest);
  }

  /** The length of the run of decimal digits at the front of `t`. */
  function DigitRun(t: string): (n: nat)
    ensures n <= |t| && AllDigits(t[..n])
  {
    if t != [] && IsDigit(t[0]) then
      var n := 1 + DigitRun(t[1..]);
      assert t[..n] == [t[0]] + t[1..][..n - 1];
      n
    else 0
  }

  /** Reads an integer at the front of `t`: an optional minus sign and the digits after it. */
  function ReadNumber(t: string): (r: Option<(int, string)>)
    ensures r.Some? ==> |r.value.1| < |t|
  {
    var negative := t != [] && t[0] == '-';
    var body := if negative then t[1..] else t;
    var n := DigitRun(body);
    if n == 0 then None
    else
      var v: int := DigitsValue(body[..n]);
      Some((if negative then -v else v, body[n..]))
  }

  /** Reads one value of the compact form at the front of `t`. */
  function ReadValue(t: string): (r: Option<(Json, string)>)
    ensures r.Some? ==> |r.value.1| < |t|
    decreases |t|, 1
  {
    if t == [] then None
    else if t[0] == '"' then
      match ReadQuoted(t)
      case None => None
      case Some((str, rest)) => Some((JStr(str), rest))
    else if t[0] == '[' then
      if |t| >= 2 && t[1] == ']' then Some((JArr([]), t[2..]))
      else
        match ReadItems(t[1..])
        case None => None
        case Some((items, rest)) => Some((JArr(items), rest))
    else if t[0] == '{' then
      if |t| >= 2 && t[1] == '}' then Some((JObj([]), t[2..]))
      else
        match ReadMembers(t[1..])
        case None => None
        case Some((members, rest)) => Some((JObj(members), rest))
    else
      match ReadNumber(t)
      case None => None
      case Some((n, rest)) => Some((JNum(n), rest))
  }

  /** Reads the items of a non-empty array after its `[`, up to and including the closing `]`. */
  function ReadItems(t: string): (r: Option<(seq<Json>, string)>)
    ensures r.Some? ==> |r.value.1| < |t|
    decreases |t|, 2
  {
    match ReadValue(t)
    case None => None
    case Some((v, t1)) =>
      if t1 != [] && t1[0] == ']' then Some(([v], t1[1..]))
      else if |t1| >= 2 && t1[..2] == ", " then
        match ReadItems(t1[2..])
        case None => None
        case Some((more, t2)) => Some(([v] + more, t2))
      else None
  }

  /** Reads one member of an object: a key, `: ` and a value. */
  function ReadMember(t: string): (r: Option<((string, Json), string)>)
    ensures r.Some? ==> |r.value.1| < |t|
    decreases |t|, 2
  {
    match ReadQuoted(t)
    case None => None
    case Some((key, t1)) =>
      if |t1| < 2 || t1[..2] != ": " then None
      else
        match ReadValue(t1[2..])
        case None => None
        case Some((v, t2)) => Some(((key, v), t2))
  }

  /** Reads the members of a non-empty object after its `{`, up to and including the closing `}`. */
  function ReadMembers(t: string): (r: Option<(seq<(string, Json)>, string)>)
    ensures r.Some? ==> |r.value.1| < |t|
    decreases |t|, 3
  {
    match ReadMember(t)
    case None => None
    case Some((m, t1)) =>
      if t1 != [] && t1[0] == '}' then Some(([m], t1[1..]))
      else if |t1| >= 2 && t1[..2] == ", " then
        match ReadMembers(t1[2..])
        case None => None
        case Some((more, t2)) => Some(([m] + more, t2))
      else None
  }

  /** Reads a whole compact JSON text: one value and nothing after it. */
  function ReadJson(t: string): Option<Json> {
    match ReadValue(t)
    case None => None
    case Some((j, rest)) => if rest == [] then Some(j) else None
  }

  /** Text that cannot continue a number: nothing, or something other than a digit. */
  predicate EndsNumber(rest: string) {
    rest == [] || !IsDigit(rest[0])
  }

  lemma {:induction false} DigitRunDigits(s: string, rest: string)
    requires AllDigits(s) && EndsNumber(rest)
    ensures DigitRun(s + rest) == |s|
  {
    if s != [] {
      assert (s + rest)[1..] == s[1..] + rest;
      DigitRunDigits(s[1..], rest);
    }
  }

  /** Digits, with or without a minus sign before them, read back as their value. */
  lemma ReadNumberBody(t: string, negative: bool, digits: string, rest: string)
    requires digits != [] && AllDigits(digits) && EndsNumber(rest)
    requires negative ==> |t| >= 1 && t[0] == '-' && t[1..] == digits + rest
    requires !negative ==> t == digits + rest
    ensures ReadNumber(t) == Some((if negative then -(DigitsValue(digits) as int) else DigitsValue(digits), rest))
  {
    var body := digits + rest;
    assert body[0] == digits[0];
    DigitRunDigits(digits, rest);
    assert body[..|digits|] == digits && body[|digits|..] == rest;
  }

  /** An integer's text reads back as the integer, leaving what follows it. */
  lemma ReadNumberIntToString(n: int, rest: string)
    requires EndsNumber(rest)
    ensures ReadNumber(IntToString(n) + rest) == Some((n, rest))
  {
    var m := if n < 0 then -n else n;
    var digits := NatToString(m);
    var t := IntToString(n) + rest;
    if n < 0 {
      assert t == "-" + (digits + rest);
      assert t[1..] == digits + rest;
      ReadNumberBody(t, true, digits, rest);
    } else {
      ReadNumberBody(t, false, digits, rest);
    }
    NatToStringRoundTrip(m);
  }

  /** The compact text of a value starts with a character that closes no array or object. */
  lemma DumpsStart(j: Json)
    ensures Dumps(j) != [] && Dumps(j)[0] != ']' && Dumps(j)[0] != '}'
  {
    match j
    case JNum(n) =>
    case JStr(str) =>
    case JArr(items) =>
    case JObj(members) =>
  }

  lemma DumpsItemsStart(items: seq<Json>)
    requires items != []
    ensures DumpsItems(items) != [] && DumpsItems(items)[0] != ']'
  {
    var first := Dumps(items[0]);
    DumpsStart(items[0]);
    if |items| > 1 {
      var more := ", " + DumpsItems(items[1..]);
      assert DumpsItems(items) == first + more;
      assert (first + more)[0] == first[0];
    }
  }

  lemma DumpsMembersStart(parent: Json, members: seq<(string, Json)>)
    requires members != [] && forall m :: m in members ==> m.1 < parent
    ensures DumpsMembers(parent, members) != [] && DumpsMembers(parent, members)[0] == '"'
  {
    var k, v := members[0].0, members[0].1;
    assert members[0] in members;
    var line := Quote(k) + ": " + Dumps(v);
    assert DumpsMembers(parent, members)
           == line + (if |members| == 1 then "" else ", " + DumpsMembers(parent, members[1..]));
    assert line[0] == '"';
  }

  /** `[]` reads back as the empty array. */
  lemma ReadValueEmptyArray(rest: string)
    ensures ReadValue("[]" + rest) == Some((JArr([]), rest))
  {
    assert ("[]" + rest)[2..] == rest;
  }

  /** `[`, items and `]` read back as the array of those items. */
  lemma ReadValueArray(inner: string, items: seq<Json>, rest: string)
    requires inner != [] && inner[0] != ']'
    requires ReadItems(inner + "]" + rest) == Some((items, rest))
    ensures ReadValue("[" + inner + "]" + rest) == Some((JArr(items), rest))
  {
    var t := "[" + inner + "]" + rest;
    assert t[1] == inner[0];
    assert t[1..] == inner + "]" + rest;
    ReadValueOpen(t, '[', inner + "]" + rest);
  }

  /** `{}` reads back as the empty object. */
  lemma ReadValueEmptyObject(rest: string)
    ensures ReadValue("{}" + rest) == Some((JObj([]), rest))
  {
    assert ("{}" + rest)[2..] == rest;
  }

  /** `{`, members and `}` read back as the object of those members. */
  lemma ReadValueObject(inner: string, members: seq<(string, Json)>, rest: string)
    requires inner != [] && inner[0] == '"'
    requires ReadMembers(inner + "}" + rest) == Some((members, rest))
    ensures ReadValue("{" + inner + "}" + rest) == Some((JObj(members), rest))
  {
    var t := "{" + inner + "}" + rest;
    assert t[1] == inner[0];
    assert t[1..] == inner + "}" + rest;
    ReadValueOpen(t, '{', inner + "}" + rest);
  }

  /** At a `[` or `{` that does not open an empty array or object, the reading goes on after the bracket. */
  lemma ReadValueOpen(t: string, open: char, u: string)
    requires (open == '[' || open == '{') && |t| >= 2 && t[0] == open && t[1..] == u
    requires open == '[' ==> t[1] != ']'
    requires open == '{' ==> t[1] != '}'
    ensures open == '[' ==> ReadValue(t) == (if ReadItems(u).Some? then Some((JArr(ReadItems(u).value.0), ReadItems(u).value.1)) else None)
    ensures open == '{' ==> ReadValue(t) == (if ReadMembers(u).Some? then Some((JObj(ReadMembers(u).value.0), ReadMembers(u).value.1)) else None)
  {
  }

  /** The last item: a value followed by the closing `]`. */
  lemma ReadItemsLast(v: Json, s: string, rest: string)
    requires ReadValue(s + ("]" + rest)) == Some((v, "]" + rest))
    ensures ReadItems(s + "]" + rest) == Some(([v], rest))
  {
    assert s + "]" + rest == s + ("]" + rest);
    assert ("]" + rest)[1..] == rest;
  }

  /** An item followed by `, ` and more items. */
  lemma ReadItemsNext(v: Json, s: string, more: string, vs: seq<Json>, rest: string)
    requires ReadValue(s + (", " + more)) == Some((v, ", " + more))
    requires ReadItems(more) == Some((vs, rest))
    ensures ReadItems(s + ", " + more) == Some(([v] + vs, rest))
  {
    assert s + ", " + more == s + (", " + more);
    assert (", " + more)[..2] == ", " && (", " + more)[2..] == more;
  }

  /** A key, `: ` and a value read back as that member. */
  lemma ReadMemberQuote(k: string, v: Json, s: string, tail: string)
    requires ReadValue(s + tail) == Some((v, tail))
    ensures ReadMember(Quote(k) + ": " + s + tail) == Some(((k, v), tail))
  {
    var after := ": " + (s + tail);
    assert ReadQuoted(Quote(k) + after) == Some((k, after)) by {
      ReadQuotedQuote(k, after);
    }
    assert Quote(k) + ": " + s + tail == Quote(k) + after;
    assert after[..2] == ": " && after[2..] == s + tail;
  }

  /** The last member: a member followed by the closing `}`. */
  lemma ReadMembersLast(m: (string, Json), s: string, rest: string)
    requires ReadMember(s + ("}" + rest)) == Some((m, "}" + rest))
    ensures ReadMembers(s + "}" + rest) == Some(([m], rest))
  {
    assert s + "}" + rest == s + ("}" + rest);
    assert ("}" + rest)[1..] == rest;
  }

  /** A member followed by `, ` and more members. */
  lemma ReadMembersNext(m: (string, Json), s: string, more: string, ms: seq<(string, Json)>, rest: string)
    requires ReadMember(s + (", " + more)) == Some((m, ", " + more))
    requires ReadMembers(more) == Some((ms, rest))
    ensures ReadMembers(s + ", " + more) == Some(([m] + ms, rest))
  {
    assert s + ", " + more == s + (", " + more);
    assert (", " + more)[..2] == ", " && (", " + more)[2..] == more;
  }

  /** The compact text of any value reads back as that value, leaving what follows it. */
  lemma {:induction false} ReadValueDumps(j: Json, rest: string)
    requires EndsNumber(rest)
    ensures ReadValue(Dumps(j) + rest) == Some((j, rest))
    decreases j, 1
  {
    match j
    case JNum(n) =>
      ReadNumberIntToString(n, rest);
    case JStr(str) =>
      ReadQuotedQuote(str, rest);
    case JArr(items) =>
      if items == [] {
        assert Dumps(j) + rest == "[]" + rest;
        ReadValueEmptyArray(rest);
      } else {
        var inner := DumpsItems(items);
        assert Dumps(j) + rest == "[" + inner + "]" + rest;
        DumpsItemsStart(items);
        ReadItemsDumps(items, rest);
        ReadValueArray(inner, items, rest);
      }
    case JObj(members) =>
      if members == [] {
        assert Dumps(j) + rest == "{}" + rest;
        ReadValueEmptyObject(rest);
      } else {
        var inner := DumpsMembers(j, members);
        assert Dumps(j) + rest == "{" + inner + "}" + rest;
        DumpsMembersStart(j, members);
        ReadMembersDumps(j, members, rest);
        ReadValueObject(inner, members, rest);
      }
  }

  lemma {:induction false} ReadItemsDumps(items: seq<Json>, rest: string)
    requires items != []
    ensures ReadItems(DumpsItems(items) + "]" + rest) == Some((items, rest))
    decreases items
  {
    var v := items[0];
    if |items| == 1 {
      ReadValueDumps(v, "]" + rest);
      ReadItemsLast(v, Dumps(v), rest);
      assert items == [v];
    } else {
      var more := DumpsItems(items[1..]) + "]" + rest;
      ReadItemsDumps(items[1..], rest);
      ReadValueDumps(v, ", " + more);
      ReadItemsNext(v, Dumps(v), more, items[1..], rest);
      assert DumpsItems(items) + "]" + rest == Dumps(v) + ", " + more;
      assert items == [v] + items[1..];
    }
  }

  lemma {:induction false} ReadMembersDumps(parent: Json, members: seq<(string, Json)>, rest: string)
    requires members != [] && forall m :: m in members ==> m.1 < parent
    ensures ReadMembers(DumpsMembers(parent, members) + "}" + rest) == Some((members, rest))
    decreases parent, 0, |members|, 1
  {
    if |members| == 1 {
      ReadMembersDumpsLast(parent, members, rest);
    } else {
      ReadMembersDumpsNext(parent, members, rest);
    }
  }

  lemma {:induction false} ReadMembersDumpsLast(parent: Json, members: seq<(string, Json)>, rest: string)
    requires |members| == 1 && forall m :: m in members ==> m.1 < parent
    ensures ReadMembers(DumpsMembers(parent, members) + "}" + rest) == Some((members, rest))
    decreases parent, 0, |members|, 0
  {
    var k, v := members[0].0, members[0].1;
    assert members[0] in members;
    ReadValueDumps(v, "}" + rest);
    ReadMembersOne(k, v, Dumps(v), rest);
    assert DumpsMembers(parent, members) == Quote(k) + ": " + Dumps(v);
    assert members == [(k, v)];
  }

  lemma {:induction false} ReadMembersDumpsNext(parent: Json, members: seq<(string, Json)>, rest: string)
    requires |members| > 1 && forall m :: m in members ==> m.1 < parent
    ensures ReadMembers(DumpsMembers(parent, members) + "}" + rest) == Some((members, rest))
    decreases parent, 0, |members|, 0
  {
    var k, v := members[0].0, members[0].1;
    assert members[0] in members;
    var more := DumpsMembers(parent, members[1..]) + "}" + rest;
    assert ReadMembers(Quote(k) + ": " + Dumps(v) + ", " + more) == Some(([(k, v)] + members[1..], rest)) by {
      ReadMembersDumps(parent, members[1..], rest);
      ReadValueDumps(v, ", " + more);
      ReadMembersCons(k, v, Dumps(v), more, members[1..], rest);
    }
    DumpsMembersCons(parent, members, rest);
    assert members == [(k, v)] + members[1..];
  }

  /** A single member and the closing `}` read back as that member. */
  lemma ReadMembersOne(k: string, v: Json, s: string, rest: string)
    requires ReadValue(s + ("}" + rest)) == Some((v, "}" + rest))
    ensures ReadMembers(Quote(k) + ": " + s + "}" + rest) == Some(([(k, v)], rest))
  {
    var line := Quote(k) + ": " + s;
    ReadMemberQuote(k, v, s, "}" + rest);
    assert line + ("}" + rest) == Quote(k) + ": " + s + ("}" + rest);
    ReadMembersLast((k, v), line, rest);
  }

  /** A member, `, ` and more members read back as that member followed by the others. */
  lemma ReadMembersCons(k: string, v: Json, s: string, more: string, ms: seq<(string, Json)>, rest: string)
    requires ReadValue(s + (", " + more)) == Some((v, ", " + more))
    requires ReadMembers(more) == Some((ms, rest))
    ensures ReadMembers(Quote(k) + ": " + s + ", " + more) == Some(([(k, v)] + ms, rest))
  {
    var line := Quote(k) + ": " + s;
    ReadMemberQuote(k, v, s, ", " + more);
    assert line + (", " + more) == Quote(k) + ": " + s + (", " + more);
    ReadMembersNext((k, v), line, more, ms, rest);
  }

  /** The text of two or more members: the first member, `, `, then the others. */
  lemma DumpsMembersCons(parent: Json, members: seq<(string, Json)>, rest: string)
    requires |members| > 1 && forall m :: m in members ==> m.1 < parent
    ensures DumpsMembers(parent, members) + "}" + rest
         == Quote(members[0].0) + ": " + Dumps(members[0].1) + ", " + (DumpsMembers(parent, members[1..]) + "}" + rest)
  {
  }

  /** What `json.dump(obj, f)` writes reads back as `obj`: the compact form loses nothing. */
  lemma ReadJsonDumps(j: Json)
    ensures ReadJson(Dumps(j)) == Some(j)
  {
    ReadValueDumps(j, "");
    assert Dumps(j) + "" == Dumps(j);
  }

  /** Reads the members of an `indent=4` object after its opening `{\n    `. */
  function ReadIndent4Members(t: string): Option<seq<(string, string)>>
    decreases |t|
  {
    match ReadQuoted(t)
    case None => None
    case Some((key, t1)) =>
      if |t1| < 2 || t1[..2] != ": " then None
      else
        match ReadQuoted(t1[2..])
        case None => None
        case Some((value, t2)) =>
          if t2 == "\n}" then Some([(key, value)])
          else if |t2| >= 6 && t2[..6] == ",\n    " && |t2| < |t| then
            match ReadIndent4Members(t2[6..])
            case None => None
            case Some(more) => Some([(key, value)] + more)
          else None
  }

  /** Reads an `indent=4` flat object of strings. */
  function ReadIndent4(t: string): Option<seq<(string, string)>> {
    if t == "{}" then Some([])
    else if |t| >= 6 && t[..6] == "{\n    " then ReadIndent4Members(t[6..])
    else None
  }

  /** One member line reads back as its key and value, leaving what follows. */
  lemma ReadMemberLine(k: string, v: string, tail: string)
    ensures var t := Quote(k) + ": " + Quote(v) + tail;
      ReadQuoted(t) == Some((k, ": " + Quote(v) + tail))
      && ReadQuoted((": " + Quote(v) + tail)[2..]) == Some((v, tail))
      && |tail| < |t|
  {
    var rest := ": " + Quote(v) + tail;
    assert ReadQuoted(Quote(k) + ": " + Quote(v) + tail) == Some((k, rest)) by {
      assert Quote(k) + ": " + Quote(v) + tail == Quote(k) + rest;
      ReadQuotedQuote(k, rest);
    }
    assert ReadQuoted(rest[2..]) == Some((v, tail)) by {
      assert rest[2..] == Quote(v) + tail;
      ReadQuotedQuote(v, tail);
    }
  }

  /** Reading a member line followed by `tail`, in terms of `tail` alone. */
  lemma ReadIndent4MembersUnfold(k: string, v: string, tail: string)
    ensures ReadIndent4Members(Quote(k) + ": " + Quote(v) + tail) ==
      if tail == "\n}" then Some([(k, v)])
      else if |tail| >= 6 && tail[..6] == ",\n    " then
        match ReadIndent4Members(tail[6..])
        case None => None
        case Some(more) => Some([(k, v)] + more)
      else None
  {
    ReadMemberLine(k, v, tail);
  }

  /** The last member line reads back as that one member. */
  lemma ReadIndent4MembersLast(k: string, v: string)
    ensures ReadIndent4Members(Quote(k) + ": " + Quote(v) + "\n}") == Some([(k, v)])
  {
    ReadIndent4MembersUnfold(k, v, "\n}");
  }

  /** A member line followed by more members reads back as that member, then the rest. */
  lemma ReadIndent4MembersNext(k: string, v: string, more: string, rest: seq<(string, string)>)
    requires ReadIndent4Members(more) == Some(rest)
    ensures ReadIndent4Members(Quote(k) + ": " + Quote(v) + (",\n    " + more)) == Some([(k, v)] + rest)
  {
    var tail := ",\n    " + more;
    ReadIndent4MembersUnfold(k, v, tail);
    assert tail[..6] == ",\n    ";
    assert tail[6..] == more;
    assert tail != "\n}" by { assert |tail| > 2; }
  }

  lemma {:induction false} ReadIndent4MembersRoundTrip(members: seq<(string, string)>)
    requires members != []
    ensures ReadIndent4Members(Indent4Tail(members)) == Some(members)
  {
    var k, v := members[0].0, members[0].1;
    if |members| == 1 {
      ReadIndent4MembersLast(k, v);
      assert members == [(k, v)];
    } else {
      var rest := members[1..];
      assert members == [(k, v)] + rest;
      assert Indent4Tail(members) == Quote(k) + ": " + Quote(v) + (",\n    " + Indent4Tail(rest));
      ReadIndent4MembersRoundTrip(rest);
      ReadIndent4MembersNext(k, v, Indent4Tail(rest), rest);
    }
  }

  /** What `json.dump(m, f, indent=4)` writes reads back as `m`, members in order. */
  lemma ReadDumpsIndent4(members: seq<(string, string)>)
    ensures ReadIndent4(DumpsIndent4(members)) == Some(members)
  {
    if members != [] {
      var t := DumpsIndent4(members);
      assert t[6..] == Indent4Tail(members);
      ReadIndent4MembersRoundTrip(members);
    }
  }
}
