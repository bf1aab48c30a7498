/**
 * JSON values with the compact printer and the RFC 8259 parser that the repair and
 * extraction scanners are judged against.
 *
 * Text is a sequence of Unicode scalar values. The scanners only ever test ASCII
 * characters, so a position counted in characters stands for the byte position of the code.
 * Members keep their order and their duplicates; `Lookup` reads an object the way a map
 * filled left to right does, so that the last duplicate wins.
 */
module Json {
  import opened Wrappers

  datatype Member = Member(key: string, value: Value)

  datatype Value =
    | Null
    | Bool(b: bool)
    | Number(lexeme: string)
    | Str(s: string)
    | Array(items: seq<Value>)
    | Object(members: seq<Member>)

  // ---------- Printing ----------

  function HexDigit(n: int): char
    requires 0 <= n < 16
  {
    if n < 10 then '0' + n as char else 'a' + (n - 10) as char
  }

  function EscapeChar(c: char): string {
    if c == '"' then "\\\""
    else if c == '\\' then "\\\\"
    else if c as int == 8 then "\\b"
    else if c as int == 12 then "\\f"
    else if c == '\n' then "\\n"
    else if c == '\r' then "\\r"
    else if c == '\t' then "\\t"
    else if c < ' ' then "\\u00" + [HexDigit(c as int / 16), HexDigit(c as int % 16)]
    else [c]
  }

  function Escape(s: string): string {
    if s == "" then "" else EscapeChar(s[0]) + Escape(s[1..])
  }

  function PrintString(s: string): string {
    "\"" + Escape(s) + "\""
  }

  function Print(v: Value): string
    decreases v
  {
    match v
    case Null => "null"
    case Bool(b) => if b then "true" else "false"
    case Number(lexeme) => lexeme
    case Str(s) => PrintString(s)
    case Array(items) => "[" + Join(ItemTexts(items)) + "]"
    case Object(members) => "{" + Join(MemberTexts(members)) + "}"
  }

  function ItemTexts(vs: seq<Value>): seq<string>
    decreases vs
  {
    seq(|vs|, i requires 0 <= i < |vs| => Print(vs[i]))
  }

  function PrintMember(m: Member): string
    decreases m
  {
    PrintString(m.key) + ":" + Print(m.value)
  }

  function MemberTexts(ms: seq<Member>): seq<string>
    decreases ms
  {
    seq(|ms|, i requires 0 <= i < |ms| => PrintMember(ms[i]))
  }

  /** The texts of a list's elements, separated by commas. */
  function Join(ss: seq<string>): string {
    if ss == [] then ""
    else if |ss| == 1 then ss[0]
    else ss[0] + "," + Join(ss[1..])
  }

  // ---------- Parsing ----------

  predicate IsWs(c: char) {
    c == ' ' || c == '\t' || c == '\n' || c == '\r'
  }

  predicate IsDigit(c: char) {
    '0' <= c <= '9'
  }

  function SkipWs(s: string): (t: string)
    ensures |t| <= |s|
    ensures t == "" || !IsWs(t[0])
  {
    if s != "" && IsWs(s[0]) then SkipWs(s[1..]) else s
  }

  function HexValue(c: char): (r: Option<int>)
    ensures r.Some? ==> 0 <= r.value < 16
  {
    if '0' <= c <= '9' then Some(c as int - '0' as int)
    else if 'a' <= c <= 'f' then Some(c as int - 'a' as int + 10)
    else if 'A' <= c <= 'F' then Some(c as int - 'A' as int + 10)
    else None
  }

  /** The code unit written as four hexadecimal digits at the front of `s`. */
  function Hex4(s: string): (r: Option<int>)
    ensures r.Some? ==> |s| >= 4 && 0 <= r.value < 0x1_0000
  {
    if |s| < 4 then None
    else
      match (HexValue(s[0]), HexValue(s[1]), HexValue(s[2]), HexValue(s[3]))
      case (Some(a), Some(b), Some(c), Some(d)) => Some(((a * 16 + b) * 16 + c) * 16 + d)
      case _ => None
  }

  /** The character an escape stands for and what follows it; `s` starts after the backslash. */
  function ParseEscape(s: string): (r: Option<(char, string)>)
    ensures r.Some? ==> |r.value.1| < |s|
  {
    if s == "" then None
    else if s[0] == '"' || s[0] == '\\' || s[0] == '/' then Some((s[0], s[1..]))
    else if s[0] == 'b' then Some((8 as char, s[1..]))
    else if s[0] == 'f' then Some((12 as char, s[1..]))
    else if s[0] == 'n' then Some(('\n', s[1..]))
    else if s[0] == 'r' then Some(('\r', s[1..]))
    else if s[0] == 't' then Some(('\t', s[1..]))
    else if s[0] == 'u' then
      match Hex4(s[1..])
      case None => None
      case Some(unit) =>
        if unit < 0xD800 || 0xE000 <= unit then Some((unit as char, s[5..]))
        else if 0xDC00 <= unit || |s| < 7 || s[5] != '\\' || s[6] != 'u' then None
        else
          match Hex4(s[7..])
          case None => None
          case Some(low) =>
            if 0xDC00 <= low < 0xE000
            then Some(((0x1_0000 + (unit - 0xD800) * 0x400 + (low - 0xDC00)) as char, s[11..]))
            else None
    else None
  }

  /** Reads a string body up to its closing quote; `s` starts after the opening quote. */
  function ParseString(s: string): (r: Option<(string, string)>)
    ensures r.Some? ==> |r.value.1| < |s|
    decreases |s|
  {
    if s == "" then None
    else if s[0] == '"' then Some(("", s[1..]))
    else if s[0] == '\\' then
      match ParseEscape(s[1..])
      case None => None
      case Some((c, rest)) => Push(c, ParseString(rest))
    else if s[0] < ' ' then None
    else Push(s[0], ParseString(s[1..]))
  }

  function Push(c: char, r: Option<(string, string)>): Option<(string, string)> {
    match r
    case None => None
    case Some((tail, rest)) => Some(([c] + tail, rest))
  }

  /** How far a number has been read: section 6 of RFC 8259 as an automaton. */
  datatype NumberState =
    | NumberStart | AfterMinus | AfterZero | InInteger | AfterPoint | InFraction
    | AfterE | AfterSign | InExponent

  function NextNumber(q: NumberState, c: char): (r: Option<NumberState>)
    ensures r.Some? ==> IsDigit(c) || c == '-' || c == '+' || c == '.' || c == 'e' || c == 'E'
  {
    match q
    case NumberStart => if c == '-' then Some(AfterMinus) else NextNumberInteger(c)
    case AfterMinus => NextNumberInteger(c)
    case AfterZero => NextNumberTail(c)
    case InInteger => if IsDigit(c) then Some(InInteger) else NextNumberTail(c)
    case AfterPoint => if IsDigit(c) then Some(InFraction) else None
    case InFraction =>
      if IsDigit(c) then Some(InFraction) else if c == 'e' || c == 'E' then Some(AfterE) else None
    case AfterE =>
      if IsDigit(c) then Some(InExponent) else if c == '+' || c == '-' then Some(AfterSign) else None
    case AfterSign => if IsDigit(c) then Some(InExponent) else None
    case InExponent => if IsDigit(c) then Some(InExponent) else None
  }

  function NextNumberInteger(c: char): Option<NumberState> {
    if c == '0' then Some(AfterZero) else if IsDigit(c) then Some(InInteger) else None
  }

  function NextNumberTail(c: char): Option<NumberState> {
    if c == '.' then Some(AfterPoint) else if c == 'e' || c == 'E' then Some(AfterE) else None
  }

  predicate CompleteNumber(q: NumberState) {
    q == AfterZero || q == InInteger || q == InFraction || q == InExponent
  }

  /** Reads on from state `q` as far as possible; what follows the number, if it is complete there. */
  function SkipNumber(s: string, q: NumberState): (r: Option<string>)
    ensures r.Some? ==> |r.value| <= |s| && (!CompleteNumber(q) ==> |r.value| < |s|)
  {
    if s != "" && NextNumber(q, s[0]).Some? then SkipNumber(s[1..], NextNumber(q, s[0]).value)
    else if CompleteNumber(q) then Some(s)
    else None
  }

  predicate IsNumber(lexeme: string) {
    SkipNumber(lexeme, NumberStart) == Some("")
  }

  function Literal(s: string, word: string, v: Value): (r: Option<(Value, string)>)
    requires word != ""
    ensures r.Some? ==> |r.value.1| < |s|
  {
    if word <= s then Some((v, s[|word|..])) else None
  }

  /** The value at the front of `s`, after white space, and what follows it. */
  function ParseValue(s: string): (r: Option<(Value, string)>)
    ensures r.Some? ==> |r.value.1| < |s|
    decreases |s|, 0
  {
    var t := SkipWs(s);
    if t == "" then None
    else if t[0] == 'n' then Literal(t, "null", Null)
    else if t[0] == 't' then Literal(t, "true", Bool(true))
    else if t[0] == 'f' then Literal(t, "false", Bool(false))
    else if t[0] == '"' then
      match ParseString(t[1..])
      case None => None
      case Some((body, rest)) => Some((Str(body), rest))
    else if t[0] == '[' then
      var u := SkipWs(t[1..]);
      if u != "" && u[0] == ']' then Some((Array([]), u[1..]))
      else
        match ParseItems(u)
        case None => None
        case Some((items, rest)) => Some((Array(items), rest))
    else if t[0] == '{' then
      var u := SkipWs(t[1..]);
      if u != "" && u[0] == '}' then Some((Object([]), u[1..]))
      else
        match ParseMembers(u)
        case None => None
        case Some((members, rest)) => Some((Object(members), rest))
    else
      match SkipNumber(t, NumberStart)
      case None => None
      case Some(rest) => Some((Number(t[..|t| - |rest|]), rest))
  }

  /** One or more values separated by commas, through the closing bracket. */
  function ParseItems(s: string): (r: Option<(seq<Value>, string)>)
    ensures r.Some? ==> |r.value.1| < |s|
    decreases |s|, 1
  {
    match ParseValue(s)
    case None => None
    case Some((v, rest)) =>
      var t := SkipWs(rest);
      if t == "" then None
      else if t[0] == ']' then Some(([v], t[1..]))
      else if t[0] == ',' then
        match ParseItems(t[1..])
        case None => None
        case Some((vs, after)) => Some(([v] + vs, after))
      else None
  }

  /** A key, its colon and its value. */
  function ParseMember(s: string): (r: Option<(Member, string)>)
    ensures r.Some? ==> |r.value.1| < |s|
    decreases |s|, 1
  {
    var t := SkipWs(s);
    if t == "" || t[0] != '"' then None
    else
      match ParseString(t[1..])
      case None => None
      case Some((key, rest)) =>
        var u := SkipWs(rest);
        if u == "" || u[0] != ':' then None
        else
          match ParseValue(u[1..])
          case None => None
          case Some((v, after)) => Some((Member(key, v), after))
  }

  /** One or more members separated by commas, through the closing brace. */
  function ParseMembers(s: string): (r: Option<(seq<Member>, string)>)
    ensures r.Some? ==> |r.value.1| < |s|
    decreases |s|, 2
  {
    match ParseMember(s)
    case None => None
    case Some((m, rest)) =>
      var t := SkipWs(rest);
      if t == "" then None
      else if t[0] == '}' then Some(([m], t[1..]))
      else if t[0] == ',' then
        match ParseMembers(t[1..])
        case None => None
        case Some((ms, after)) => Some(([m] + ms, after))
      else None
  }

  /** How many levels of arrays and objects serde_json enters before it gives up. */
  const MAX_DEPTH: nat := 127

  /** No more than `depth` arrays and objects lie within each other. */
  predicate NestedWithin(v: Value, depth: nat)
    decreases v
  {
    match v
    case Array(items) => depth > 0 && forall i :: 0 <= i < |items| ==> NestedWithin(items[i], depth - 1)
    case Object(members) => depth > 0 && forall i :: 0 <= i < |members| ==> NestedWithin(members[i].value, depth - 1)
    case _ => true
  }

  predicate Shallow(v: Value) {
    NestedWithin(v, MAX_DEPTH)
  }

  /**
   * The one value a whole text denotes. serde_json fails at the bracket that opens one level too many, and a text
   * that has such a bracket either is no JSON or denotes a value that is not shallow.
   */
  function Parse(s: string): Option<Value> {
    match ParseValue(s)
    case None => None
    case Some((v, rest)) => if SkipWs(rest) == "" && Shallow(v) then Some(v) else None
  }

  // ---------- Well-formed documents ----------

  /** A value that has a JSON text: its numbers are RFC 8259 lexemes. */
  predicate Printable(v: Value) {
    match v
    case Number(lexeme) => IsNumber(lexeme)
    case Array(items) => forall i :: 0 <= i < |items| ==> Printable(items[i])
    case Object(members) => forall i :: 0 <= i < |members| ==> Printable(members[i].value)
    case _ => true
  }

  /** The value a map filled from the members in order holds for `key`. */
  function Lookup(members: seq<Member>, key: string): Option<Value> {
    if members == [] then None
    else
      var last := members[|members| - 1];
      if last.key == key then Some(last.value) else Lookup(members[..|members| - 1], key)
  }
}
