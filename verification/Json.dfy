/** JSON values, their text and the parser as functions on the text that is left to read. */
module Json {
  import opened Options

  datatype Member = Member(key: string, value: Value)

  /** Objects are ordered maps: members with distinct keys in ascending order. */
  datatype Value = Null | Bool(b: bool) | Number(n: real) | Str(s: string) | Arr(a: seq<Value>) | Obj(o: seq<Member>)

  // ---- Ordered maps ----

  predicate Less(a: string, b: string) {
    if b == "" then false
    else if a == "" then true
    else a[0] < b[0] || (a[0] == b[0] && Less(a[1..], b[1..]))
  }

  /** Insertion keeps the order; a key that is already there keeps its first value. */
  function Emplace(o: seq<Member>, key: string, value: Value): seq<Member> {
    if o == [] then [Member(key, value)]
    else if o[0].key == key then o
    else if Less(key, o[0].key) then [Member(key, value)] + o
    else [o[0]] + Emplace(o[1..], key, value)
  }

  // ---- Text of a value ----

  function EscapedChar(c: char): string {
    match c
    case '\"' => "\\\""
    case '\\' => "\\\\"
    case '\n' => "\\n"
    case '\r' => "\\r"
    case '\t' => "\\t"
    case _ => [c]
  }

  function Escaped(s: string): string {
    if s == "" then "" else EscapedChar(s[0]) + Escaped(s[1..])
  }

  function StringText(s: string): string {
    "\"" + Escaped(s) + "\""
  }

  function DigitChar(d: nat): (c: char)
    requires d < 10
    ensures IsDigit(c) && DigitValue(c) == d
  {
    '0' + d as char
  }

  function Decimal(n: nat): (t: string)
    ensures t != ""
  {
    if n < 10 then [DigitChar(n)] else Decimal(n / 10) + [DigitChar(n % 10)]
  }

  /** Integers of at most six digits, which the default precision of the stream prints in full. */
  predicate SmallInteger(n: real) {
    n.Floor as real == n && -1000000.0 < n < 1000000.0
  }

  function NumberText(n: real): string {
    if n < 0.0 then "-" + Decimal(Magnitude(n)) else Decimal(Magnitude(n))
  }

  function Magnitude(n: real): nat {
    if n.Floor < 0 then -n.Floor else n.Floor
  }

  predicate Printable(v: Value) {
    match v
    case Number(n) => SmallInteger(n)
    case Arr(a) => forall i :: 0 <= i < |a| ==> Printable(a[i])
    case Obj(o) => forall i :: 0 <= i < |o| ==> Printable(o[i].value)
    case _ => true
  }

  function Text(v: Value): string
    decreases v, 0
  {
    match v
    case Null => "null"
    case Bool(b) => if b then "true" else "false"
    case Number(n) => NumberText(n)
    case Str(s) => StringText(s)
    case Arr(a) => "[" + ElementsFrom(a, 0) + "]"
    case Obj(o) => "{" + MembersFrom(o, 0) + "}"
  }

  /** The elements from `i` on, with their commas. */
  function ElementsFrom(a: seq<Value>, i: nat): string
    decreases a, |a| - i
  {
    if i >= |a| then "" else (if i > 0 then "," else "") + Text(a[i]) + ElementsFrom(a, i + 1)
  }

  function MembersFrom(o: seq<Member>, i: nat): string
    decreases o, |o| - i
  {
    if i >= |o| then "" else (if i > 0 then "," else "") + MemberText(o[i]) + MembersFrom(o, i + 1)
  }

  function MemberText(m: Member): string
    decreases m, 0
  {
    StringText(m.key) + ":" + Text(m.value)
  }

  lemma Regroup(a: string, b: string, c: string, d: string)
    ensures a + b + c + d == a + (b + c + d)
  {
  }

  // ---- Parsing ----

  /** `rest` is what is left to read; on failure it gives the offset of the error. */
  datatype Parsed<+T> = Ok(value: T, rest: string) | Fail(rest: string)

  predicate IsSpace(c: char) {
    c == ' ' || '\t' <= c <= '\r'
  }

  predicate IsDigit(c: char) {
    '0' <= c <= '9'
  }

  function DigitValue(c: char): nat
    requires IsDigit(c)
  {
    (c - '0') as nat
  }

  predicate Starts(t: string, c: char) {
    t != "" && t[0] == c
  }

  predicate StartsWithDigit(t: string) {
    t != "" && IsDigit(t[0])
  }

  function SkipSpace(t: string): (r: string)
    ensures |r| <= |t|
  {
    if t != "" && IsSpace(t[0]) then SkipSpace(t[1..]) else t
  }

  function Unescape(c: char): Option<char> {
    match c
    case '\"' => Some('\"')
    case '\\' => Some('\\')
    case '/' => Some('/')
    case 'b' => Some('\U{0008}')
    case 'f' => Some('\U{000C}')
    case 'n' => Some('\n')
    case 'r' => Some('\r')
    case 't' => Some('\t')
    case _ => None
  }

  /** The characters up to the closing quote, appended to `read`. */
  function StringBody(t: string, read: string): (r: Parsed<string>)
    ensures |r.rest| <= |t| && (r.Ok? ==> |r.rest| < |t|)
    decreases |t|
  {
    if t == "" then Fail(t)
    else if t[0] == '\"' then Ok(read, t[1..])
    else if t[0] != '\\' then StringBody(t[1..], read + [t[0]])
    else if |t| == 1 then Fail(t[1..])
    else match Unescape(t[1])
      case None => Fail(t[2..])
      case Some(c) => StringBody(t[2..], read + [c])
  }

  function ParseString(t: string): (r: Parsed<string>)
    ensures |r.rest| <= |t| && (r.Ok? ==> |r.rest| < |t|)
  {
    if Starts(t, '\"') then StringBody(t[1..], "") else Fail(t)
  }

  predicate AllDigits(t: string) {
    forall i :: 0 <= i < |t| ==> IsDigit(t[i])
  }

  function SkipDigits(t: string): (r: string)
    ensures |r| <= |t| && (StartsWithDigit(t) ==> |r| < |t|)
    ensures AllDigits(t[..|t| - |r|])
  {
    if StartsWithDigit(t) then SkipDigits(t[1..]) else t
  }

  function AfterSign(t: string): (r: string)
    ensures |r| <= |t|
  {
    if Starts(t, '-') then t[1..] else t
  }

  function AfterInteger(t: string): (r: Parsed<string>)
    ensures |r.rest| <= |t| && (r.Ok? ==> |r.rest| < |t| && AllDigits(r.value))
  {
    if !StartsWithDigit(t) then Fail(t)
    else
      var r := if t[0] == '0' then t[1..] else SkipDigits(t);
      Ok(t[..|t| - |r|], r)
  }

  /** The digits after a point, none if there is no point. */
  function AfterFraction(t: string): (r: Parsed<string>)
    ensures |r.rest| <= |t| && (r.Ok? ==> AllDigits(r.value))
  {
    if !Starts(t, '.') then Ok("", t)
    else if !StartsWithDigit(t[1..]) then Fail(t[1..])
    else
      var r := SkipDigits(t[1..]);
      Ok(t[1..][..|t| - 1 - |r|], r)
  }

  function SignedDigits(t: string): (r: Parsed<int>)
    ensures |r.rest| <= |t|
  {
    var d := if Starts(t, '+') || Starts(t, '-') then t[1..] else t;
    if !StartsWithDigit(d) then Fail(d)
    else
      var r := SkipDigits(d);
      var e: int := DecimalValue(d[..|d| - |r|]);
      Ok(if Starts(t, '-') then -e else e, r)
  }

  /** The exponent, zero if there is none. */
  function AfterExponent(t: string): (r: Parsed<int>)
    ensures |r.rest| <= |t|
  {
    if !Starts(t, 'e') && !Starts(t, 'E') then Ok(0, t) else SignedDigits(t[1..])
  }

  function DecimalValue(digits: string): nat
    requires AllDigits(digits)
  {
    if digits == "" then 0 else 10 * DecimalValue(digits[..|digits| - 1]) + DigitValue(digits[|digits| - 1])
  }

  function Pow10(e: nat): (p: real)
    ensures p > 0.0
  {
    if e == 0 then 1.0 else 10.0 * Pow10(e - 1)
  }

  /** The point moves by `e` places. */
  function MovedBy(m: real, e: int): real {
    if e >= 0 then m * Pow10(e) else m / Pow10(-e)
  }

  function Mantissa(integer: string, fraction: string): real
    requires AllDigits(integer) && AllDigits(fraction)
  {
    DecimalValue(integer) as real + DecimalValue(fraction) as real / Pow10(|fraction|)
  }

  /** The number that a decimal denotes; strtod rounds it to the nearest double. */
  function Denotes(negative: bool, integer: string, fraction: string, exponent: int): real
    requires AllDigits(integer) && AllDigits(fraction)
  {
    var x := MovedBy(Mantissa(integer, fraction), exponent);
    if negative then -x else x
  }

  function ParseNumber(t: string): (r: Parsed<real>)
    ensures |r.rest| <= |t| && (r.Ok? ==> |r.rest| < |t|)
  {
    match AfterInteger(AfterSign(t))
    case Fail(r) => Fail(r)
    case Ok(integer, t1) =>
      match AfterFraction(t1)
      case Fail(r) => Fail(r)
      case Ok(fraction, t2) =>
        match AfterExponent(t2)
        case Fail(r) => Fail(r)
        case Ok(exponent, t3) => Ok(Denotes(Starts(t, '-'), integer, fraction, exponent), t3)
  }

  function ParseValue(t: string): (r: Parsed<Value>)
    ensures |r.rest| <= |t| && (r.Ok? ==> |r.rest| < |t|)
    decreases |t|, 2
  {
    ParseToken(SkipSpace(t))
  }

  /** The first character tells what kind of value follows. */
  function ParseToken(u: string): (r: Parsed<Value>)
    ensures |r.rest| <= |u| && (r.Ok? ==> |r.rest| < |u|)
    decreases |u|, 1
  {
    if Starts(u, '\"') then
      match ParseString(u)
      case Ok(s, r) => Ok(Str(s), r)
      case Fail(r) => Fail(r)
    else if Starts(u, '{') then
      match ParseObject(u)
      case Ok(o, r) => Ok(Obj(o), r)
      case Fail(r) => Fail(r)
    else if Starts(u, '[') then
      match ParseArray(u)
      case Ok(a, r) => Ok(Arr(a), r)
      case Fail(r) => Fail(r)
    else if Starts(u, '-') || StartsWithDigit(u) then
      match ParseNumber(u)
      case Ok(n, r) => Ok(Number(n), r)
      case Fail(r) => Fail(r)
    else ParseLiteral(u)
  }

  function ParseLiteral(u: string): (r: Parsed<Value>)
    ensures |r.rest| <= |u| && (r.Ok? ==> |r.rest| < |u|)
  {
    if "true" <= u then Ok(Bool(true), u[4..])
    else if "false" <= u then Ok(Bool(false), u[5..])
    else if "null" <= u then Ok(Null, u[4..])
    else Fail(u)
  }

  function ParseArray(t: string): (r: Parsed<seq<Value>>)
    ensures |r.rest| <= |t| && (r.Ok? ==> |r.rest| < |t|)
    decreases |t|, 0
  {
    if !Starts(t, '[') then Fail(t)
    else
      var u := SkipSpace(t[1..]);
      if Starts(u, ']') then Ok([], u[1..]) else Elements(u, [])
  }

  /** The loop over the elements, with those read so far. */
  function Elements(t: string, read: seq<Value>): (r: Parsed<seq<Value>>)
    ensures |r.rest| <= |t| && (r.Ok? ==> |r.rest| < |t|)
    decreases |t|, 3
  {
    match ParseValue(SkipSpace(t))
    case Fail(r) => Fail(r)
    case Ok(v, r) =>
      var u := SkipSpace(r);
      if Starts(u, ']') then Ok(read + [v], u[1..])
      else if Starts(u, ',') then Elements(u[1..], read + [v])
      else Fail(u)
  }

  function ParseObject(t: string): (r: Parsed<seq<Member>>)
    ensures |r.rest| <= |t| && (r.Ok? ==> |r.rest| < |t|)
    decreases |t|, 0
  {
    if !Starts(t, '{') then Fail(t)
    else
      var u := SkipSpace(t[1..]);
      if Starts(u, '}') then Ok([], u[1..]) else Members(u, [])
  }

  function ParseMember(t: string): (r: Parsed<Member>)
    ensures |r.rest| <= |t| && (r.Ok? ==> |r.rest| < |t|)
    decreases |t|, 3
  {
    match ParseString(SkipSpace(t))
    case Fail(r) => Fail(r)
    case Ok(key, r) =>
      var u := SkipSpace(r);
      if !Starts(u, ':') then Fail(u)
      else match ParseValue(SkipSpace(u[1..]))
        case Fail(r') => Fail(r')
        case Ok(v, r') => Ok(Member(key, v), r')
  }

  function Members(t: string, read: seq<Member>): (r: Parsed<seq<Member>>)
    ensures |r.rest| <= |t| && (r.Ok? ==> |r.rest| < |t|)
    decreases |t|, 4
  {
    match ParseMember(t)
    case Fail(r) => Fail(r)
    case Ok(m, r) =>
      var u := SkipSpace(r);
      if Starts(u, '}') then Ok(Emplace(read, m.key, m.value), u[1..])
      else if Starts(u, ',') then Members(u[1..], Emplace(read, m.key, m.value))
      else Fail(u)
  }

  /** A whole text: one value, then nothing but white space. */
  function Parse(t: string): Parsed<Value> {
    match ParseValue(t)
    case Fail(r) => Fail(r)
    case Ok(v, r) => if SkipSpace(r) == "" then Ok(v, "") else Fail(SkipSpace(r))
  }
}
