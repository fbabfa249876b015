/**
 * The parser against the grammar: every text that the grammar of JSON derives, with white
 * space, escapes, fractions and exponents, is accepted and gives the value it stands for.
 * A derivation is a tree that holds all the choices the grammar leaves to a writer.
 */
module JsonGrammar {
  import opened Options
  import opened Json

  // ---- White space ----

  predicate IsBlank(c: char) {
    c in {' ', '\t', '\n', '\r', '\U{000B}', '\U{000C}'}
  }

  ghost predicate Blank(s: string) {
    forall i :: 0 <= i < |s| ==> IsBlank(s[i])
  }

  lemma SpaceIsBlank(c: char)
    ensures IsSpace(c) <==> IsBlank(c)
  {
  }

  lemma {:induction false} SkipsBlank(s: string, t: string)
    requires Blank(s) && (t == "" || !IsBlank(t[0]))
    ensures SkipSpace(s + t) == t
  {
    if s == "" {
      assert s + t == t;
      if t != "" { SpaceIsBlank(t[0]); }
    } else {
      SpaceIsBlank(s[0]);
      assert (s + t)[1..] == s[1..] + t;
      SkipsBlank(s[1..], t);
    }
  }

  // ---- Strings ----

  datatype Piece = Plain(c: char) | Escape(e: char)

  predicate ValidPiece(p: Piece) {
    match p
    case Plain(c) => c != '\"' && c != '\\'
    case Escape(e) => e in {'\"', '\\', '/', 'b', 'f', 'n', 'r', 't'}
  }

  function PieceText(p: Piece): string {
    match p
    case Plain(c) => [c]
    case Escape(e) => ['\\', e]
  }

  /** The control characters by their codes; the other escapes stand for themselves. */
  function PieceMeaning(p: Piece): char {
    match p
    case Plain(c) => c
    case Escape(e) =>
      if e == 'b' then 8 as char
      else if e == 't' then 9 as char
      else if e == 'n' then 10 as char
      else if e == 'f' then 12 as char
      else if e == 'r' then 13 as char
      else e
  }

  function PiecesText(s: seq<Piece>): string {
    if s == [] then "" else PieceText(s[0]) + PiecesText(s[1..])
  }

  function PiecesMeaning(s: seq<Piece>): string {
    if s == [] then "" else [PieceMeaning(s[0])] + PiecesMeaning(s[1..])
  }

  ghost predicate ValidPieces(s: seq<Piece>) {
    forall i :: 0 <= i < |s| ==> ValidPiece(s[i])
  }

  function Quoted(s: seq<Piece>): string {
    "\"" + PiecesText(s) + "\""
  }

  lemma PieceReads(p: Piece, tail: string, read: string)
    requires ValidPiece(p)
    ensures StringBody(PieceText(p) + tail, read) == StringBody(tail, read + [PieceMeaning(p)])
  {
    var t := PieceText(p) + tail;
    if p.Escape? {
      assert t[0] == '\\' && t[1] == p.e && t[2..] == tail;
      assert Unescape(p.e) == Some(PieceMeaning(p));
    } else {
      assert t[0] == p.c && t[1..] == tail;
    }
  }

  lemma PiecesSplit(p: Piece, texts: string, means: string, rest: string, read: string)
    ensures PieceText(p) + texts + "\"" + rest == PieceText(p) + (texts + "\"" + rest)
    ensures read + ([PieceMeaning(p)] + means) == read + [PieceMeaning(p)] + means
  {
  }

  lemma {:induction false} PiecesRead(s: seq<Piece>, rest: string, read: string)
    requires ValidPieces(s)
    ensures StringBody(PiecesText(s) + "\"" + rest, read) == Ok(read + PiecesMeaning(s), rest)
  {
    if s == [] {
      NoPieces(rest, read);
    } else {
      var p, texts, means := s[0], PiecesText(s[1..]), PiecesMeaning(s[1..]);
      PiecesSplit(p, texts, means, rest, read);
      PieceReads(p, texts + "\"" + rest, read);
      PiecesRead(s[1..], rest, read + [PieceMeaning(p)]);
    }
  }

  lemma NoPieces(rest: string, read: string)
    ensures StringBody("" + "\"" + rest, read) == Ok(read + "", rest)
  {
    assert "" + "\"" + rest == "\"" + rest && read + "" == read;
  }

  lemma QuotedReads(s: seq<Piece>, rest: string)
    requires ValidPieces(s)
    ensures ParseString(Quoted(s) + rest) == Ok(PiecesMeaning(s), rest)
  {
    var t := Quoted(s) + rest;
    assert t[1..] == PiecesText(s) + "\"" + rest;
    PiecesRead(s, rest, "");
    assert "" + PiecesMeaning(s) == PiecesMeaning(s);
  }

  // ---- Numbers ----

  /** No exponent, or e or E, a sign that may be missing, and digits. */
  datatype Exponent = NoExponent | Exponent(letter: char, sign: string, digits: string)

  /** An empty fraction stands for no point. */
  datatype Numeral = Numeral(negative: bool, integer: string, fraction: string, exponent: Exponent)

  ghost predicate ValidNumeral(n: Numeral) {
    && n.integer != "" && AllDigits(n.integer) && (n.integer[0] == '0' ==> |n.integer| == 1)
    && AllDigits(n.fraction)
    && (n.exponent.Exponent? ==>
          && n.exponent.letter in {'e', 'E'} && n.exponent.sign in {"", "+", "-"}
          && n.exponent.digits != "" && AllDigits(n.exponent.digits))
  }

  function FractionText(fraction: string): string {
    if fraction == "" then "" else "." + fraction
  }

  function ExponentText(e: Exponent): string {
    match e
    case NoExponent => ""
    case Exponent(letter, sign, digits) => [letter] + sign + digits
  }

  function NumeralText(n: Numeral): string {
    (if n.negative then "-" else "") + n.integer + FractionText(n.fraction) + ExponentText(n.exponent)
  }

  function Signed(sign: string, n: nat): int {
    var x: int := n;
    if sign == "-" then -x else x
  }

  function ExponentValue(e: Exponent): int
    requires e.Exponent? ==> AllDigits(e.digits)
  {
    match e
    case NoExponent => 0
    case Exponent(_, sign, digits) => Signed(sign, DecimalValue(digits))
  }

  function Tens(n: nat): (p: nat)
    ensures p > 0
  {
    if n == 0 then 1 else 10 * Tens(n - 1)
  }

  /** n * 10^k */
  function Scaled(n: nat, k: int): real {
    if k >= 0 then (n * Tens(k)) as real else n as real / Tens(-k) as real
  }

  /** All digits as one integer, moved by the exponent less the places after the point. */
  ghost function NumeralMeaning(n: Numeral): real
    requires ValidNumeral(n)
  {
    var x := Scaled(DecimalValue(n.integer + n.fraction), ExponentValue(n.exponent) - |n.fraction|);
    if n.negative then -x else x
  }

  lemma TenTimes(a: nat, t: nat, b: nat, d: nat)
    ensures 10 * (a * t + b) + d == a * (10 * t) + (10 * b + d)
  {
  }

  /** Digits count in the decimal system. */
  lemma {:induction false} DigitsJoin(a: string, b: string)
    requires AllDigits(a) && AllDigits(b)
    ensures DecimalValue(a + b) == DecimalValue(a) * Tens(|b|) + DecimalValue(b)
    decreases |b|
  {
    if b == "" {
      assert a + b == a;
    } else {
      var n := |b| - 1;
      assert (a + b)[..|a + b| - 1] == a + b[..n] && (a + b)[|a + b| - 1] == b[n];
      DigitsJoin(a, b[..n]);
      TenTimes(DecimalValue(a), Tens(n), DecimalValue(b[..n]), DigitValue(b[n]));
    }
  }

  lemma OneDigit(c: char)
    requires IsDigit(c)
    ensures DecimalValue([c]) == c as int - '0' as int
  {
    assert [c][..0] == "";
  }

  lemma {:induction false} PowIsTens(n: nat)
    ensures Pow10(n) == Tens(n) as real
  {
    if n > 0 { PowIsTens(n - 1); }
  }

  lemma {:induction false} TensAdd(a: nat, b: nat)
    ensures Tens(a + b) == Tens(a) * Tens(b)
    decreases a
  {
    if a > 0 { TensAdd(a - 1, b); }
  }

  lemma MultiplyUp(x: real, y: real, p: real, e: real, k: real)
    requires p > 0.0 && y == x / p && e == k * p
    ensures y * e == x * k
  {
    assert y * p == x;
    assert y * (k * p) == y * p * k;
  }

  lemma MultiplyPart(x: real, y: real, p: real, e: real, q: real)
    requires p > 0.0 && e > 0.0 && q > 0.0 && y == x / p && p == q * e
    ensures y * e == x / q
  {
    assert y * p == x;
    assert y * (q * e) == y * e * q;
  }

  lemma DivideOn(x: real, y: real, p: real, e: real, q: real)
    requires p > 0.0 && e > 0.0 && q > 0.0 && y == x / p && q == p * e
    ensures y / e == x / q
  {
    var z := y / e;
    assert z * e == y && y * p == x;
    assert z * (p * e) == z * e * p;
  }

  lemma ProductAsReal(a: nat, b: nat)
    ensures (a * b) as real == a as real * b as real
  {
  }

  lemma PowAdds(a: nat, b: nat)
    ensures Pow10(a + b) == Pow10(a) * Pow10(b)
  {
    PowIsTens(a);
    PowIsTens(b);
    PowIsTens(a + b);
    TensAdd(a, b);
    ProductAsReal(Tens(a), Tens(b));
  }

  lemma ScaledIs(n: nat, k: int)
    ensures Scaled(n, k) == MovedBy(n as real, k)
  {
    if k >= 0 {
      PowIsTens(k);
      ProductAsReal(n, Tens(k));
    } else {
      PowIsTens(-k);
    }
  }

  lemma MovesFar(x: real, y: real, f: nat, d: nat)
    requires y == x / Pow10(f)
    ensures y * Pow10(d + f) == x * Pow10(d)
  {
    PowAdds(d, f);
    MultiplyUp(x, y, Pow10(f), Pow10(d + f), Pow10(d));
  }

  lemma MovesPart(x: real, y: real, d: nat, e: nat)
    requires y == x / Pow10(d + e)
    ensures y * Pow10(e) == x / Pow10(d)
  {
    PowAdds(d, e);
    MultiplyPart(x, y, Pow10(d + e), Pow10(e), Pow10(d));
  }

  lemma MovesBack(x: real, y: real, f: nat, d: nat)
    requires y == x / Pow10(f)
    ensures y / Pow10(d) == x / Pow10(f + d)
  {
    PowAdds(f, d);
    DivideOn(x, y, Pow10(f), Pow10(d), Pow10(f + d));
  }

  lemma MovedUp(m: real, e: nat)
    ensures MovedBy(m, e) == m * Pow10(e)
  {
  }

  lemma MovedDown(m: real, e: nat)
    requires e > 0
    ensures MovedBy(m, 0 - e) == m / Pow10(e)
  {
  }

  lemma PointFar(x: real, y: real, f: nat, d: nat)
    requires y == x / Pow10(f)
    ensures MovedBy(y, d + f) == MovedBy(x, d)
  {
    MovedUp(y, d + f);
    MovedUp(x, d);
    MovesFar(x, y, f, d);
  }

  lemma PointPart(x: real, y: real, d: nat, e: nat)
    requires y == x / Pow10(d + e) && d > 0
    ensures MovedBy(y, e) == MovedBy(x, 0 - d)
  {
    MovedUp(y, e);
    MovedDown(x, d);
    MovesPart(x, y, d, e);
  }

  lemma PointBack(x: real, y: real, f: nat, d: nat)
    requires y == x / Pow10(f) && d > 0
    ensures MovedBy(y, 0 - d) == MovedBy(x, 0 - (f + d))
  {
    MovedDown(y, d);
    MovedDown(x, f + d);
    MovesBack(x, y, f, d);
  }

  /** Moving the point of x / 10^f by e places. */
  lemma MovesPoint(x: real, y: real, f: nat, e: int)
    requires y == x / Pow10(f)
    ensures MovedBy(y, e) == MovedBy(x, e - f)
  {
    if e >= f {
      PointFar(x, y, f, e - f);
    } else if e >= 0 {
      PointPart(x, y, f - e, e);
    } else {
      PointBack(x, y, f, 0 - e);
    }
  }

  lemma PartsOverPower(i: real, f: real, p: real)
    requires p > 0.0
    ensures i + f / p == (i * p + f) / p
  {
    var x := i + f / p;
    assert f / p * p == f;
    assert x * p == i * p + f;
  }

  lemma SumOverPower(i: nat, f: nat, k: nat)
    ensures i as real + f as real / Pow10(k) == (i * Tens(k) + f) as real / Pow10(k)
  {
    PowIsTens(k);
    ProductAsReal(i, Tens(k));
    PartsOverPower(i as real, f as real, Pow10(k));
  }

  lemma DenotesMeaning(n: Numeral)
    requires ValidNumeral(n)
    ensures Denotes(n.negative, n.integer, n.fraction, ExponentValue(n.exponent)) == NumeralMeaning(n)
  {
    var f, e := |n.fraction|, ExponentValue(n.exponent);
    var digits := DecimalValue(n.integer + n.fraction);
    var m := Mantissa(n.integer, n.fraction);
    assert m == digits as real / Pow10(f) by {
      DigitsJoin(n.integer, n.fraction);
      SumOverPower(DecimalValue(n.integer), DecimalValue(n.fraction), f);
    }
    MovesPoint(digits as real, m, f, e);
    ScaledIs(digits, e - f);
  }

  /** What may follow a value. */
  predicate Ends(rest: string) {
    rest == "" || IsBlank(rest[0]) || rest[0] in {',', ']', '}'}
  }

  lemma {:induction false} SkipAll(digits: string, rest: string)
    requires AllDigits(digits) && !StartsWithDigit(rest)
    ensures SkipDigits(digits + rest) == rest
  {
    if digits == "" {
      assert digits + rest == rest;
    } else {
      assert (digits + rest)[1..] == digits[1..] + rest;
      SkipAll(digits[1..], rest);
    }
  }

  lemma FractionReads(fraction: string, tail: string)
    requires AllDigits(fraction) && !StartsWithDigit(tail) && !Starts(tail, '.')
    ensures AfterFraction(FractionText(fraction) + tail) == Ok(fraction, tail)
  {
    if fraction == "" {
      assert FractionText(fraction) + tail == tail;
    } else {
      PointText(fraction, tail);
      SkipAll(fraction, tail);
      assert (fraction + tail)[..|fraction|] == fraction;
    }
  }

  lemma PointText(fraction: string, tail: string)
    ensures var t := "." + fraction + tail; t[0] == '.' && t[1..] == fraction + tail
  {
  }

  lemma DigitsRead(digits: string, rest: string)
    requires digits != "" && AllDigits(digits) && !StartsWithDigit(rest)
    ensures var d := digits + rest;
      StartsWithDigit(d) && SkipDigits(d) == rest && d[..|d| - |rest|] == digits
  {
    SkipAll(digits, rest);
    assert (digits + rest)[0] == digits[0];
  }

  lemma SignedBy(t: string, d: string, digits: string, rest: string)
    requires d == if Starts(t, '+') || Starts(t, '-') then t[1..] else t
    requires StartsWithDigit(d) && SkipDigits(d) == rest && d[..|d| - |rest|] == digits
    ensures AllDigits(digits)
    ensures SignedDigits(t) == Ok(Signed(if Starts(t, '-') then "-" else "", DecimalValue(digits)), rest)
  {
  }

  lemma SignedReads(sign: string, digits: string, rest: string)
    requires sign in {"", "+", "-"} && digits != "" && AllDigits(digits) && !StartsWithDigit(rest)
    ensures SignedDigits(sign + (digits + rest)) == Ok(Signed(sign, DecimalValue(digits)), rest)
  {
    var d := digits + rest;
    var t := sign + d;
    DigitsRead(digits, rest);
    if sign == "" {
      assert t == d && t[0] == digits[0];
    } else {
      assert t[0] == sign[0] && t[1..] == d;
    }
    SignedBy(t, d, digits, rest);
  }

  lemma EndsIsNoDigit(rest: string)
    requires Ends(rest)
    ensures !StartsWithDigit(rest) && !Starts(rest, '.') && !Starts(rest, 'e') && !Starts(rest, 'E')
  {
  }

  lemma ExponentReads(e: Exponent, rest: string)
    requires e.Exponent? ==> e.letter in {'e', 'E'} && e.sign in {"", "+", "-"} && e.digits != "" && AllDigits(e.digits)
    requires Ends(rest)
    ensures AfterExponent(ExponentText(e) + rest) == Ok(ExponentValue(e), rest)
  {
    EndsIsNoDigit(rest);
    if e.NoExponent? {
      assert ExponentText(e) + rest == rest;
    } else {
      ExponentParts(e.letter, e.sign, e.digits, rest);
      SignedReads(e.sign, e.digits, rest);
    }
  }

  lemma ExponentParts(letter: char, sign: string, digits: string, rest: string)
    ensures [letter] + sign + digits + rest == [letter] + (sign + (digits + rest))
  {
  }

  lemma WholeReads(integer: string, tail: string)
    requires integer != "" && AllDigits(integer) && (integer[0] == '0' ==> |integer| == 1) && !StartsWithDigit(tail)
    ensures AfterInteger(integer + tail) == Ok(integer, tail)
  {
    var t := integer + tail;
    assert t[0] == integer[0] && IsDigit(t[0]);
    SkipAll(integer, tail);
    assert t[..|integer|] == integer && t[|integer|..] == tail;
  }

  lemma TailStarts(n: Numeral, rest: string)
    requires ValidNumeral(n) && Ends(rest)
    ensures var e := ExponentText(n.exponent) + rest;
      && !StartsWithDigit(e) && !Starts(e, '.') && !StartsWithDigit(FractionText(n.fraction) + e)
  {
    var e := ExponentText(n.exponent) + rest;
    if n.exponent.NoExponent? { assert e == rest; } else { assert e[0] == n.exponent.letter; }
    if n.fraction == "" {
      assert FractionText(n.fraction) + e == e;
    } else {
      assert (FractionText(n.fraction) + e)[0] == '.';
    }
  }

  lemma NumberBy(t: string, integer: string, fraction: string, exponent: int, t1: string, t2: string, rest: string)
    requires AfterInteger(AfterSign(t)) == Ok(integer, t1) && AfterFraction(t1) == Ok(fraction, t2)
    requires AfterExponent(t2) == Ok(exponent, rest)
    ensures AllDigits(integer) && AllDigits(fraction)
    ensures ParseNumber(t) == Ok(Denotes(Starts(t, '-'), integer, fraction, exponent), rest)
  {
  }

  lemma SignIsRead(n: Numeral, f: string, t: string)
    requires ValidNumeral(n) && t == (if n.negative then "-" else "") + (n.integer + f)
    ensures AfterSign(t) == n.integer + f && (Starts(t, '-') <==> n.negative)
  {
    assert (n.integer + f)[0] == n.integer[0] && IsDigit(n.integer[0]);
    if n.negative { assert t[0] == '-' && t[1..] == n.integer + f; } else { assert t == n.integer + f; }
  }

  lemma NumeralReads(n: Numeral, rest: string)
    requires ValidNumeral(n) && Ends(rest)
    ensures ParseNumber(NumeralText(n) + rest) == Ok(NumeralMeaning(n), rest)
  {
    var e := ExponentText(n.exponent) + rest;
    var f := FractionText(n.fraction) + e;
    var t := NumeralText(n) + rest;
    assert t == (if n.negative then "-" else "") + (n.integer + f);
    SignIsRead(n, f, t);
    TailStarts(n, rest);
    WholeReads(n.integer, f);
    FractionReads(n.fraction, e);
    ExponentReads(n.exponent, rest);
    NumberBy(t, n.integer, n.fraction, ExponentValue(n.exponent), f, e, rest);
    DenotesMeaning(n);
  }

  // ---- Values ----

  /** `gap` is the white space of an empty array or object. */
  datatype Tree =
    | TNull
    | TBool(b: bool)
    | TNumber(n: Numeral)
    | TString(s: seq<Piece>)
    | TArray(gap: string, items: seq<Item>)
    | TObject(gap: string, fields: seq<Field>)

  datatype Item = Item(before: string, tree: Tree, after: string)

  datatype Field = Field(before: string, key: seq<Piece>, middle: string, colon: string, tree: Tree, after: string)

  ghost predicate ValidTree(t: Tree) {
    match t
    case TNumber(n) => ValidNumeral(n)
    case TString(s) => ValidPieces(s)
    case TArray(gap, items) => Blank(gap) && forall i :: 0 <= i < |items| ==> ValidItem(items[i])
    case TObject(gap, fields) => Blank(gap) && forall i :: 0 <= i < |fields| ==> ValidField(fields[i])
    case _ => true
  }

  ghost predicate ValidItem(it: Item) {
    Blank(it.before) && Blank(it.after) && ValidTree(it.tree)
  }

  ghost predicate ValidField(f: Field) {
    Blank(f.before) && ValidPieces(f.key) && Blank(f.middle) && Blank(f.colon) && ValidTree(f.tree) && Blank(f.after)
  }

  function TreeText(t: Tree): string
    decreases t, 0
  {
    match t
    case TNull => "null"
    case TBool(b) => if b then "true" else "false"
    case TNumber(n) => NumeralText(n)
    case TString(s) => Quoted(s)
    case TArray(gap, items) => "[" + (if items == [] then gap else ItemsFrom(items, 0)) + "]"
    case TObject(gap, fields) => "{" + (if fields == [] then gap else FieldsFrom(fields, 0)) + "}"
  }

  function ItemText(it: Item): string
    decreases it, 0
  {
    it.before + TreeText(it.tree) + it.after
  }

  function FieldText(f: Field): string
    decreases f, 0
  {
    f.before + Quoted(f.key) + f.middle + ":" + f.colon + TreeText(f.tree) + f.after
  }

  /** The items from `i` on, with their commas. */
  function ItemsFrom(items: seq<Item>, i: nat): string
    decreases items, |items| - i
  {
    if i >= |items| then "" else (if i > 0 then "," else "") + ItemText(items[i]) + ItemsFrom(items, i + 1)
  }

  function FieldsFrom(fields: seq<Field>, i: nat): string
    decreases fields, |fields| - i
  {
    if i >= |fields| then "" else (if i > 0 then "," else "") + FieldText(fields[i]) + FieldsFrom(fields, i + 1)
  }

  ghost function Meaning(t: Tree): Value
    requires ValidTree(t)
    decreases t, 0
  {
    match t
    case TNull => Null
    case TBool(b) => Bool(b)
    case TNumber(n) => Number(NumeralMeaning(n))
    case TString(s) => Str(PiecesMeaning(s))
    case TArray(_, items) => Arr(ItemsUpTo(items, |items|))
    case TObject(_, fields) => Obj(FieldsUpTo(fields, |fields|))
  }

  ghost function ItemsUpTo(items: seq<Item>, n: nat): seq<Value>
    requires n <= |items| && forall i :: 0 <= i < |items| ==> ValidItem(items[i])
    decreases items, n
  {
    if n == 0 then [] else ItemsUpTo(items, n - 1) + [Meaning(items[n - 1].tree)]
  }

  /** Of two fields with the same key the first one counts. */
  ghost function FieldsUpTo(fields: seq<Field>, n: nat): seq<Member>
    requires n <= |fields| && forall i :: 0 <= i < |fields| ==> ValidField(fields[i])
    decreases fields, n
  {
    if n == 0 then []
    else Emplace(FieldsUpTo(fields, n - 1), PiecesMeaning(fields[n - 1].key), Meaning(fields[n - 1].tree))
  }

  lemma {:induction false} SkipTwice(t: string)
    ensures SkipSpace(SkipSpace(t)) == SkipSpace(t)
  {
    if t != "" && IsSpace(t[0]) { SkipTwice(t[1..]); }
  }

  lemma ValueSkips(t: string)
    ensures ParseValue(SkipSpace(t)) == ParseValue(t)
  {
    SkipTwice(t);
  }

  lemma ElementsSkip(t: string, read: seq<Value>)
    ensures Elements(SkipSpace(t), read) == Elements(t, read)
  {
    SkipTwice(t);
  }

  lemma MembersSkip(t: string, read: seq<Member>)
    ensures Members(SkipSpace(t), read) == Members(t, read)
  {
    SkipTwice(t);
  }

  /** A value starts with neither white space nor a closing bracket. */
  lemma TreeStarts(t: Tree)
    requires ValidTree(t)
    ensures TreeText(t) != "" && !IsBlank(TreeText(t)[0]) && TreeText(t)[0] != ']'
  {
    if t.TNumber? { NumeralStarts(t.n); }
  }

  lemma NumeralStarts(n: Numeral)
    requires ValidNumeral(n)
    ensures NumeralText(n) != "" && (NumeralText(n)[0] == '-' || IsDigit(NumeralText(n)[0]))
  {
    assert IsDigit(n.integer[0]);
  }

  lemma BlankEnds(after: string, tail: string)
    requires Blank(after) && tail != "" && tail[0] in {',', ']', '}'}
    ensures Ends(after + tail) && SkipSpace(after + tail) == tail
  {
    SkipsBlank(after, tail);
    if after == "" { assert after + tail == tail; }
  }

  // ---- Every derivation is read ----

  lemma LiteralTokenReads(t: Tree, rest: string)
    requires t.TNull? || t.TBool?
    ensures ParseToken(TreeText(t) + rest) == Ok(Meaning(t), rest)
  {
  }

  lemma NumberTokenBy(t: string, n: real, rest: string)
    requires (Starts(t, '-') || StartsWithDigit(t)) && ParseNumber(t) == Ok(n, rest)
    ensures ParseToken(t) == Ok(Number(n), rest)
  {
  }

  lemma NumberTokenReads(n: Numeral, rest: string)
    requires ValidNumeral(n) && Ends(rest)
    ensures ParseToken(NumeralText(n) + rest) == Ok(Number(NumeralMeaning(n)), rest)
  {
    var text := NumeralText(n);
    NumeralStarts(n);
    NumeralReads(n, rest);
    assert (text + rest)[0] == text[0];
    NumberTokenBy(text + rest, NumeralMeaning(n), rest);
  }

  lemma StringTokenReads(s: seq<Piece>, rest: string)
    requires ValidPieces(s)
    ensures ParseToken(Quoted(s) + rest) == Ok(Str(PiecesMeaning(s)), rest)
  {
    QuotedReads(s, rest);
    assert (Quoted(s) + rest)[0] == '\"';
  }

  lemma {:induction false} TokenReads(t: Tree, rest: string)
    requires ValidTree(t) && Ends(rest)
    ensures ParseToken(TreeText(t) + rest) == Ok(Meaning(t), rest)
    decreases t, 1
  {
    match t
    case TNumber(n) => NumberTokenReads(n, rest);
    case TString(s) => StringTokenReads(s, rest);
    case TArray(_, _) => ArrayTokenReads(t, rest);
    case TObject(_, _) => ObjectTokenReads(t, rest);
    case _ => LiteralTokenReads(t, rest);
  }

  lemma {:induction false} TreeReads(before: string, t: Tree, rest: string)
    requires Blank(before) && ValidTree(t) && Ends(rest)
    ensures ParseValue(before + TreeText(t) + rest) == Ok(Meaning(t), rest)
    decreases t, 2
  {
    var u := TreeText(t) + rest;
    assert before + TreeText(t) + rest == before + u;
    TreeStarts(t);
    SkipsBlank(before, u);
    TokenReads(t, rest);
  }

  lemma ArrayOpens(inner: string, w: string, a: seq<Value>, rest: string)
    requires SkipSpace(inner) == w
    requires if Starts(w, ']') then a == [] && w[1..] == rest else Elements(w, []) == Ok(a, rest)
    ensures ParseToken("[" + inner) == Ok(Arr(a), rest)
  {
    var t := "[" + inner;
    assert t[1..] == inner;
    assert ParseArray(t) == Ok(a, rest);
  }

  lemma ObjectOpens(inner: string, w: string, o: seq<Member>, rest: string)
    requires SkipSpace(inner) == w
    requires if Starts(w, '}') then o == [] && w[1..] == rest else Members(w, []) == Ok(o, rest)
    ensures ParseToken("{" + inner) == Ok(Obj(o), rest)
  {
    var t := "{" + inner;
    assert t[1..] == inner;
    assert ParseObject(t) == Ok(o, rest);
  }

  lemma EmptyArrayReads(gap: string, rest: string)
    requires Blank(gap)
    ensures ParseToken("[" + gap + "]" + rest) == Ok(Arr([]), rest)
  {
    assert "[" + gap + "]" + rest == "[" + (gap + ("]" + rest));
    SkipsBlank(gap, "]" + rest);
    ArrayOpens(gap + ("]" + rest), "]" + rest, [], rest);
  }

  lemma FullArrayReads(items: seq<Item>, a: seq<Value>, rest: string)
    requires items != [] && ValidItem(items[0]) && Elements(ItemsAt(items, 0, rest), []) == Ok(a, rest)
    ensures ParseToken("[" + ItemsFrom(items, 0) + "]" + rest) == Ok(Arr(a), rest)
  {
    var inner := ItemsAt(items, 0, rest);
    FirstItem(items, rest);
    assert "[" + ItemsFrom(items, 0) + "]" + rest == "[" + inner;
    ElementsSkip(inner, []);
    ArrayOpens(inner, SkipSpace(inner), a, rest);
  }

  lemma {:induction false} ArrayTokenReads(t: Tree, rest: string)
    requires t.TArray? && ValidTree(t) && Ends(rest)
    ensures ParseToken(TreeText(t) + rest) == Ok(Meaning(t), rest)
    decreases t, 0
  {
    if t.items == [] {
      EmptyArrayReads(t.gap, rest);
    } else {
      ItemsRead(t.items, 0, rest);
      FullArrayReads(t.items, ItemsUpTo(t.items, |t.items|), rest);
    }
  }

  /** The text from item `i` on, without the comma before it, up to the end of the array. */
  function ItemsAt(items: seq<Item>, i: nat, rest: string): string
    requires i < |items|
  {
    ItemText(items[i]) + ItemsFrom(items, i + 1) + "]" + rest
  }

  lemma FirstItem(items: seq<Item>, rest: string)
    requires items != [] && ValidItem(items[0])
    ensures ItemsFrom(items, 0) + "]" + rest == ItemsAt(items, 0, rest)
    ensures var w := SkipSpace(ItemsAt(items, 0, rest)); w != "" && w[0] != ']'
  {
    var it, more := items[0], ItemsFrom(items, 1);
    NoComma(ItemText(it), more);
    TextParts(it.before, TreeText(it.tree), it.after, more, rest);
    TreeStarts(it.tree);
    SkipsBlank(it.before, TreeText(it.tree) + (it.after + more + "]" + rest));
  }

  lemma NoComma(a: string, b: string)
    ensures "" + a + b == a + b
  {
  }

  lemma TextParts(a: string, b: string, c: string, d: string, e: string)
    ensures a + b + c + d + "]" + e == a + (b + (c + d + "]" + e))
  {
  }

  lemma ItemParts(items: seq<Item>, i: nat, rest: string)
    requires i < |items|
    ensures var it, tail := items[i], ItemsFrom(items, i + 1) + "]" + rest;
      ItemsAt(items, i, rest) == it.before + TreeText(it.tree) + (it.after + tail)
  {
  }

  lemma TailOfItems(items: seq<Item>, i: nat, rest: string)
    requires 0 < i <= |items|
    ensures var tail := ItemsFrom(items, i) + "]" + rest;
      if i < |items| then Starts(tail, ',') && tail[1..] == ItemsAt(items, i, rest)
      else Starts(tail, ']') && tail[1..] == rest
  {
    var tail := ItemsFrom(items, i) + "]" + rest;
    if i < |items| {
      assert tail == "," + ItemsAt(items, i, rest);
    } else {
      assert tail == "]" + rest;
    }
  }

  lemma OneItem(t: string, v: Value, r: string, tail: string, read: seq<Value>)
    requires ParseValue(t) == Ok(v, r) && SkipSpace(r) == tail && (Starts(tail, ',') || Starts(tail, ']'))
    ensures Elements(t, read) ==
            if Starts(tail, ']') then Ok(read + [v], tail[1..]) else Elements(tail[1..], read + [v])
  {
    ValueSkips(t);
  }

  lemma {:induction false} ItemsRead(items: seq<Item>, i: nat, rest: string)
    requires i < |items| && forall j :: 0 <= j < |items| ==> ValidItem(items[j])
    ensures Elements(ItemsAt(items, i, rest), ItemsUpTo(items, i)) == Ok(ItemsUpTo(items, |items|), rest)
    decreases items, |items| - i
  {
    var it, tail := items[i], ItemsFrom(items, i + 1) + "]" + rest;
    assert ValidItem(it);
    ItemParts(items, i, rest);
    TailOfItems(items, i + 1, rest);
    BlankEnds(it.after, tail);
    TreeReads(it.before, it.tree, it.after + tail);
    OneItem(ItemsAt(items, i, rest), Meaning(it.tree), it.after + tail, tail, ItemsUpTo(items, i));
    if i + 1 < |items| { ItemsRead(items, i + 1, rest); }
  }

  lemma EmptyObjectReads(gap: string, rest: string)
    requires Blank(gap)
    ensures ParseToken("{" + gap + "}" + rest) == Ok(Obj([]), rest)
  {
    assert "{" + gap + "}" + rest == "{" + (gap + ("}" + rest));
    SkipsBlank(gap, "}" + rest);
    ObjectOpens(gap + ("}" + rest), "}" + rest, [], rest);
  }

  lemma FullObjectReads(fields: seq<Field>, o: seq<Member>, rest: string)
    requires fields != [] && ValidField(fields[0]) && Members(FieldsAt(fields, 0, rest), []) == Ok(o, rest)
    ensures ParseToken("{" + FieldsFrom(fields, 0) + "}" + rest) == Ok(Obj(o), rest)
  {
    var inner := FieldsAt(fields, 0, rest);
    FirstField(fields, rest);
    assert "{" + FieldsFrom(fields, 0) + "}" + rest == "{" + inner;
    MembersSkip(inner, []);
    ObjectOpens(inner, SkipSpace(inner), o, rest);
  }

  lemma {:induction false} ObjectTokenReads(t: Tree, rest: string)
    requires t.TObject? && ValidTree(t) && Ends(rest)
    ensures ParseToken(TreeText(t) + rest) == Ok(Meaning(t), rest)
    decreases t, 0
  {
    if t.fields == [] {
      EmptyObjectReads(t.gap, rest);
    } else {
      FieldsRead(t.fields, 0, rest);
      FullObjectReads(t.fields, FieldsUpTo(t.fields, |t.fields|), rest);
    }
  }

  function FieldsAt(fields: seq<Field>, i: nat, rest: string): string
    requires i < |fields|
  {
    FieldText(fields[i]) + FieldsFrom(fields, i + 1) + "}" + rest
  }

  lemma FirstField(fields: seq<Field>, rest: string)
    requires fields != [] && ValidField(fields[0])
    ensures FieldsFrom(fields, 0) + "}" + rest == FieldsAt(fields, 0, rest)
    ensures var w := SkipSpace(FieldsAt(fields, 0, rest)); w != "" && w[0] == '\"'
  {
    var f := fields[0];
    var tail := FieldsFrom(fields, 1) + "}" + rest;
    assert "" + FieldText(f) == FieldText(f);
    FieldParts(f, tail);
    assert FieldsAt(fields, 0, rest) == FieldText(f) + tail;
    SkipsBlank(f.before, AfterBefore(f, tail));
  }

  /** The text of the field after its key and the white space that follows. */
  function FromColon(f: Field, tail: string): string {
    ":" + (f.colon + TreeText(f.tree) + (f.after + tail))
  }

  function AfterBefore(f: Field, tail: string): string {
    Quoted(f.key) + (f.middle + FromColon(f, tail))
  }

  lemma FieldParts(f: Field, tail: string)
    ensures FieldText(f) + tail == f.before + AfterBefore(f, tail)
    ensures AfterBefore(f, tail)[0] == '\"'
  {
    assert f.before + Quoted(f.key) + f.middle + ":" + f.colon + TreeText(f.tree) + f.after + tail
        == f.before + (Quoted(f.key) + (f.middle + (":" + (f.colon + TreeText(f.tree) + (f.after + tail)))));
  }

  lemma MemberBy(t: string, q: string, key: string, r: string, u: string, v: Value, rest: string)
    requires SkipSpace(t) == q && ParseString(q) == Ok(key, r) && SkipSpace(r) == u && Starts(u, ':')
    requires ParseValue(u[1..]) == Ok(v, rest)
    ensures ParseMember(t) == Ok(Member(key, v), rest)
  {
    ValueSkips(u[1..]);
  }

  lemma {:induction false} FieldReads(f: Field, tail: string)
    requires ValidField(f) && tail != "" && tail[0] in {',', ']', '}'}
    ensures ParseMember(FieldText(f) + tail) == Ok(Member(PiecesMeaning(f.key), Meaning(f.tree)), f.after + tail)
    decreases f, 0
  {
    FieldParts(f, tail);
    var u := FromColon(f, tail);
    SkipsBlank(f.before, AfterBefore(f, tail));
    QuotedReads(f.key, f.middle + u);
    SkipsBlank(f.middle, u);
    assert u[1..] == f.colon + TreeText(f.tree) + (f.after + tail);
    BlankEnds(f.after, tail);
    TreeReads(f.colon, f.tree, f.after + tail);
    MemberBy(FieldText(f) + tail, AfterBefore(f, tail), PiecesMeaning(f.key), f.middle + u, u, Meaning(f.tree),
             f.after + tail);
  }

  lemma TailOfFields(fields: seq<Field>, i: nat, rest: string)
    requires 0 < i <= |fields|
    ensures var tail := FieldsFrom(fields, i) + "}" + rest;
      if i < |fields| then Starts(tail, ',') && tail[1..] == FieldsAt(fields, i, rest)
      else Starts(tail, '}') && tail[1..] == rest
  {
    var tail := FieldsFrom(fields, i) + "}" + rest;
    if i < |fields| {
      assert tail == "," + FieldsAt(fields, i, rest);
    } else {
      assert tail == "}" + rest;
    }
  }

  lemma OneField(t: string, m: Member, r: string, tail: string, read: seq<Member>)
    requires ParseMember(t) == Ok(m, r) && SkipSpace(r) == tail && (Starts(tail, ',') || Starts(tail, '}'))
    ensures Members(t, read) ==
            if Starts(tail, '}') then Ok(Emplace(read, m.key, m.value), tail[1..])
            else Members(tail[1..], Emplace(read, m.key, m.value))
  {
  }

  lemma {:induction false} FieldsRead(fields: seq<Field>, i: nat, rest: string)
    requires i < |fields| && forall j :: 0 <= j < |fields| ==> ValidField(fields[j])
    ensures Members(FieldsAt(fields, i, rest), FieldsUpTo(fields, i)) == Ok(FieldsUpTo(fields, |fields|), rest)
    decreases fields, |fields| - i
  {
    var f, tail := fields[i], FieldsFrom(fields, i + 1) + "}" + rest;
    assert ValidField(f);
    assert FieldsAt(fields, i, rest) == FieldText(f) + tail;
    TailOfFields(fields, i + 1, rest);
    FieldReads(f, tail);
    BlankEnds(f.after, tail);
    OneField(FieldsAt(fields, i, rest), Member(PiecesMeaning(f.key), Meaning(f.tree)), f.after + tail, tail,
             FieldsUpTo(fields, i));
    if i + 1 < |fields| { FieldsRead(fields, i + 1, rest); }
  }

  /** Every text that the grammar derives is accepted and gives the value it stands for. */
  lemma ReadsGrammar(before: string, t: Tree, after: string)
    requires Blank(before) && ValidTree(t) && Blank(after)
    ensures Parse(before + TreeText(t) + after) == Ok(Meaning(t), "")
  {
    TreeReads(before, t, after);
    SkipsBlank(after, "");
    assert after + "" == after;
  }
}
