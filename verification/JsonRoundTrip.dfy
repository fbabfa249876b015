/**
 * What is written is read back: the text of a value is one of the texts that the grammar
 * derives for it.
 */
module JsonRoundTrip {
  import opened Json
  import opened JsonGrammar
  import JsonAccepts

  // ---- Ordered maps ----

  lemma {:induction false} LessIrreflexive(a: string)
    ensures !Less(a, a)
  {
    if a != "" { LessIrreflexive(a[1..]); }
  }

  lemma {:induction false} LessTransitive(a: string, b: string, c: string)
    requires Less(a, b) && Less(b, c)
    ensures Less(a, c)
  {
    if a != "" && a[0] == b[0] && b[0] == c[0] { LessTransitive(a[1..], b[1..], c[1..]); }
  }

  lemma {:induction false} LessTotal(a: string, b: string)
    ensures Less(a, b) || a == b || Less(b, a)
  {
    if a != "" && b != "" && a[0] == b[0] {
      LessTotal(a[1..], b[1..]);
      assert a == [a[0]] + a[1..] && b == [b[0]] + b[1..];
    }
  }

  /** `a` comes first at the place `i` where the two part: it ends there or has the smaller character. */
  predicate PartsBelow(a: string, b: string, i: nat) {
    i <= |a| && i < |b| && a[..i] == b[..i] && (i == |a| || a[i] < b[i])
  }

  /** Keys are ordered like the words of a dictionary. */
  lemma {:induction false} LessIsLexicographic(a: string, b: string)
    ensures Less(a, b) <==> exists i: nat :: PartsBelow(a, b, i)
  {
    if a == "" || b == "" || a[0] != b[0] {
      if Less(a, b) { assert PartsBelow(a, b, 0); }
    } else {
      LessIsLexicographic(a[1..], b[1..]);
      if Less(a, b) {
        var i: nat :| PartsBelow(a[1..], b[1..], i);
        assert a[..i + 1] == [a[0]] + a[1..][..i] && b[..i + 1] == [b[0]] + b[1..][..i];
        assert PartsBelow(a, b, i + 1);
      }
      forall i: nat | PartsBelow(a, b, i) ensures i > 0 && PartsBelow(a[1..], b[1..], i - 1) {
        assert a[1..][..i - 1] == a[..i][1..] && b[1..][..i - 1] == b[..i][1..];
      }
    }
  }

  ghost predicate Ascending(o: seq<Member>) {
    forall i, j :: 0 <= i < j < |o| ==> Less(o[i].key, o[j].key)
  }

  /** Every object inside is an ordered map. */
  ghost predicate WellFormed(v: Value) {
    match v
    case Arr(a) => forall i :: 0 <= i < |a| ==> WellFormed(a[i])
    case Obj(o) => Ascending(o) && forall i :: 0 <= i < |o| ==> WellFormed(o[i].value)
    case _ => true
  }

  ghost predicate HasKey(o: seq<Member>, key: string) {
    exists i :: 0 <= i < |o| && o[i].key == key
  }

  lemma {:induction false} EmplaceLast(o: seq<Member>, key: string, value: Value)
    requires forall i :: 0 <= i < |o| ==> Less(o[i].key, key)
    ensures Emplace(o, key, value) == o + [Member(key, value)]
  {
    if o != [] {
      LessIrreflexive(key);
      if Less(key, o[0].key) {
        LessTransitive(key, o[0].key, key);
      }
      EmplaceLast(o[1..], key, value);
      assert o == [o[0]] + o[1..];
    }
  }

  /** Insertion into an ordered map: the first value of a key wins, other keys stay, the order stays. */
  lemma {:induction false} EmplaceInserts(o: seq<Member>, key: string, value: Value)
    requires Ascending(o)
    ensures Ascending(Emplace(o, key, value))
    ensures forall m :: m in Emplace(o, key, value) <==> m in o || (m == Member(key, value) && !HasKey(o, key))
  {
    var r := Emplace(o, key, value);
    if o == [] {
    } else if o[0].key == key {
      assert HasKey(o, key);
    } else if Less(key, o[0].key) {
      forall i | 0 <= i < |o| ensures Less(key, o[i].key) && o[i].key != key {
        if i > 0 { LessTransitive(key, o[0].key, o[i].key); }
        LessIrreflexive(key);
      }
    } else {
      var rest := o[1..];
      LessTotal(key, o[0].key);
      EmplaceInserts(rest, key, value);
      assert o == [o[0]] + rest;
      HasKeyRest(o, key);
      var s := Emplace(rest, key, value);
      forall j | 0 <= j < |s| ensures Less(o[0].key, s[j].key) {
        assert s[j] in s;
        if s[j] in rest { var k :| 0 <= k < |rest| && rest[k] == s[j]; assert o[k + 1] == s[j]; }
      }
    }
  }

  lemma HasKeyRest(o: seq<Member>, key: string)
    requires o != [] && o[0].key != key
    ensures HasKey(o, key) <==> HasKey(o[1..], key)
  {
  }

  // ---- Strings ----

  function PieceOf(c: char): Piece {
    match c
    case '\"' => Escape('\"')
    case '\\' => Escape('\\')
    case '\n' => Escape('n')
    case '\r' => Escape('r')
    case '\t' => Escape('t')
    case _ => Plain(c)
  }

  lemma PieceOfChar(c: char)
    ensures ValidPiece(PieceOf(c)) && PieceText(PieceOf(c)) == EscapedChar(c) && PieceMeaning(PieceOf(c)) == c
  {
  }

  /** The pieces that the writer makes of a string. */
  function PiecesOf(s: string): seq<Piece> {
    if s == "" then [] else [PieceOf(s[0])] + PiecesOf(s[1..])
  }

  lemma {:induction false} StringIsQuoted(s: string)
    ensures ValidPieces(PiecesOf(s)) && PiecesText(PiecesOf(s)) == Escaped(s) && PiecesMeaning(PiecesOf(s)) == s
  {
    if s != "" {
      PieceOfChar(s[0]);
      StringIsQuoted(s[1..]);
      assert PiecesOf(s)[1..] == PiecesOf(s[1..]);
      assert s == [s[0]] + s[1..];
    }
  }

  lemma StringReads(s: string, rest: string)
    ensures ParseString(StringText(s) + rest) == Ok(s, rest)
  {
    StringIsQuoted(s);
    QuotedReads(PiecesOf(s), rest);
  }

  // ---- Numbers ----

  lemma {:induction false} DecimalDigits(n: nat)
    ensures AllDigits(Decimal(n)) && DecimalValue(Decimal(n)) == n
    ensures Decimal(n)[0] == '0' ==> n == 0
  {
    if n >= 10 {
      DecimalDigits(n / 10);
      var t := Decimal(n / 10);
      assert Decimal(n)[..|Decimal(n)| - 1] == t;
    } else {
      assert Decimal(n)[..0] == "";
    }
  }

  /** The numeral that the writer makes of an integer. */
  function NumeralOf(n: real): Numeral {
    Numeral(n < 0.0, Decimal(Magnitude(n)), "", NoExponent)
  }

  lemma NumberIsNumeral(n: real)
    requires SmallInteger(n)
    ensures ValidNumeral(NumeralOf(n)) && NumeralText(NumeralOf(n)) == NumberText(n)
    ensures NumeralMeaning(NumeralOf(n)) == n
  {
    DecimalDigits(Magnitude(n));
    PlainNumeral(n < 0.0, Decimal(Magnitude(n)));
    SignAndMagnitude(n);
  }

  lemma PlainNumeral(negative: bool, integer: string)
    requires integer != "" && AllDigits(integer) && (integer[0] == '0' ==> |integer| == 1)
    ensures var m := Numeral(negative, integer, "", NoExponent);
      && ValidNumeral(m) && NumeralText(m) == (if negative then "-" else "") + integer
      && NumeralMeaning(m) == if negative then -(DecimalValue(integer) as real) else DecimalValue(integer) as real
  {
    var sign := if negative then "-" else "";
    assert integer + "" == integer && sign + integer + "" + "" == sign + integer;
    assert Tens(0) == 1;
  }

  lemma SignAndMagnitude(n: real)
    requires SmallInteger(n)
    ensures n == if n < 0.0 then -(Magnitude(n) as real) else Magnitude(n) as real
  {
  }

  lemma NumberReads(n: real, rest: string)
    requires SmallInteger(n) && Ends(rest)
    ensures ParseNumber(NumberText(n) + rest) == Ok(n, rest)
  {
    NumberIsNumeral(n);
    NumeralReads(NumeralOf(n), rest);
  }

  // ---- Values ----

  /** The derivation of the text that the writer makes of a value. */
  function TreeOf(v: Value): Tree
    decreases v, 1
  {
    match v
    case Null => TNull
    case Bool(b) => TBool(b)
    case Number(n) => TNumber(NumeralOf(n))
    case Str(s) => TString(PiecesOf(s))
    case Arr(a) => TArray("", ItemsOf(a, |a|))
    case Obj(o) => TObject("", FieldsOf(o, |o|))
  }

  function ItemsOf(a: seq<Value>, n: nat): (r: seq<Item>)
    requires n <= |a|
    ensures |r| == n && forall i :: 0 <= i < n ==> r[i] == Item("", TreeOf(a[i]), "")
    decreases a, n
  {
    if n == 0 then [] else ItemsOf(a, n - 1) + [Item("", TreeOf(a[n - 1]), "")]
  }

  function FieldsOf(o: seq<Member>, n: nat): (r: seq<Field>)
    requires n <= |o|
    ensures |r| == n && forall i :: 0 <= i < n ==> r[i] == FieldOf(o[i])
    decreases o, n
  {
    if n == 0 then [] else FieldsOf(o, n - 1) + [FieldOf(o[n - 1])]
  }

  function FieldOf(m: Member): Field
    decreases m, 2
  {
    Field("", PiecesOf(m.key), "", "", TreeOf(m.value), "")
  }

  /** Its text and its meaning are those of the value. */
  ghost predicate Stands(v: Value) {
    ValidTree(TreeOf(v)) && TreeText(TreeOf(v)) == Text(v) && Meaning(TreeOf(v)) == v
  }

  lemma {:induction false} TreeStands(v: Value)
    requires Printable(v) && WellFormed(v)
    ensures Stands(v)
    decreases v
  {
    match v
    case Null =>
    case Bool(_) =>
    case Number(n) => NumberIsNumeral(n);
    case Str(s) => StringIsQuoted(s);
    case Arr(a) =>
      forall i: nat | i < |a| ensures Stands(a[i]) { TreeStands(a[i]); }
      ArrayStands(v);
    case Obj(o) =>
      forall i: nat | i < |o| ensures Stands(o[i].value) { TreeStands(o[i].value); }
      ObjectStands(v);
  }

  lemma ArrayStands(v: Value)
    requires v.Arr? && forall i: nat :: i < |v.a| ==> Stands(v.a[i])
    ensures Stands(v)
  {
    ArrayText(v.a, 0);
    ArrayMeaning(v.a, |v.a|);
  }

  lemma ObjectStands(v: Value)
    requires v.Obj? && Ascending(v.o) && forall i: nat :: i < |v.o| ==> Stands(v.o[i].value)
    ensures Stands(v)
  {
    ObjectText(v.o, 0);
    ObjectMeaning(v.o, |v.o|);
  }

  lemma ItemStands(a: seq<Value>, i: nat)
    requires i < |a| && Stands(a[i])
    ensures var it := ItemsOf(a, |a|)[i];
      ValidItem(it) && ItemText(it) == Text(a[i]) && Meaning(it.tree) == a[i]
  {
    assert "" + Text(a[i]) + "" == Text(a[i]);
  }

  lemma {:induction false} ArrayText(a: seq<Value>, i: nat)
    requires i <= |a| && forall j: nat :: j < |a| ==> Stands(a[j])
    ensures ItemsFrom(ItemsOf(a, |a|), i) == ElementsFrom(a, i)
    decreases |a| - i
  {
    if i < |a| {
      ItemStands(a, i);
      ArrayText(a, i + 1);
    }
  }

  lemma {:induction false} ArrayMeaning(a: seq<Value>, n: nat)
    requires n <= |a| && forall j: nat :: j < |a| ==> Stands(a[j])
    ensures forall i: nat :: i < |a| ==> ValidItem(ItemsOf(a, |a|)[i])
    ensures ItemsUpTo(ItemsOf(a, |a|), n) == a[..n]
    decreases n
  {
    forall i: nat | i < |a| ensures ValidItem(ItemsOf(a, |a|)[i]) { ItemStands(a, i); }
    if n > 0 {
      ArrayMeaning(a, n - 1);
      ItemStands(a, n - 1);
      assert a[..n] == a[..n - 1] + [a[n - 1]];
    }
  }

  lemma FieldStands(o: seq<Member>, i: nat)
    requires i < |o| && Stands(o[i].value)
    ensures var f := FieldsOf(o, |o|)[i];
      && ValidField(f) && FieldText(f) == MemberText(o[i])
      && PiecesMeaning(f.key) == o[i].key && Meaning(f.tree) == o[i].value
  {
    StringIsQuoted(o[i].key);
    NoGaps(StringText(o[i].key), Text(o[i].value));
  }

  lemma NoGaps(key: string, value: string)
    ensures "" + key + "" + ":" + "" + value + "" == key + ":" + value
  {
  }

  lemma {:induction false} ObjectText(o: seq<Member>, i: nat)
    requires i <= |o| && forall j: nat :: j < |o| ==> Stands(o[j].value)
    ensures FieldsFrom(FieldsOf(o, |o|), i) == MembersFrom(o, i)
    decreases |o| - i
  {
    if i < |o| {
      FieldStands(o, i);
      ObjectText(o, i + 1);
    }
  }

  lemma {:induction false} ObjectMeaning(o: seq<Member>, n: nat)
    requires n <= |o| && Ascending(o) && forall j: nat :: j < |o| ==> Stands(o[j].value)
    ensures forall i: nat :: i < |o| ==> ValidField(FieldsOf(o, |o|)[i])
    ensures FieldsUpTo(FieldsOf(o, |o|), n) == o[..n]
    decreases n
  {
    forall i: nat | i < |o| ensures ValidField(FieldsOf(o, |o|)[i]) { FieldStands(o, i); }
    if n > 0 {
      ObjectMeaning(o, n - 1);
      FieldStands(o, n - 1);
      EmplaceNext(o, n - 1);
    }
  }

  lemma EmplaceNext(o: seq<Member>, i: nat)
    requires i < |o| && Ascending(o)
    ensures Emplace(o[..i], o[i].key, o[i].value) == o[..i + 1]
  {
    EmplaceLast(o[..i], o[i].key, o[i].value);
    assert o[..i] + [o[i]] == o[..i + 1];
  }

  /** The round trip, for every nested value whose numbers are integers of at most six digits. */
  lemma RoundTrip(v: Value)
    requires Printable(v) && WellFormed(v)
    ensures Parse(Text(v)) == Ok(v, "")
  {
    TreeStands(v);
    ReadsGrammar("", TreeOf(v), "");
    assert "" + Text(v) + "" == Text(v);
  }

  // ---- Every accepted text gives a well-formed value ----

  lemma {:induction false} MeaningIsWellFormed(t: Tree)
    requires ValidTree(t)
    ensures WellFormed(Meaning(t))
    decreases t, 1, 0
  {
    match t
    case TArray(_, items) => ItemsAreWellFormed(items, |items|);
    case TObject(_, fields) => FieldsAreWellFormed(fields, |fields|);
    case _ =>
  }

  lemma {:induction false} ItemsAreWellFormed(items: seq<Item>, n: nat)
    requires n <= |items| && forall i :: 0 <= i < |items| ==> ValidItem(items[i])
    ensures forall i :: 0 <= i < |ItemsUpTo(items, n)| ==> WellFormed(ItemsUpTo(items, n)[i])
    decreases items, 0, n
  {
    if n > 0 {
      ItemsAreWellFormed(items, n - 1);
      MeaningIsWellFormed(items[n - 1].tree);
    }
  }

  lemma {:induction false} FieldsAreWellFormed(fields: seq<Field>, n: nat)
    requires n <= |fields| && forall i :: 0 <= i < |fields| ==> ValidField(fields[i])
    ensures WellFormed(Obj(FieldsUpTo(fields, n)))
    decreases fields, 0, n
  {
    if n > 0 {
      var f := fields[n - 1];
      FieldsAreWellFormed(fields, n - 1);
      MeaningIsWellFormed(f.tree);
      EmplaceWellFormed(FieldsUpTo(fields, n - 1), PiecesMeaning(f.key), Meaning(f.tree));
    }
  }

  lemma EmplaceWellFormed(o: seq<Member>, key: string, value: Value)
    requires WellFormed(Obj(o)) && WellFormed(value)
    ensures WellFormed(Obj(Emplace(o, key, value)))
  {
    EmplaceInserts(o, key, value);
    var r := Emplace(o, key, value);
    forall i | 0 <= i < |r| ensures WellFormed(r[i].value) {
      assert r[i] in r;
      if r[i] in o { var j :| 0 <= j < |o| && o[j] == r[i]; }
    }
  }

  /** Whatever was read, writing it and reading it again changes nothing more. */
  lemma ReadWriteRead(t: string)
    requires Parse(t).Ok? && Printable(Parse(t).value)
    ensures Parse(Text(Parse(t).value)) == Parse(t)
  {
    var before, tree, after := JsonAccepts.OnlyGrammar(t);
    MeaningIsWellFormed(tree);
    RoundTrip(Parse(t).value);
  }
}
