/**
 * The other direction of JsonGrammar: the parser accepts nothing but what the grammar
 * derives. From an accepted text a derivation is built that gives the text and the value.
 */
module JsonAccepts {
  import opened Json
  import opened JsonGrammar

  // ---- White space, strings and numbers ----

  lemma {:induction false} SpaceSplits(t: string) returns (s: string)
    ensures t == s + SkipSpace(t) && Blank(s)
  {
    s := "";
    if t != "" && IsSpace(t[0]) {
      SpaceIsBlank(t[0]);
      var rest := SpaceSplits(t[1..]);
      s := [t[0]] + rest;
      assert t == [t[0]] + t[1..];
    }
  }

  lemma UnescapeIsPiece(e: char)
    requires Unescape(e).Some?
    ensures ValidPiece(Escape(e)) && Unescape(e).value == PieceMeaning(Escape(e))
  {
  }

  lemma PieceDerives(p: Piece, t: string, tail: string, s: seq<Piece>, read: string, v: string, rest: string)
    requires ValidPiece(p) && ValidPieces(s) && t == PieceText(p) + tail && tail == PiecesText(s) + "\"" + rest
    requires v == read + [PieceMeaning(p)] + PiecesMeaning(s)
    ensures ValidPieces([p] + s) && t == PiecesText([p] + s) + "\"" + rest && v == read + PiecesMeaning([p] + s)
  {
    assert ([p] + s)[1..] == s;
    PiecesSplit(p, PiecesText(s), PiecesMeaning(s), rest, read);
  }

  lemma {:induction false} BodyDerives(t: string, read: string) returns (s: seq<Piece>)
    requires StringBody(t, read).Ok?
    ensures var r := StringBody(t, read);
      ValidPieces(s) && t == PiecesText(s) + "\"" + r.rest && r.value == read + PiecesMeaning(s)
    decreases |t|
  {
    var r := StringBody(t, read);
    FirstOf(t);
    if t[0] == '\"' {
      s := [];
      assert "" + "\"" + t[1..] == [t[0]] + t[1..] && read + "" == read;
    } else if t[0] != '\\' {
      var rest := BodyDerives(t[1..], read + [t[0]]);
      PieceDerives(Plain(t[0]), t, t[1..], rest, read, r.value, r.rest);
      s := [Plain(t[0])] + rest;
    } else {
      var p := Escape(t[1]);
      UnescapeIsPiece(t[1]);
      FirstTwoOf(t);
      var rest := BodyDerives(t[2..], read + [PieceMeaning(p)]);
      PieceDerives(p, t, t[2..], rest, read, r.value, r.rest);
      s := [p] + rest;
    }
  }

  lemma FirstOf(t: string)
    requires t != ""
    ensures t == [t[0]] + t[1..]
  {
  }

  lemma FirstTwoOf(t: string)
    requires |t| >= 2
    ensures t == [t[0], t[1]] + t[2..]
  {
  }

  lemma StringDerives(t: string) returns (s: seq<Piece>)
    requires ParseString(t).Ok?
    ensures ValidPieces(s) && t == Quoted(s) + ParseString(t).rest && ParseString(t).value == PiecesMeaning(s)
  {
    s := BodyDerives(t[1..], "");
    assert t == "\"" + t[1..];
    assert "" + PiecesMeaning(s) == PiecesMeaning(s);
  }

  lemma {:induction false} DigitsSplit(t: string)
    ensures var r := SkipDigits(t);
      t == t[..|t| - |r|] + r && AllDigits(t[..|t| - |r|]) && (StartsWithDigit(t) ==> t[..|t| - |r|] != "")
  {
    if StartsWithDigit(t) {
      DigitsSplit(t[1..]);
      var r := SkipDigits(t[1..]);
      FirstOf(t);
      OneMore(t, |t| - |r|);
      Join([t[0]], t[1..][..|t| - 1 - |r|], r, "");
    }
  }

  lemma OneMore(t: string, n: nat)
    requires 1 <= n <= |t|
    ensures t[..n] == [t[0]] + t[1..][..n - 1]
  {
  }

  lemma WholeDerives(t: string)
    requires AfterInteger(t).Ok?
    ensures var r := AfterInteger(t);
      && t == r.value + r.rest && r.value != "" && AllDigits(r.value)
      && (r.value[0] == '0' ==> |r.value| == 1)
  {
    DigitsSplit(t);
    if t[0] == '0' { assert t == t[..1] + t[1..]; }
  }

  lemma FractionDerives(t: string)
    requires AfterFraction(t).Ok?
    ensures var r := AfterFraction(t); t == FractionText(r.value) + r.rest && AllDigits(r.value)
  {
    if Starts(t, '.') {
      DigitsSplit(t[1..]);
      FirstOf(t);
      Join(".", AfterFraction(t).value, AfterFraction(t).rest, "");
    } else {
      assert "" + t == t;
    }
  }

  lemma Join(a: string, b: string, c: string, d: string)
    ensures a + (b + c) == a + b + c
    ensures a + (b + c + d) == a + b + c + d
  {
  }

  lemma SignedDerives(t: string) returns (sign: string, digits: string)
    requires SignedDigits(t).Ok?
    ensures sign in {"", "+", "-"} && digits != "" && AllDigits(digits)
    ensures t == sign + digits + SignedDigits(t).rest && SignedDigits(t).value == Signed(sign, DecimalValue(digits))
  {
    sign := if Starts(t, '+') then "+" else if Starts(t, '-') then "-" else "";
    var d := if sign != "" then t[1..] else t;
    assert t == sign + d;
    DigitsSplit(d);
    var rest := SkipDigits(d);
    digits := d[..|d| - |rest|];
    Join(sign, digits, rest, "");
  }

  lemma ExponentDerives(t: string) returns (e: Exponent)
    requires AfterExponent(t).Ok?
    ensures e.Exponent? ==> e.letter in {'e', 'E'} && e.sign in {"", "+", "-"} && e.digits != "" && AllDigits(e.digits)
    ensures t == ExponentText(e) + AfterExponent(t).rest && AfterExponent(t).value == ExponentValue(e)
  {
    if Starts(t, 'e') || Starts(t, 'E') {
      var sign, digits := SignedDerives(t[1..]);
      e := Exponent(t[0], sign, digits);
      FirstOf(t);
      Join([t[0]], sign, digits, SignedDigits(t[1..]).rest);
    } else {
      e := NoExponent;
      assert "" + t == t;
    }
  }

  lemma NumberDerives(t: string) returns (n: Numeral)
    requires ParseNumber(t).Ok?
    ensures ValidNumeral(n) && t == NumeralText(n) + ParseNumber(t).rest
    ensures ParseNumber(t).value == NumeralMeaning(n)
  {
    var negative := Starts(t, '-');
    var u := AfterSign(t);
    assert t == (if negative then "-" else "") + u;
    WholeDerives(u);
    var i := AfterInteger(u);
    FractionDerives(i.rest);
    var f := AfterFraction(i.rest);
    var e := ExponentDerives(f.rest);
    n := Numeral(negative, i.value, f.value, e);
    DenotesMeaning(n);
    var rest := AfterExponent(f.rest).rest;
    Parts(if negative then "-" else "", i.value, FractionText(f.value), ExponentText(e), rest);
  }

  lemma Parts(a: string, b: string, c: string, d: string, e: string)
    ensures a + (b + (c + (d + e))) == a + b + c + d + e
  {
  }

  // ---- Values ----

  lemma LiteralDerives(u: string) returns (t: Tree)
    requires ParseLiteral(u).Ok?
    ensures ValidTree(t) && u == TreeText(t) + ParseLiteral(u).rest && ParseLiteral(u).value == Meaning(t)
  {
    t := if "true" <= u then TBool(true) else if "false" <= u then TBool(false) else TNull;
    assert u == TreeText(t) + u[|TreeText(t)|..];
  }

  lemma {:induction false} TokenDerives(u: string) returns (t: Tree)
    requires ParseToken(u).Ok?
    ensures ValidTree(t) && u == TreeText(t) + ParseToken(u).rest && ParseToken(u).value == Meaning(t)
    decreases |u|, 1
  {
    if Starts(u, '\"') {
      var s := StringDerives(u);
      t := TString(s);
    } else if Starts(u, '{') {
      t := ObjectDerives(u);
    } else if Starts(u, '[') {
      t := ArrayDerives(u);
    } else if Starts(u, '-') || StartsWithDigit(u) {
      var n := NumberDerives(u);
      t := TNumber(n);
    } else {
      t := LiteralDerives(u);
    }
  }

  lemma {:induction false} ValueDerives(t: string) returns (before: string, tree: Tree)
    requires ParseValue(t).Ok?
    ensures Blank(before) && ValidTree(tree)
    ensures t == before + TreeText(tree) + ParseValue(t).rest && ParseValue(t).value == Meaning(tree)
    decreases |t|, 2
  {
    before := SpaceSplits(t);
    tree := TokenDerives(SkipSpace(t));
    assert before + (TreeText(tree) + ParseValue(t).rest) == before + TreeText(tree) + ParseValue(t).rest;
  }

  lemma BlankSum(a: string, b: string)
    requires Blank(a) && Blank(b)
    ensures Blank(a + b)
  {
  }

  // ---- Arrays ----

  lemma {:induction false} ItemsShift(it: Item, items: seq<Item>, i: nat)
    requires i <= |items|
    ensures ItemsFrom([it] + items, i + 1) == (if i == 0 && items != [] then "," else "") + ItemsFrom(items, i)
    decreases |items| - i
  {
    var all := [it] + items;
    if i < |items| {
      ItemsShift(it, items, i + 1);
      assert all[i + 1] == items[i];
      if i == 0 { assert "" + ItemText(items[0]) == ItemText(items[0]); }
      assert ItemsFrom(all, i + 1) == "," + ItemText(items[i]) + ItemsFrom(all, i + 2);
    }
  }

  lemma {:induction false} ItemsUpToShift(it: Item, items: seq<Item>, n: nat)
    requires n <= |items| && ValidItem(it) && forall i :: 0 <= i < |items| ==> ValidItem(items[i])
    ensures forall i :: 0 <= i < |items| + 1 ==> ValidItem(([it] + items)[i])
    ensures ItemsUpTo([it] + items, n + 1) == [Meaning(it.tree)] + ItemsUpTo(items, n)
  {
    var all := [it] + items;
    forall i | 0 <= i < |all| ensures ValidItem(all[i]) { assert all[i] == if i == 0 then it else items[i - 1]; }
    if n > 0 {
      ItemsUpToShift(it, items, n - 1);
      assert all[n] == items[n - 1];
      Prepend(Meaning(it.tree), ItemsUpTo(items, n - 1), Meaning(items[n - 1].tree));
    } else {
      assert ItemsUpTo(all, 0) == [];
    }
  }

  lemma Prepend(a: Value, s: seq<Value>, b: Value)
    ensures [a] + s + [b] == [a] + (s + [b])
  {
  }

  /** The text of a list by its first item. */
  lemma ItemsHead(it: Item, items: seq<Item>)
    ensures ItemsFrom([it] + items, 0) == ItemText(it) + ((if items != [] then "," else "") + ItemsFrom(items, 0))
  {
    var all := [it] + items;
    ItemsShift(it, items, 0);
    assert all[0] == it;
    assert "" + ItemText(it) == ItemText(it);
  }

  ghost predicate ValidItems(items: seq<Item>) {
    items != [] && forall i :: 0 <= i < |items| ==> ValidItem(items[i])
  }

  /** The text of the items and the bracket, read by the loop from `t` on with `read` read before. */
  ghost predicate ItemsDerive(t: string, read: seq<Value>, items: seq<Item>, a: seq<Value>, rest: string) {
    && ValidItems(items)
    && t == ItemsFrom(items, 0) + "]" + rest && a == read + ItemsUpTo(items, |items|)
  }

  lemma LastItemDerives(t: string, read: seq<Value>, it: Item, rest: string)
    requires ValidItem(it) && t == ItemText(it) + "]" + rest
    ensures ItemsDerive(t, read, [it], read + [Meaning(it.tree)], rest)
  {
    var items := [it];
    assert ItemsFrom(items, 1) == "";
    assert ItemsFrom(items, 0) == "" + ItemText(it) + "" == ItemText(it);
    assert ItemsUpTo(items, 0) == [];
    assert ItemsUpTo(items, 1) == [Meaning(it.tree)];
  }

  lemma NextItemDerives(t: string, read: seq<Value>, it: Item, tail: string, items: seq<Item>, a: seq<Value>,
                        rest: string)
    requires ValidItem(it) && t == ItemText(it) + "," + tail
    requires ItemsDerive(tail, read + [Meaning(it.tree)], items, a, rest)
    ensures ItemsDerive(t, read, [it] + items, a, rest)
  {
    ItemsHead(it, items);
    ItemsUpToShift(it, items, |items|);
    CommaText(ItemText(it), ItemsFrom(items, 0), rest);
    MoveIn(read, Meaning(it.tree), ItemsUpTo(items, |items|));
  }

  lemma CommaText(a: string, b: string, rest: string)
    ensures a + "," + (b + "]" + rest) == a + ("," + b) + "]" + rest
    ensures a + "," + (b + "}" + rest) == a + ("," + b) + "}" + rest
  {
  }

  lemma MoveIn(read: seq<Value>, v: Value, s: seq<Value>)
    ensures read + [v] + s == read + ([v] + s)
  {
  }

  /** What a value and the white space around it are derived from. */
  lemma {:induction false} ItemDerives(t: string) returns (it: Item)
    requires ParseValue(t).Ok?
    ensures ValidItem(it) && t == ItemText(it) + SkipSpace(ParseValue(t).rest)
    ensures ParseValue(t).value == Meaning(it.tree)
    decreases |t|, 3
  {
    var before, tree := ValueDerives(t);
    var after := SpaceSplits(ParseValue(t).rest);
    it := Item(before, tree, after);
    Join(before + TreeText(tree), after, SkipSpace(ParseValue(t).rest), "");
  }

  lemma {:induction false} ElementsDerive(t: string, read: seq<Value>) returns (items: seq<Item>)
    requires Elements(t, read).Ok?
    ensures ItemsDerive(t, read, items, Elements(t, read).value, Elements(t, read).rest)
    decreases |t|, 4
  {
    ValueSkips(t);
    var it := ItemDerives(t);
    var u := SkipSpace(ParseValue(t).rest);
    var tail := u[1..];
    FirstOf(u);
    Join(ItemText(it), [u[0]], tail, "");
    if Starts(u, ']') {
      items := [it];
      LastItemDerives(t, read, it, tail);
    } else {
      var more := ElementsDerive(tail, read + [Meaning(it.tree)]);
      items := [it] + more;
      NextItemDerives(t, read, it, tail, more, Elements(t, read).value, Elements(t, read).rest);
    }
  }

  /** White space before the first item belongs to it. */
  lemma WidenItem(s: string, it: Item)
    ensures ItemText(it.(before := s + it.before)) == s + ItemText(it)
  {
    assert s + it.before + TreeText(it.tree) + it.after == s + (it.before + TreeText(it.tree) + it.after);
  }

  lemma WidenFirstItem(s: string, items: seq<Item>) returns (wide: seq<Item>)
    requires Blank(s) && ValidItems(items)
    ensures ValidItems(wide) && ItemsFrom(wide, 0) == s + ItemsFrom(items, 0)
    ensures ItemsUpTo(wide, |wide|) == ItemsUpTo(items, |items|)
  {
    var it, rest := items[0], items[1..];
    var first := it.(before := s + it.before);
    wide := [first] + rest;
    assert items == [it] + rest;
    BlankSum(s, it.before);
    ItemsHead(first, rest);
    ItemsHead(it, rest);
    WidenItem(s, it);
    Join(s, ItemText(it), (if rest != [] then "," else "") + ItemsFrom(rest, 0), "");
    ItemsUpToShift(first, rest, |rest|);
    ItemsUpToShift(it, rest, |rest|);
  }

  lemma ArrayText(u: string, s: string, inner: string, rest: string)
    requires Starts(u, '[') && u[1..] == s + (inner + "]" + rest)
    ensures u == "[" + (s + inner) + "]" + rest
  {
    assert u == "[" + u[1..];
  }

  lemma {:induction false} ArrayDerives(u: string) returns (t: Tree)
    requires Starts(u, '[') && ParseArray(u).Ok?
    ensures ValidTree(t) && u == TreeText(t) + ParseArray(u).rest && Meaning(t) == Arr(ParseArray(u).value)
    decreases |u|, 0
  {
    var s := SpaceSplits(u[1..]);
    var w := SkipSpace(u[1..]);
    if Starts(w, ']') {
      t := TArray(s, []);
      assert w == "" + "]" + w[1..];
      ArrayText(u, s, "", w[1..]);
      assert s + "" == s;
    } else {
      var items := ElementsDerive(w, []);
      var a, rest := Elements(w, []).value, Elements(w, []).rest;
      var wide := WidenFirstItem(s, items);
      t := TArray("", wide);
      assert [] + ItemsUpTo(items, |items|) == ItemsUpTo(items, |items|);
      ArrayText(u, s, ItemsFrom(items, 0), rest);
    }
  }

  // ---- Objects ----

  lemma {:induction false} FieldsShift(f: Field, fields: seq<Field>, i: nat)
    requires i <= |fields|
    ensures FieldsFrom([f] + fields, i + 1) == (if i == 0 && fields != [] then "," else "") + FieldsFrom(fields, i)
    decreases |fields| - i
  {
    var all := [f] + fields;
    if i < |fields| {
      FieldsShift(f, fields, i + 1);
      assert all[i + 1] == fields[i];
      if i == 0 { assert "" + FieldText(fields[0]) == FieldText(fields[0]); }
      assert FieldsFrom(all, i + 1) == "," + FieldText(fields[i]) + FieldsFrom(all, i + 2);
    }
  }

  lemma FieldsHead(f: Field, fields: seq<Field>)
    ensures FieldsFrom([f] + fields, 0) == FieldText(f) + ((if fields != [] then "," else "") + FieldsFrom(fields, 0))
  {
    var all := [f] + fields;
    FieldsShift(f, fields, 0);
    assert all[0] == f;
    assert "" + FieldText(f) == FieldText(f);
  }

  ghost predicate ValidFields(fields: seq<Field>) {
    forall i :: 0 <= i < |fields| ==> ValidField(fields[i])
  }

  /** The fields in turn, put into the members read before. */
  ghost function PutAll(read: seq<Member>, fields: seq<Field>): seq<Member>
    requires ValidFields(fields)
    decreases |fields|
  {
    if fields == [] then read
    else PutAll(Emplace(read, PiecesMeaning(fields[0].key), Meaning(fields[0].tree)), fields[1..])
  }

  lemma {:induction false} PutLast(read: seq<Member>, fields: seq<Field>)
    requires ValidFields(fields) && fields != []
    ensures var n := |fields| - 1;
      PutAll(read, fields) == Emplace(PutAll(read, fields[..n]), PiecesMeaning(fields[n].key), Meaning(fields[n].tree))
    decreases |fields|
  {
    var n := |fields| - 1;
    if n > 0 {
      PutLast(Emplace(read, PiecesMeaning(fields[0].key), Meaning(fields[0].tree)), fields[1..]);
      assert fields[1..][..n - 1] == fields[..n][1..];
    }
  }

  lemma {:induction false} PutAllIsUpTo(fields: seq<Field>, n: nat)
    requires ValidFields(fields) && n <= |fields|
    ensures PutAll([], fields[..n]) == FieldsUpTo(fields, n)
  {
    if n > 0 {
      PutAllIsUpTo(fields, n - 1);
      PutLast([], fields[..n]);
      assert fields[..n][..n - 1] == fields[..n - 1];
    }
  }

  ghost predicate FieldsDerive(t: string, read: seq<Member>, fields: seq<Field>, o: seq<Member>, rest: string) {
    && fields != [] && ValidFields(fields)
    && t == FieldsFrom(fields, 0) + "}" + rest && o == PutAll(read, fields)
  }

  /** What a member and the white space after it are derived from. */
  lemma {:induction false} MemberDerives(t: string) returns (f: Field)
    requires ParseMember(t).Ok?
    ensures ValidField(f) && t == FieldText(f) + SkipSpace(ParseMember(t).rest)
    ensures ParseMember(t).value == Member(PiecesMeaning(f.key), Meaning(f.tree))
    decreases |t|, 2
  {
    var before := SpaceSplits(t);
    var q := SkipSpace(t);
    var key := StringDerives(q);
    var r := ParseString(q).rest;
    var middle := SpaceSplits(r);
    var u := SkipSpace(r);
    ValueSkips(u[1..]);
    var colon, tree := ValueDerives(u[1..]);
    var r' := ParseMember(t).rest;
    var after := SpaceSplits(r');
    var tail := SkipSpace(r');
    f := Field(before, key, middle, colon, tree, after);
    FieldParts(f, tail);
    assert u == ":" + u[1..];
    assert u[1..] == colon + TreeText(tree) + (after + tail);
  }

  lemma LastFieldDerives(t: string, read: seq<Member>, f: Field, rest: string)
    requires ValidField(f) && t == FieldText(f) + "}" + rest
    ensures FieldsDerive(t, read, [f], Emplace(read, PiecesMeaning(f.key), Meaning(f.tree)), rest)
  {
    var fields := [f];
    assert FieldsFrom(fields, 1) == "";
    assert FieldsFrom(fields, 0) == "" + FieldText(f) + "" == FieldText(f);
    assert fields[1..] == [];
  }

  lemma NextFieldDerives(t: string, read: seq<Member>, f: Field, tail: string, fields: seq<Field>, o: seq<Member>,
                         rest: string)
    requires ValidField(f) && t == FieldText(f) + "," + tail
    requires FieldsDerive(tail, Emplace(read, PiecesMeaning(f.key), Meaning(f.tree)), fields, o, rest)
    ensures FieldsDerive(t, read, [f] + fields, o, rest)
  {
    assert ([f] + fields)[1..] == fields;
    FieldsHead(f, fields);
    CommaText(FieldText(f), FieldsFrom(fields, 0), rest);
  }

  lemma {:induction false} MembersDerive(t: string, read: seq<Member>) returns (fields: seq<Field>)
    requires Members(t, read).Ok?
    ensures FieldsDerive(t, read, fields, Members(t, read).value, Members(t, read).rest)
    decreases |t|, 4
  {
    var f := MemberDerives(t);
    var m := ParseMember(t);
    var u := SkipSpace(m.rest);
    var tail := u[1..];
    FirstOf(u);
    Join(FieldText(f), [u[0]], tail, "");
    if Starts(u, '}') {
      fields := [f];
      LastFieldDerives(t, read, f, tail);
    } else {
      var more := MembersDerive(tail, Emplace(read, m.value.key, m.value.value));
      fields := [f] + more;
      NextFieldDerives(t, read, f, tail, more, Members(t, read).value, Members(t, read).rest);
    }
  }

  lemma WidenField(s: string, f: Field)
    ensures FieldText(f.(before := s + f.before)) == s + FieldText(f)
  {
    var wide := f.(before := s + f.before);
    FieldParts(wide, "");
    FieldParts(f, "");
    assert FieldText(wide) + "" == FieldText(wide) && FieldText(f) + "" == FieldText(f);
    Join(s, f.before, AfterBefore(f, ""), "");
  }

  lemma WidenFirstField(s: string, fields: seq<Field>) returns (wide: seq<Field>)
    requires Blank(s) && fields != [] && ValidFields(fields)
    ensures wide != [] && ValidFields(wide) && FieldsFrom(wide, 0) == s + FieldsFrom(fields, 0)
    ensures PutAll([], wide) == PutAll([], fields)
  {
    var f, rest := fields[0], fields[1..];
    var first := f.(before := s + f.before);
    wide := [first] + rest;
    assert fields == [f] + rest && wide[1..] == rest;
    BlankSum(s, f.before);
    FieldsHead(first, rest);
    FieldsHead(f, rest);
    WidenField(s, f);
    Join(s, FieldText(f), (if rest != [] then "," else "") + FieldsFrom(rest, 0), "");
  }

  lemma ObjectText(u: string, s: string, inner: string, rest: string)
    requires Starts(u, '{') && u[1..] == s + (inner + "}" + rest)
    ensures u == "{" + (s + inner) + "}" + rest
  {
    assert u == "{" + u[1..];
  }

  lemma {:induction false} ObjectDerives(u: string) returns (t: Tree)
    requires Starts(u, '{') && ParseObject(u).Ok?
    ensures ValidTree(t) && u == TreeText(t) + ParseObject(u).rest && Meaning(t) == Obj(ParseObject(u).value)
    decreases |u|, 0
  {
    var s := SpaceSplits(u[1..]);
    var w := SkipSpace(u[1..]);
    if Starts(w, '}') {
      t := TObject(s, []);
      assert w == "" + "}" + w[1..];
      ObjectText(u, s, "", w[1..]);
      assert s + "" == s;
    } else {
      var fields := MembersDerive(w, []);
      var rest := Members(w, []).rest;
      var wide := WidenFirstField(s, fields);
      t := TObject("", wide);
      PutAllIsUpTo(wide, |wide|);
      assert wide[..|wide|] == wide;
      ObjectText(u, s, FieldsFrom(fields, 0), rest);
    }
  }

  /** An accepted text is one that the grammar derives, and gives the value it stands for. */
  lemma OnlyGrammar(t: string) returns (before: string, tree: Tree, after: string)
    requires Parse(t).Ok?
    ensures Blank(before) && ValidTree(tree) && Blank(after)
    ensures t == before + TreeText(tree) + after && Parse(t).value == Meaning(tree)
  {
    before, tree := ValueDerives(t);
    after := SpaceSplits(ParseValue(t).rest);
    assert after + "" == after;
  }
}
