/** The parser and the printer as the source writes them: a cursor that advances, text that grows. */
module JsonCursor {
  import opened Options
  import opened Json

  class Cursor {
    const s: string
    var i: nat

    ghost predicate Valid()
      reads this
    {
      i <= |s|
    }

    /** What is left to read. */
    ghost function Rest(): string
      reads this
      requires Valid()
    {
      s[i..]
    }

    constructor (s: string)
      ensures Valid() && this.s == s && i == 0
    {
      this.s := s;
      i := 0;
    }

    function Eof(): bool
      reads this
    {
      i >= |s|
    }

    /** The source returns a null character at the end; no test below is for one. */
    predicate At(c: char)
      reads this
    {
      i < |s| && s[i] == c
    }

    predicate AtDigit()
      reads this
    {
      i < |s| && IsDigit(s[i])
    }

    method Advance()
      requires Valid() && i < |s|
      modifies this
      ensures Valid() && Rest() == old(Rest())[1..]
    {
      i := i + 1;
    }

    method SkipWhiteSpace()
      requires Valid()
      modifies this
      ensures Valid() && Rest() == SkipSpace(old(Rest()))
    {
      while i < |s| && IsSpace(s[i])
        invariant Valid() && SkipSpace(Rest()) == SkipSpace(old(Rest()))
        decreases |s| - i
      {
        Advance();
      }
    }

    method ReadString() returns (r: Option<string>)
      requires Valid()
      modifies this
      ensures Valid() && ParseString(old(Rest())) == Report(r)
    {
      if !At('\"') { return None; }
      Advance();
      var out := "";
      while i < |s|
        invariant Valid() && StringBody(Rest(), out) == ParseString(old(Rest()))
        decreases |s| - i
      {
        var ch := s[i];
        Advance();
        if ch == '\"' { return Some(out); }
        if ch == '\\' {
          if i >= |s| { return None; }
          var e := Unescape(s[i]);
          assert s[i..][1..] == s[i + 1..];
          Advance();
          if e.None? { return None; }
          out := out + [e.value];
        } else {
          out := out + [ch];
        }
      }
      return None;
    }

    /** The outcome of an operation of the cursor in terms of the text that is left. */
    ghost function Report<T>(r: Option<T>): Parsed<T>
      reads this
      requires Valid()
    {
      match r
      case Some(v) => Ok(v, Rest())
      case None => Fail(Rest())
    }

    method SkipAllDigits() returns (digits: string)
      requires Valid()
      modifies this
      ensures Valid() && Rest() == SkipDigits(old(Rest()))
      ensures digits == old(Rest())[..|old(Rest())| - |Rest()|]
    {
      var start := i;
      while AtDigit()
        invariant start <= i && Valid() && SkipDigits(Rest()) == SkipDigits(old(Rest()))
        decreases |s| - i
      {
        Advance();
      }
      digits := s[start..i];
    }

    method ReadNumber() returns (r: Option<real>)
      requires Valid()
      modifies this
      ensures Valid() && ParseNumber(old(Rest())) == Report(r)
    {
      var negative := At('-');
      if negative { Advance(); }
      var integer := ReadInteger();
      if integer.None? { return None; }
      var fraction := ReadFraction();
      if fraction.None? { return None; }
      var exponent := ReadExponent();
      if exponent.None? { return None; }
      return Some(Denotes(negative, integer.value, fraction.value, exponent.value));
    }

    method ReadInteger() returns (r: Option<string>)
      requires Valid()
      modifies this
      ensures Valid() && AfterInteger(old(Rest())) == Report(r)
    {
      if !AtDigit() { return None; }
      if At('0') {
        Advance();
        assert old(Rest())[..1] == "0";
        return Some("0");
      }
      var digits := SkipAllDigits();
      return Some(digits);
    }

    method ReadFraction() returns (r: Option<string>)
      requires Valid()
      modifies this
      ensures Valid() && AfterFraction(old(Rest())) == Report(r)
    {
      if !At('.') { return Some(""); }
      Advance();
      if !AtDigit() { return None; }
      var digits := SkipAllDigits();
      return Some(digits);
    }

    method ReadExponent() returns (r: Option<int>)
      requires Valid()
      modifies this
      ensures Valid() && AfterExponent(old(Rest())) == Report(r)
    {
      if !At('e') && !At('E') { return Some(0); }
      Advance();
      r := ReadSignedDigits();
    }

    /** An optional sign and at least one digit. */
    method ReadSignedDigits() returns (r: Option<int>)
      requires Valid()
      modifies this
      ensures Valid() && SignedDigits(old(Rest())) == Report(r)
    {
      var negative := At('-');
      if At('+') || At('-') { Advance(); }
      if !AtDigit() { return None; }
      var digits := SkipAllDigits();
      var e: int := DecimalValue(digits);
      return Some(if negative then -e else e);
    }

    method MatchLiteral(lit: string) returns (ok: bool)
      requires Valid()
      modifies this
      ensures Valid() && ok == (lit <= old(Rest()))
      ensures Rest() == if ok then old(Rest())[|lit|..] else old(Rest())
    {
      assert i + |lit| <= |s| ==> s[i..][..|lit|] == s[i..i + |lit|];
      if i + |lit| <= |s| && s[i..i + |lit|] == lit {
        i := i + |lit|;
        return true;
      }
      return false;
    }

    method ReadValue() returns (r: Option<Value>)
      requires Valid()
      modifies this
      ensures Valid() && ParseValue(old(Rest())) == Report(r)
      decreases |s| - i, 2
    {
      SkipWhiteSpace();
      r := ReadToken();
    }

    method ReadToken() returns (r: Option<Value>)
      requires Valid()
      modifies this
      ensures Valid() && ParseToken(old(Rest())) == Report(r)
      decreases |s| - i, 1
    {
      if At('\"') {
        var x := ReadString();
        r := if x.Some? then Some(Str(x.value)) else None;
      } else if At('{') {
        var x := ReadObject();
        r := if x.Some? then Some(Obj(x.value)) else None;
      } else if At('[') {
        var x := ReadArray();
        r := if x.Some? then Some(Arr(x.value)) else None;
      } else if At('-') || AtDigit() {
        var x := ReadNumber();
        r := if x.Some? then Some(Number(x.value)) else None;
      } else {
        r := ReadLiteral();
      }
    }

    method ReadLiteral() returns (r: Option<Value>)
      requires Valid()
      modifies this
      ensures Valid() && ParseLiteral(old(Rest())) == Report(r)
    {
      var ok := MatchLiteral("true");
      if ok { return Some(Bool(true)); }
      ok := MatchLiteral("false");
      if ok { return Some(Bool(false)); }
      ok := MatchLiteral("null");
      if ok { return Some(Null); }
      return None;
    }

    method ReadArray() returns (r: Option<seq<Value>>)
      requires Valid()
      modifies this
      ensures Valid() && ParseArray(old(Rest())) == Report(r)
      decreases |s| - i, 0
    {
      if !At('[') { return None; }
      Advance();
      SkipWhiteSpace();
      var a: seq<Value> := [];
      if At(']') {
        Advance();
        return Some(a);
      }
      while true
        invariant Valid() && Elements(Rest(), a) == ParseArray(old(Rest())) && i > old(i)
        decreases |s| - i
      {
        SkipWhiteSpace();
        var v := ReadValue();
        if v.None? { return None; }
        SkipWhiteSpace();
        a := a + [v.value];
        if At(']') {
          Advance();
          return Some(a);
        }
        if !At(',') { return None; }
        Advance();
      }
    }

    method ReadMember() returns (r: Option<Member>)
      requires Valid()
      modifies this
      ensures Valid() && ParseMember(old(Rest())) == Report(r)
      decreases |s| - i, 3
    {
      SkipWhiteSpace();
      var key := ReadString();
      if key.None? { return None; }
      SkipWhiteSpace();
      if !At(':') { return None; }
      Advance();
      SkipWhiteSpace();
      var v := ReadValue();
      return if v.Some? then Some(Member(key.value, v.value)) else None;
    }

    method ReadObject() returns (r: Option<seq<Member>>)
      requires Valid()
      modifies this
      ensures Valid() && ParseObject(old(Rest())) == Report(r)
      decreases |s| - i, 0
    {
      if !At('{') { return None; }
      Advance();
      SkipWhiteSpace();
      var o: seq<Member> := [];
      if At('}') {
        Advance();
        return Some(o);
      }
      while true
        invariant Valid() && Members(Rest(), o) == ParseObject(old(Rest())) && i > old(i)
        decreases |s| - i
      {
        var m := ReadMember();
        if m.None? { return None; }
        o := Emplace(o, m.value.key, m.value.value);
        SkipWhiteSpace();
        if At('}') {
          Advance();
          return Some(o);
        }
        if !At(',') { return None; }
        Advance();
      }
    }
  }

  /** On failure the source reports the offset at which the cursor stands. */
  method ParseText(text: string) returns (r: Option<Value>, offset: nat)
    ensures offset <= |text|
    ensures Parse(text) == if r.Some? then Ok(r.value, "") else Fail(text[offset..])
  {
    var c := new Cursor(text);
    assert c.Rest() == text;
    r := c.ReadValue();
    if r.None? { return r, c.i; }
    c.SkipWhiteSpace();
    if !c.Eof() { return None, c.i; }
    return r, c.i;
  }

  // ---- Printing ----

  lemma NextEscaped(text: string, s: string, i: nat)
    requires i < |s|
    ensures text + EscapedChar(s[i]) + Escaped(s[i + 1..]) == text + Escaped(s[i..])
  {
  }

  class Output {
    var text: string

    constructor ()
      ensures text == ""
    {
      text := "";
    }

    method Put(t: string)
      modifies this
      ensures text == old(text) + t
    {
      text := text + t;
    }

    method PutString(s: string)
      modifies this
      ensures text == old(text) + StringText(s)
    {
      Put("\"");
      assert s[0..] == s;
      for i := 0 to |s|
        invariant text + Escaped(s[i..]) == old(text) + "\"" + Escaped(s)
      {
        NextEscaped(text, s, i);
        Put(EscapedChar(s[i]));
      }
      assert Escaped(s[|s|..]) == "" && text + "" == text;
      Regroup(old(text), "\"", Escaped(s), "\"");
      Put("\"");
    }

    method PutValue(v: Value)
      requires Printable(v)
      modifies this
      ensures text == old(text) + Text(v)
      decreases v, 1
    {
      match v
      case Null => Put("null");
      case Bool(b) => Put(if b then "true" else "false");
      case Number(n) => Put(NumberText(n));
      case Str(s) => PutString(s);
      case Arr(a) => PutArray(a);
      case Obj(o) => PutObject(o);
    }

    method PutArray(a: seq<Value>)
      requires forall i :: 0 <= i < |a| ==> Printable(a[i])
      modifies this
      ensures text == old(text) + Text(Arr(a))
      decreases a, 0
    {
      Put("[");
      for i := 0 to |a|
        invariant text + ElementsFrom(a, i) == old(text) + "[" + ElementsFrom(a, 0)
      {
        ghost var before, comma := text, if i > 0 then "," else "";
        if i > 0 { Put(","); }
        PutValue(a[i]);
        assert text == before + comma + Text(a[i]);
        Regroup(before, comma, Text(a[i]), ElementsFrom(a, i + 1));
      }
      Regroup(old(text), "[", ElementsFrom(a, 0), "]");
      Put("]");
    }

    method PutObject(o: seq<Member>)
      requires forall i :: 0 <= i < |o| ==> Printable(o[i].value)
      modifies this
      ensures text == old(text) + Text(Obj(o))
      decreases o, 0
    {
      Put("{");
      for i := 0 to |o|
        invariant text + MembersFrom(o, i) == old(text) + "{" + MembersFrom(o, 0)
      {
        ghost var before, comma := text, if i > 0 then "," else "";
        if i > 0 { Put(","); }
        PutMember(o[i]);
        assert text == before + comma + MemberText(o[i]);
        Regroup(before, comma, MemberText(o[i]), MembersFrom(o, i + 1));
      }
      Regroup(old(text), "{", MembersFrom(o, 0), "}");
      Put("}");
    }

    method PutMember(m: Member)
      requires Printable(m.value)
      modifies this
      ensures text == old(text) + MemberText(m)
      decreases m, 0
    {
      PutString(m.key);
      Put(":");
      PutValue(m.value);
      Regroup(old(text), StringText(m.key), ":", Text(m.value));
    }
  }
}
