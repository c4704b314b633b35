/**
 The spellings of Link parameters: blanks, tokens, quoted strings and their escapes, the case
 of names, and what a list of parameters says, each written out character by character.
 */
module AcmeLinkForms {
  import opened Wrappers
  import opened AcmeLinkParams
  import opened AcmeLinkValue

  // ---------------------------------------------------------------- characters

  /** Tokens are made of the visible ASCII characters that are no delimiters (section 3.2.6 of RFC 7230). */
  lemma TokenCharExactly(c: char)
    ensures TokenChar(c) <==> '!' <= c <= '~' && c !in "\"(),/:;<=>?@[\\]{}"
  {
  }

  /** Folding case makes the letters A to Z small, and the Kelvin sign k; every other character stays what it is. */
  lemma LowerExactly(c: char)
    ensures 'A' <= c <= 'Z' ==> LowerChar(c) as int == c as int + 32
    ensures !('A' <= c <= 'Z') ==> LowerChar(c) == if c == '\U{212A}' then 'k' else c
    ensures TokenChar(LowerChar(c)) <==> TokenChar(c) || c == '\U{212A}'
  {
  }

  // ---------------------------------------------------------------- blanks

  predicate Blanks(s: string) {
    forall i :: 0 <= i < |s| ==> s[i] == ' ' || s[i] == '\t'
  }

  /** No blank at either end. */
  predicate Bare(s: string) {
    s != [] ==> s[0] != ' ' && s[0] != '\t' && s[|s| - 1] != ' ' && s[|s| - 1] != '\t'
  }

  lemma {:induction false} TrimLeftSplits(s: string)
    ensures |TrimLeft(s)| <= |s|
    ensures Blanks(s[..|s| - |TrimLeft(s)|]) && s[|s| - |TrimLeft(s)|..] == TrimLeft(s)
    ensures TrimLeft(s) != [] ==> !IsBlank(TrimLeft(s)[0])
    decreases |s|
  {
    if s != [] && IsBlank(s[0]) {
      TrimLeftSplits(s[1..]);
      var k := |s| - |TrimLeft(s)|;
      assert s[..k] == [s[0]] + s[1..][..k - 1];
    }
  }

  lemma {:induction false} TrimRightSplits(s: string)
    ensures TrimRight(s) <= s && Blanks(s[|TrimRight(s)|..])
    ensures TrimRight(s) != [] ==> !IsBlank(TrimRight(s)[|TrimRight(s)| - 1])
    decreases |s|
  {
    if s != [] && IsBlank(s[|s| - 1]) {
      var init := s[..|s| - 1];
      TrimRightSplits(init);
      assert s[|TrimRight(s)|..] == init[|TrimRight(s)|..] + [s[|s| - 1]];
    }
  }

  lemma {:induction false} BlanksLeft(a: string, s: string)
    requires Blanks(a)
    ensures TrimLeft(a + s) == TrimLeft(s)
    decreases |a|
  {
    if a == [] {
      assert a + s == s;
    } else {
      BlanksLeft(a[1..], s);
      assert (a + s)[1..] == a[1..] + s && (a + s)[0] == a[0];
    }
  }

  lemma {:induction false} BlanksRight(s: string, b: string)
    requires Blanks(b)
    ensures TrimRight(s + b) == TrimRight(s)
    decreases |b|
  {
    if b == [] {
      assert s + b == s;
    } else {
      var n := |b| - 1;
      BlanksRight(s, b[..n]);
      assert (s + b)[..|s| + n] == s + b[..n] && (s + b)[|s| + n] == b[n];
    }
  }

  /** A text with blanks before it and behind it. */
  ghost predicate Around(s: string, t: string) {
    exists a, b :: Blanks(a) && Blanks(b) && s == a + t + b
  }

  lemma TrimmedIsBare(s: string)
    ensures Bare(Trim(s)) && Around(s, Trim(s))
  {
    hide TrimLeft, TrimRight;
    TrimLeftSplits(s);
    var l := TrimLeft(s);
    TrimRightSplits(l);
    var t := TrimRight(l);
    var a, b := s[..|s| - |l|], l[|t|..];
    assert l == t + b && s == a + l;
    assert s == a + t + b;
    if t != [] { assert t[0] == l[0]; }
  }

  lemma BareIsTrimmed(a: string, t: string, b: string)
    requires Blanks(a) && Bare(t) && Blanks(b)
    ensures Trim(a + t + b) == t
  {
    assert a + t + b == a + (t + b);
    BlanksLeft(a, t + b);
    if t == [] {
      assert t + b == b && b + [] == b;
      BlanksLeft(b, []);
    } else {
      assert (t + b)[0] == t[0];
      BlanksRight(t, b);
    }
  }

  /** Trimming leaves a text without blanks at its ends, and takes nothing off but blanks. */
  lemma TrimExactly(s: string, t: string)
    ensures Trim(s) == t <==> Bare(t) && Around(s, t)
  {
    hide Trim, Blanks, Bare;
    TrimmedIsBare(s);
    forall a, b | Bare(t) && Blanks(a) && Blanks(b) && s == a + t + b ensures Trim(s) == t {
      BareIsTrimmed(a, t, b);
    }
  }

  // ---------------------------------------------------------------- quoted strings

  /** A character of a quoted string: as it is, or behind a backslash. */
  datatype Spelled = Plain(c: char) | Escaped(c: char)

  predicate Allowed(x: Spelled) {
    match x
    case Plain(c) => c != '"' && c != '\\'
    case Escaped(c) => c !in {'\n', '\r', '\U{2028}', '\U{2029}'}
  }

  predicate AllAllowed(xs: seq<Spelled>) {
    forall i :: 0 <= i < |xs| ==> Allowed(xs[i])
  }

  function Spelling(xs: seq<Spelled>): string {
    if xs == [] then []
    else (match xs[0] case Plain(c) => [c] case Escaped(c) => ['\\', c]) + Spelling(xs[1..])
  }

  function Meant(xs: seq<Spelled>): string {
    seq(|xs|, i requires 0 <= i < |xs| => xs[i].c)
  }

  lemma {:induction false} SpellingIsValid(xs: seq<Spelled>)
    requires AllAllowed(xs)
    ensures ValidInterior(Spelling(xs)) && Unescape(Spelling(xs)) == Meant(xs)
    decreases |xs|
  {
    if xs != [] {
      SpellingIsValid(xs[1..]);
      var s, rest := Spelling(xs), Spelling(xs[1..]);
      assert Allowed(xs[0]);
      assert Meant(xs) == [xs[0].c] + Meant(xs[1..]);
      if xs[0].Plain? {
        assert s[1..] == rest && s[0] == xs[0].c;
      } else {
        assert s[2..] == rest && s[0] == '\\' && s[1] == xs[0].c;
      }
    }
  }

  lemma {:induction false} ValidIsSpelling(s: string) returns (xs: seq<Spelled>)
    requires ValidInterior(s)
    ensures AllAllowed(xs) && Spelling(xs) == s
    decreases |s|
  {
    if s == [] {
      xs := [];
    } else if s[0] == '\\' {
      var rest := ValidIsSpelling(s[2..]);
      xs := [Escaped(s[1])] + rest;
      assert xs[1..] == rest && s == ['\\', s[1]] + s[2..];
    } else {
      var rest := ValidIsSpelling(s[1..]);
      xs := [Plain(s[0])] + rest;
      assert xs[1..] == rest && s == [s[0]] + s[1..];
    }
  }

  /**
   The inside of a quoted string is valid exactly when it is a row of plain characters, no quote or backslash among
   them, and of characters behind a backslash, no line end among them; it then stands for those characters.
   */
  lemma InteriorExactly(s: string)
    ensures ValidInterior(s) <==> exists xs :: AllAllowed(xs) && Spelling(xs) == s
    ensures forall xs :: AllAllowed(xs) && Spelling(xs) == s ==> Unescape(s) == Meant(xs)
  {
    hide AllAllowed, Spelling, Meant, Unescape;
    if ValidInterior(s) { var xs := ValidIsSpelling(s); }
    forall xs | AllAllowed(xs) && Spelling(xs) == s ensures ValidInterior(s) && Unescape(s) == Meant(xs) {
      SpellingIsValid(xs);
    }
  }

  // ---------------------------------------------------------------- parameters

  /** A value as it may be written: a token, or a quoted string. */
  ghost predicate Writes(text: string, value: string) {
    || (text == value && value != [] && forall i :: 0 <= i < |value| ==> TokenChar(value[i]))
    || exists xs :: AllAllowed(xs) && text == ['"'] + Spelling(xs) + ['"'] && value == Meant(xs)
  }

  lemma ValueExactly(text: string, value: string)
    ensures ParseValue(text) == Ok(value) <==> Writes(text, value)
  {
    hide ValidInterior, Unescape, AllAllowed, Spelling, Meant;
    if ParseValue(text) == Ok(value) && !Token(text) {
      var inner := text[1..|text| - 1];
      InteriorExactly(inner);
      assert text == ['"'] + inner + ['"'];
    }
    if ParseValue(text) == Ok(value) && Token(text) { assert TokenChar(text[0]); }
    if Writes(text, value) {
      if text == value && value != [] && forall i :: 0 <= i < |value| ==> TokenChar(value[i]) {
        assert TokenChar(text[0]);
      } else {
        var xs :| AllAllowed(xs) && text == ['"'] + Spelling(xs) + ['"'] && value == Meant(xs);
        InteriorExactly(Spelling(xs));
        assert text[1..|text| - 1] == Spelling(xs);
      }
    }
  }

  /** A name as it may be written: the letters of its token in either case, and the Kelvin sign for k. */
  predicate Names(text: string, name: string) {
    && |text| == |name| && name != []
    && forall i :: 0 <= i < |name| ==> TokenChar(name[i]) && LowerChar(text[i]) == name[i]
  }

  lemma NameExactly(text: string, name: string)
    ensures Lower(text) == name && Token(name) <==> Names(text, name)
    ensures Names(text, name) ==> Bare(text)
  {
    if Lower(text) == name && Token(name) {
      forall i | 0 <= i < |name| ensures TokenChar(name[i]) && LowerChar(text[i]) == name[i] {}
    }
    if Names(text, name) {
      assert Lower(text) == name;
      var n := |text| - 1;
      assert TokenChar(LowerChar(text[0])) && TokenChar(LowerChar(text[n]));
    }
  }

  lemma WrittenBare(text: string, value: string)
    requires Writes(text, value)
    ensures Bare(text)
  {
    if text == value && value != [] && forall i :: 0 <= i < |value| ==> TokenChar(value[i]) {
      assert TokenChar(text[0]) && TokenChar(text[|text| - 1]);
    } else {
      hide Spelling;
    }
  }

  /** A name and a value around an equals sign, blanks on either side of each. */
  ghost predicate Assigns(left: string, right: string, x: Param) {
    && '=' !in left && x.hasValue
    && (exists text :: Around(left, text) && Names(text, x.name))
    && (exists text :: Around(right, text) && Writes(text, x.value))
  }

  lemma AssignsExactly(left: string, right: string, x: Param)
    requires '=' !in left
    ensures Assigns(left, right, x) <==>
            && x.hasValue && x.name == Lower(Trim(left)) && Token(x.name)
            && ParseValue(Trim(right)) == Ok(x.value)
  {
    hide Trim, ParseValue, Lower, Token, Names, Writes, Bare, Around, LowerChar;
    TrimExactly(left, Trim(left));
    TrimExactly(right, Trim(right));
    NameExactly(Trim(left), x.name);
    ValueExactly(Trim(right), x.value);
    if Assigns(left, right, x) {
      var n :| Around(left, n) && Names(n, x.name);
      var v :| Around(right, v) && Writes(v, x.value);
      NameExactly(n, x.name);
      TrimExactly(left, n);
      WrittenBare(v, x.value);
      TrimExactly(right, v);
    }
  }

  lemma IndexExactly(left: string, right: string)
    requires '=' !in left
    ensures IndexOf(left + ['='] + right, '=') == |left|
  {
    IndexOfFirst(left, '=', right);
  }

  lemma AroundPlace(p: string, k: nat)
    requires k < |p|
    ensures p == p[..k] + [p[k]] + p[k + 1..]
  {
  }

  lemma FirstEquals(p: string)
    ensures var eq := IndexOf(p, '=');
      if '=' !in p then eq == |p| else eq < |p| && p == p[..eq] + ['='] + p[eq + 1..] && '=' !in p[..eq]
  {
    hide IndexOf;
    NoneBeforeIndex(p, '=');
    var eq := IndexOf(p, '=');
    if eq == |p| {
      assert p[..eq] == p;
    } else {
      AroundPlace(p, eq);
      assert p[eq] in p;
    }
  }

  /**
   A part is read as a parameter exactly when it is a name alone, or has an equals sign and before the first one a
   name, behind it a token or a quoted string that stands for the value, with blanks around both.
   */
  lemma ParamExactly(p: string, x: Param)
    ensures ParseParam(p) == Ok(x) <==>
            if '=' !in p then x == Param(x.name, [], false) && Names(p, x.name)
            else exists left, right :: p == left + ['='] + right && Assigns(left, right, x)
  {
    var eq := IndexOf(p, '=');
    FirstEquals(p);
    hide IndexOf;
    if '=' !in p {
      NameExactly(p, Lower(p));
      NameExactly(p, x.name);
      hide Names, Lower, Token, Trim;
    } else {
      var l, r := p[..eq], p[eq + 1..];
      AssignsExactly(l, r, x);
      forall left, right | p == left + ['='] + right && Assigns(left, right, x) ensures left == l && right == r {
        IndexExactly(left, right);
      }
      hide Names, Lower, Token, Trim, ParseValue, Assigns;
    }
  }

  // ---------------------------------------------------------------- what the parameters say

  predicate FirstOf(ps: seq<Param>, name: string, i: nat) {
    i < |ps| && ps[i].name == name && forall j :: 0 <= j < i ==> ps[j].name != name
  }

  lemma {:induction false} FirstNamed(ps: seq<Param>, name: string)
    ensures var ns := Named(ps, name);
      && (ns == [] <==> forall i :: 0 <= i < |ps| ==> ps[i].name != name)
      && (ns != [] ==> exists i: nat :: FirstOf(ps, name, i) && ps[i] == ns[0])
    decreases |ps|
  {
    if ps != [] {
      FirstNamed(ps[1..], name);
      if ps[0].name == name {
        assert FirstOf(ps, name, 0);
      } else {
        assert forall i :: 0 < i < |ps| ==> ps[i] == ps[1..][i - 1];
        if Named(ps[1..], name) != [] {
          var i: nat :| FirstOf(ps[1..], name, i) && ps[1..][i] == Named(ps[1..], name)[0];
          assert FirstOf(ps, name, i + 1) && ps[i + 1] == Named(ps, name)[0];
        }
      }
    }
  }

  lemma {:induction false} OneNamed(ps: seq<Param>, name: string)
    ensures |Named(ps, name)| <= 1 <==>
            forall i, j :: 0 <= i < j < |ps| ==> ps[i].name != name || ps[j].name != name
    decreases |ps|
  {
    if ps != [] {
      var rest := ps[1..];
      OneNamed(rest, name);
      FirstNamed(rest, name);
      assert forall i :: 0 <= i < |rest| ==> rest[i] == ps[i + 1];
      assert forall i :: 0 < i < |ps| ==> ps[i] == rest[i - 1];
    }
  }

  /**
   The parameters of a link say something exactly when no two of them are anchors and an anchor has a value. The
   relation is that of the first rel, the anchor that of the one anchor there may be.
   */
  lemma MeaningExactly(uri: string, ps: seq<Param>, v: LinkValue)
    ensures Meaning(uri, ps) == Ok(v) <==>
            && v.uri == uri
            && (forall i, j :: 0 <= i < j < |ps| ==> ps[i].name != "anchor" || ps[j].name != "anchor")
            && (forall i :: 0 <= i < |ps| && ps[i].name == "anchor" ==> ps[i].hasValue)
            && (if exists i: nat :: FirstOf(ps, "anchor", i)
                then exists i: nat :: FirstOf(ps, "anchor", i) && v.anchor == Some(ps[i].value)
                else v.anchor == None)
            && (if exists i: nat :: FirstOf(ps, "rel", i)
                then v.relSeen && exists i: nat :: FirstOf(ps, "rel", i) && v.rel == ps[i].value
                else !v.relSeen && v.rel == [])
  {
    FirstNamed(ps, "anchor");
    OneNamed(ps, "anchor");
    FirstNamed(ps, "rel");
    hide Named;
    forall name, i: nat, j: nat | FirstOf(ps, name, i) && FirstOf(ps, name, j) ensures i == j {}
  }
}
