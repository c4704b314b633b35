/** Link headers printed and read back: parameters come back unchanged, and so do whole link values. */
module AcmeLinkPrint {
  import opened Wrappers
  import opened AcmeLink
  import opened AcmeLinkParams

  /** A lower-case token as a name; a value only where there is an equals sign. */
  predicate Printable(p: Param) {
    Token(p.name) && Lower(p.name) == p.name && (p.hasValue || p.value == [])
  }

  function Print(p: Param): string {
    if p.hasValue then p.name + ['=', '"'] + Escape(p.value) + ['"'] else p.name
  }

  function Prints(ps: seq<Param>): (r: seq<string>)
    ensures |r| == |ps|
  {
    if ps == [] then [] else [Print(ps[0])] + Prints(ps[1..])
  }

  /** Each parameter behind a semicolon. */
  function PrintAll(ps: seq<Param>): string {
    if ps == [] then [] else [';'] + Print(ps[0]) + PrintAll(ps[1..])
  }

  /** A separator that no token holds and that is not the equals sign. */
  predicate Outside(d: Scanner) {
    ScannerOk(d) && !TokenChar(d.sep) && d.sep != '='
  }

  lemma {:induction false} TokenScan(d: Scanner, s: string)
    requires Outside(d) && forall i :: 0 <= i < |s| ==> TokenChar(s[i])
    ensures Balanced(d, s)
    decreases |s|
  {
    if s != [] {
      assert TokenChar(s[0]);
      TokenScan(d, s[1..]);
    }
  }

  const QUOTED := Mode(false, true, false)

  lemma {:induction false} EscapeScan(d: Scanner, v: string)
    ensures NoCut(d, QUOTED, Escape(v)) && EndMode(d, QUOTED, Escape(v)) == QUOTED
    decreases |v|
  {
    if v != [] {
      EscapeScan(d, v[1..]);
      var e := Escape(v[1..]);
      if v[0] == '"' || v[0] == '\\' {
        var s := Escape(v);
        assert s[0] == '\\' && s[1] == v[0] && s[1..][1..] == e && s[1..][0] == v[0];
        assert NoCut(d, Mode(false, true, true), s[1..]) && EndMode(d, Mode(false, true, true), s[1..]) == QUOTED;
      } else {
        assert Escape(v)[1..] == e && Escape(v)[0] == v[0];
      }
    }
  }

  lemma OneChar(d: Scanner, m: Mode, c: char)
    ensures NoCut(d, m, [c]) <==> !Cuts(d, m, c)
    ensures EndMode(d, m, [c]) == Next(d, m, c)
  {
    assert [c][1..] == [];
  }

  lemma BalancedJoin(d: Scanner, s: string, t: string)
    requires Balanced(d, s) && Balanced(d, t)
    ensures Balanced(d, s + t)
  {
    NoCutAppend(d, START, s, t);
    EndModeAppend(d, START, s, t);
  }

  /** A quoted string shields whatever it holds. */
  lemma QuotedBalanced(d: Scanner, v: string)
    requires Outside(d)
    ensures Balanced(d, ['=', '"'] + Escape(v) + ['"'])
  {
    hide Escape, NoCut, EndMode;
    assert ['=', '"'] == ['='] + ['"'];
    OneChar(d, START, '=');
    OneChar(d, START, '"');
    OneChar(d, QUOTED, '"');
    EscapeScan(d, v);
    NoCutAppend(d, START, ['='], ['"']);
    EndModeAppend(d, START, ['='], ['"']);
    NoCutAppend(d, START, ['=', '"'], Escape(v));
    EndModeAppend(d, START, ['=', '"'], Escape(v));
    NoCutAppend(d, START, ['=', '"'] + Escape(v), ['"']);
    EndModeAppend(d, START, ['=', '"'] + Escape(v), ['"']);
  }

  lemma PrintBalanced(d: Scanner, p: Param)
    requires Outside(d) && Printable(p)
    ensures Balanced(d, Print(p))
  {
    hide Balanced, Escape;
    TokenScan(d, p.name);
    if p.hasValue {
      QuotedBalanced(d, p.value);
      BalancedJoin(d, p.name, ['=', '"'] + Escape(p.value) + ['"']);
      assert Print(p) == p.name + (['=', '"'] + Escape(p.value) + ['"']);
    }
  }

  lemma NotBlank(s: string)
    requires s != [] && !IsBlank(s[0]) && !IsBlank(s[|s| - 1])
    ensures Trim(s) == s
  {
  }

  lemma {:induction false} IndexAfter(name: string, rest: string)
    requires forall i :: 0 <= i < |name| ==> TokenChar(name[i])
    requires rest == [] || rest[0] == '='
    ensures IndexOf(name + rest, '=') == |name|
    decreases |name|
  {
    if name == [] {
      assert name + rest == rest;
    } else {
      IndexAfter(name[1..], rest);
      assert (name + rest)[0] == name[0] && (name + rest)[1..] == name[1..] + rest;
    }
  }

  lemma ValueReadsBack(v: string)
    ensures ParseValue(Trim(['"'] + Escape(v) + ['"'])) == Ok(v)
  {
    hide Escape, Trim, ValidInterior, Unescape;
    var q := ['"'] + Escape(v) + ['"'];
    NotBlank(q);
    EscapeRoundTrip(v);
    assert q[1..|q| - 1] == Escape(v);
  }

  /** A printed parameter is not blank at its ends and reads back as itself. */
  lemma ParamReadsBack(p: Param)
    requires Printable(p)
    ensures Trim(Print(p)) == Print(p) && Print(p) != [] && ParseParam(Print(p)) == Ok(p)
  {
    hide Escape, Trim, ParseValue, Lower;
    var s := Print(p);
    NotBlank(p.name);
    NotBlank(s);
    if p.hasValue {
      var rest := ['=', '"'] + Escape(p.value) + ['"'];
      assert s == p.name + rest;
      IndexAfter(p.name, rest);
      assert s[..|p.name|] == p.name;
      assert s[|p.name| + 1..] == ['"'] + Escape(p.value) + ['"'];
      ValueReadsBack(p.value);
    } else {
      IndexAfter(p.name, []);
      assert p.name + [] == p.name;
    }
  }

  predicate AllPrintable(ps: seq<Param>) {
    forall p :: p in ps ==> Printable(p)
  }

  lemma FitsCons(d: Scanner, p: string, rest: seq<string>)
    requires Balanced(d, p) && Fits(d, START, rest)
    ensures Fits(d, START, [p] + rest) && Join(d.sep, [p] + rest) == p + [d.sep] + Join(d.sep, rest)
  {
    hide NoCut, EndMode;
    assert ([p] + rest)[1..] == rest;
  }

  lemma FitsOne(d: Scanner, p: string)
    requires Balanced(d, p)
    ensures Fits(d, START, [p]) && Join(d.sep, [p]) == p
  {
    hide NoCut, EndMode;
  }

  lemma {:induction false} PrintsFit(ps: seq<Param>)
    requires AllPrintable(ps) && ps != []
    ensures Fits(PARAMS, START, Prints(ps)) && [';'] + Join(';', Prints(ps)) == PrintAll(ps)
    decreases |ps|
  {
    hide Print, Balanced, Printable, Fits, Join;
    assert ps[0] in ps;
    PrintBalanced(PARAMS, ps[0]);
    if |ps| > 1 {
      PrintsFit(ps[1..]);
      FitsCons(PARAMS, Print(ps[0]), Prints(ps[1..]));
    } else {
      FitsOne(PARAMS, Print(ps[0]));
      assert Prints(ps) == [Print(ps[0])] && PrintAll(ps[1..]) == [];
      assert [';'] + Print(ps[0]) + [] == [';'] + Print(ps[0]);
    }
  }

  lemma {:induction false} PartsReadBack(ps: seq<Param>)
    requires AllPrintable(ps)
    ensures ParseParts(Prints(ps), false) == Ok(ps)
    decreases |ps|
  {
    hide Print, Trim, ParseParam, Printable;
    if ps != [] {
      assert ps[0] in ps;
      ParamReadsBack(ps[0]);
      PartsReadBack(ps[1..]);
      assert Prints(ps)[1..] == Prints(ps[1..]) && Prints(ps)[0] == Print(ps[0]);
      assert [ps[0]] + ps[1..] == ps;
    }
  }

  /**
   Parameters with lower-case token names and any values, printed with quotes and backslashes escaped, come back
   unchanged.
   */
  lemma ParamsReadBack(ps: seq<Param>)
    requires AllPrintable(ps)
    ensures SplitParams(PrintAll(ps)) == Ok(ps)
  {
    hide Cut, Fits, Prints, Printable;
    var parts := [[]] + Prints(ps);
    assert parts[1..] == Prints(ps);
    PartsReadBack(ps);
    assert Trim([]) == [];
    PartsFit(ps);
    CutExactly(PARAMS, START, PrintAll(ps), parts);
  }

  lemma PartsFit(ps: seq<Param>)
    requires AllPrintable(ps)
    ensures var parts := [[]] + Prints(ps);
      Fits(PARAMS, START, parts) && Join(';', parts) == PrintAll(ps)
  {
    hide Print, Printable;
    var parts := [[]] + Prints(ps);
    assert parts[1..] == Prints(ps);
    if ps != [] { PrintsFit(ps); }
  }

  // ---------------------------------------------------------------- whole links

  /** A link value: a target in angle brackets and its parameters. */
  datatype Link = Link(target: string, params: seq<Param>)

  predicate PrintableLink(l: Link) {
    (forall i :: 0 <= i < |l.target| ==> l.target[i] != '>' && l.target[i] != '"') && AllPrintable(l.params)
  }

  function PrintLink(l: Link): string {
    ['<'] + l.target + ['>'] + PrintAll(l.params)
  }

  function PrintLinks(ls: seq<Link>): (r: seq<string>)
    ensures |r| == |ls|
  {
    seq(|ls|, i requires 0 <= i < |ls| => PrintLink(ls[i]))
  }

  const ANGLED := Mode(true, false, false)

  lemma {:induction false} TargetScan(s: string)
    requires forall i :: 0 <= i < |s| ==> s[i] != '>' && s[i] != '"'
    ensures NoCut(VALUES, ANGLED, s) && EndMode(VALUES, ANGLED, s) == ANGLED
    decreases |s|
  {
    if s != [] { TargetScan(s[1..]); }
  }

  lemma TargetBalanced(s: string)
    requires forall i :: 0 <= i < |s| ==> s[i] != '>' && s[i] != '"'
    ensures Balanced(VALUES, ['<'] + s + ['>'])
  {
    hide NoCut, EndMode;
    OneChar(VALUES, START, '<');
    OneChar(VALUES, ANGLED, '>');
    TargetScan(s);
    NoCutAppend(VALUES, START, ['<'], s);
    EndModeAppend(VALUES, START, ['<'], s);
    NoCutAppend(VALUES, START, ['<'] + s, ['>']);
    EndModeAppend(VALUES, START, ['<'] + s, ['>']);
  }

  lemma {:induction false} PrintAllBalanced(ps: seq<Param>)
    requires AllPrintable(ps)
    ensures Balanced(VALUES, PrintAll(ps))
    decreases |ps|
  {
    hide Print, Printable;
    if ps != [] {
      hide Balanced;
      assert ps[0] in ps;
      PrintBalanced(VALUES, ps[0]);
      PrintAllBalanced(ps[1..]);
      SemicolonBalanced();
      BalancedJoin(VALUES, [';'], Print(ps[0]));
      BalancedJoin(VALUES, [';'] + Print(ps[0]), PrintAll(ps[1..]));
    }
  }

  lemma SemicolonBalanced()
    ensures Balanced(VALUES, [';'])
  {
    OneChar(VALUES, START, ';');
  }

  lemma LinkBalanced(l: Link)
    requires PrintableLink(l)
    ensures Balanced(VALUES, PrintLink(l))
  {
    hide Balanced, PrintAll;
    TargetBalanced(l.target);
    PrintAllBalanced(l.params);
    BalancedJoin(VALUES, ['<'] + l.target + ['>'], PrintAll(l.params));
  }

  /** A header of printed links splits into those links, commas inside targets and values notwithstanding. */
  lemma LinksSplitBack(ls: seq<Link>)
    requires ls != [] && forall l :: l in ls ==> PrintableLink(l)
    ensures SplitValues(Join(',', PrintLinks(ls))) == Ok(PrintLinks(ls))
  {
    hide Balanced, PrintLink, PrintableLink, Join;
    var ps := PrintLinks(ls);
    forall p | p in ps ensures Balanced(VALUES, p) {
      var i :| 0 <= i < |ps| && ps[i] == p;
      assert ls[i] in ls;
      LinkBalanced(ls[i]);
    }
    SplitValuesExactly(Join(',', ps), ps);
  }
}
