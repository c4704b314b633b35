/**
 The Link header scanners of acme.js (section 3 of RFC 8288): cutting a header into link
 values and a link value into parameters. Cutting is exactly the inverse of joining.
 */
module AcmeLink {
  import opened Wrappers

  // ---------------------------------------------------------------- scanning

  /** Where a scanner is: inside angle brackets, inside a quoted string, just after a backslash in one. */
  datatype Mode = Mode(inAngle: bool, inQuote: bool, escaped: bool)

  const START := Mode(false, false, false)

  /** What a scanner cuts at, and whether angle brackets shield it. */
  datatype Scanner = Scanner(sep: char, angles: bool)

  const VALUES := Scanner(',', true)
  const PARAMS := Scanner(';', false)

  function Next(d: Scanner, m: Mode, c: char): Mode {
    if m.escaped then m.(escaped := false)
    else if m.inQuote then (if c == '\\' then m.(escaped := true) else if c == '"' then m.(inQuote := false) else m)
    else if c == '"' then m.(inQuote := true)
    else if d.angles && c == '<' then m.(inAngle := true)
    else if d.angles && c == '>' then m.(inAngle := false)
    else m
  }

  predicate Cuts(d: Scanner, m: Mode, c: char) {
    m == START && c == d.sep
  }

  /** The pieces between the separators that stand outside quotes and angle brackets. */
  function Cut(d: Scanner, m: Mode, s: string): (ps: seq<string>)
    ensures ps != []
    decreases |s|
  {
    if s == [] then [[]]
    else if Cuts(d, m, s[0]) then [[]] + Cut(d, START, s[1..])
    else Prepend([s[0]], Cut(d, Next(d, m, s[0]), s[1..]))
  }

  function Prepend(x: string, ps: seq<string>): (r: seq<string>)
    requires ps != []
    ensures r != []
  {
    [x + ps[0]] + ps[1..]
  }

  /** Where a scanner is at the end of a string. */
  function EndMode(d: Scanner, m: Mode, s: string): Mode
    decreases |s|
  {
    if s == [] then m else EndMode(d, Next(d, m, s[0]), s[1..])
  }

  /** No separator of the string stands outside quotes and angle brackets. */
  predicate NoCut(d: Scanner, m: Mode, s: string)
    decreases |s|
  {
    s == [] || (!Cuts(d, m, s[0]) && NoCut(d, Next(d, m, s[0]), s[1..]))
  }

  /** Nothing to cut at, and every quote and bracket closed. */
  predicate Balanced(d: Scanner, s: string) {
    NoCut(d, START, s) && EndMode(d, START, s) == START
  }

  function Join(sep: char, ps: seq<string>): string {
    if ps == [] then [] else if |ps| == 1 then ps[0] else ps[0] + [sep] + Join(sep, ps[1..])
  }

  /** Pieces none of which can be cut, all but the last closed. */
  predicate Fits(d: Scanner, m: Mode, ps: seq<string>)
    decreases |ps|
  {
    ps != [] && NoCut(d, m, ps[0]) && (|ps| > 1 ==> EndMode(d, m, ps[0]) == START && Fits(d, START, ps[1..]))
  }

  predicate ScannerOk(d: Scanner) {
    d.sep != '"' && d.sep != '<' && d.sep != '>' && d.sep != '\\'
  }

  lemma {:induction false} CutSound(d: Scanner, m: Mode, s: string)
    ensures Fits(d, m, Cut(d, m, s)) && Join(d.sep, Cut(d, m, s)) == s
    decreases |s|
  {
    if s != [] {
      hide Cuts;
      assert s == [s[0]] + s[1..];
      if Cuts(d, m, s[0]) {
        CutSound(d, START, s[1..]);
        CutHere(d, m, s[0], Cut(d, START, s[1..]));
      } else {
        var rest := Cut(d, Next(d, m, s[0]), s[1..]);
        CutSound(d, Next(d, m, s[0]), s[1..]);
        PutFirst(d, m, s[0], rest);
      }
    }
  }

  lemma CutHere(d: Scanner, m: Mode, c: char, rest: seq<string>)
    requires Cuts(d, m, c) && Fits(d, START, rest)
    ensures Fits(d, m, [[]] + rest) && Join(d.sep, [[]] + rest) == [c] + Join(d.sep, rest)
  {
    assert ([[]] + rest)[1..] == rest;
  }

  lemma {:induction false} CutComplete(d: Scanner, m: Mode, ps: seq<string>)
    requires ScannerOk(d) && Fits(d, m, ps)
    ensures Cut(d, m, Join(d.sep, ps)) == ps
    decreases |Join(d.sep, ps)|
  {
    var s := Join(d.sep, ps);
    if ps[0] == [] {
      if |ps| == 1 {
        assert ps == [[]];
      } else {
        assert s == [d.sep] + Join(d.sep, ps[1..]);
        CutComplete(d, START, ps[1..]);
        assert ps == [[]] + ps[1..];
      }
    } else {
      hide Fits, Next, Cuts;
      var tail := [ps[0][1..]] + ps[1..];
      FirstOff(d, m, ps);
      CutComplete(d, Next(d, m, s[0]), tail);
      assert [s[0]] + tail[0] == ps[0] && tail[1..] == ps[1..];
      assert ps == Prepend([s[0]], tail);
    }
  }

  /** Cutting a string gives the pieces that cannot be cut and that joined give the string, and there are no others. */
  lemma CutExactly(d: Scanner, m: Mode, s: string, ps: seq<string>)
    requires ScannerOk(d)
    ensures Cut(d, m, s) == ps <==> Fits(d, m, ps) && Join(d.sep, ps) == s
  {
    hide Cut, Fits, Join;
    CutSound(d, m, s);
    if Fits(d, m, ps) { CutComplete(d, m, ps); }
  }

  /** Taking the first character off a list of pieces. */
  lemma FirstOff(d: Scanner, m: Mode, ps: seq<string>)
    requires Fits(d, m, ps) && ps[0] != []
    ensures var s, tail := Join(d.sep, ps), [ps[0][1..]] + ps[1..];
      s != [] && s[0] == ps[0][0] && Join(d.sep, tail) == s[1..] && Fits(d, Next(d, m, s[0]), tail) && !Cuts(d, m, s[0])
  {
    var tail := [ps[0][1..]] + ps[1..];
    assert tail[1..] == ps[1..];
    assert ps[0] == [ps[0][0]] + ps[0][1..];
  }

  lemma PutFirst(d: Scanner, m: Mode, c: char, rest: seq<string>)
    requires !Cuts(d, m, c) && Fits(d, Next(d, m, c), rest)
    ensures Fits(d, m, Prepend([c], rest)) && Join(d.sep, Prepend([c], rest)) == [c] + Join(d.sep, rest)
  {
    var ps := Prepend([c], rest);
    assert ps[1..] == rest[1..] && ps[0][1..] == rest[0];
  }

  lemma {:induction false} EndModeAppend(d: Scanner, m: Mode, s: string, t: string)
    ensures EndMode(d, m, s + t) == EndMode(d, EndMode(d, m, s), t)
    decreases |s|
  {
    if s == [] {
      assert s + t == t;
    } else {
      EndModeAppend(d, Next(d, m, s[0]), s[1..], t);
      assert (s + t)[0] == s[0] && (s + t)[1..] == s[1..] + t;
    }
  }

  lemma {:induction false} NoCutAppend(d: Scanner, m: Mode, s: string, t: string)
    ensures NoCut(d, m, s + t) <==> NoCut(d, m, s) && NoCut(d, EndMode(d, m, s), t)
    decreases |s|
  {
    if s == [] {
      assert s + t == t;
    } else {
      NoCutAppend(d, Next(d, m, s[0]), s[1..], t);
      assert (s + t)[0] == s[0] && (s + t)[1..] == s[1..] + t;
    }
  }

  lemma {:induction false} EndOfJoin(d: Scanner, m: Mode, ps: seq<string>)
    requires Fits(d, m, ps) && ScannerOk(d)
    ensures EndMode(d, m, Join(d.sep, ps)) == EndMode(d, if |ps| == 1 then m else START, ps[|ps| - 1])
    decreases |ps|
  {
    if |ps| > 1 {
      EndModeAppend(d, m, ps[0] + [d.sep], Join(d.sep, ps[1..]));
      EndModeAppend(d, m, ps[0], [d.sep]);
      assert EndMode(d, START, [d.sep]) == EndMode(d, START, []);
      EndOfJoin(d, START, ps[1..]);
    }
  }

  // ---------------------------------------------------------------- link values

  datatype LinkError =
    | Unterminated | EmptyParameter | BadName | BadQuoted | BadToken
    | NotALink | NoSemicolon | BadTarget | TwoAnchors | NoAnchorValue

  function SplitValues(s: string): Result<seq<string>, LinkError> {
    if EndMode(VALUES, START, s) != START then Err(Unterminated) else Ok(Cut(VALUES, START, s))
  }

  predicate AllBalanced(ps: seq<string>) {
    forall p :: p in ps ==> Balanced(VALUES, p)
  }

  lemma {:induction false} BalancedFits(ps: seq<string>)
    ensures Fits(VALUES, START, ps) && EndMode(VALUES, START, ps[|ps| - 1]) == START <==> ps != [] && AllBalanced(ps)
    decreases |ps|
  {
    hide NoCut, EndMode;
    if |ps| > 1 {
      BalancedFits(ps[1..]);
      assert ps == [ps[0]] + ps[1..];
      assert ps[1..][|ps| - 2] == ps[|ps| - 1];
      assert ps[0] in ps;
      assert forall p :: p in ps[1..] ==> p in ps;
      assert forall p :: p in ps ==> p == ps[0] || p in ps[1..];
    } else if |ps| == 1 {
      assert ps[0] in ps;
    }
  }

  /** A header splits into some pieces exactly when those are balanced and joined with commas give the header. */
  lemma SplitValuesExactly(s: string, ps: seq<string>)
    ensures SplitValues(s) == Ok(ps) <==> ps != [] && Join(',', ps) == s && AllBalanced(ps)
  {
    hide Cut, Fits, EndMode, Balanced, Join;
    CutExactly(VALUES, START, s, ps);
    if ps != [] {
      BalancedFits(ps);
      if Fits(VALUES, START, ps) { EndOfJoin(VALUES, START, ps); }
    }
    CutFits(s);
  }

  lemma CutFits(s: string)
    ensures Fits(VALUES, START, Cut(VALUES, START, s)) && Join(',', Cut(VALUES, START, s)) == s
  {
    CutExactly(VALUES, START, s, Cut(VALUES, START, s));
  }
}
