/**
 A grammar of the pieces a Link header is cut into: plain characters, quoted strings and
 targets in angle brackets. What the scanner leaves whole is exactly what the grammar spells.
 */
module AcmeLinkGrammar {
  import opened AcmeLink
  import opened AcmeLinkPrint
  import opened AcmeLinkForms

  /** A character, or a quoted string with whatever it holds. */
  datatype Shield = Single(c: char) | Quoted(xs: seq<Spelled>)

  /** One step of a piece: a character or a quoted string, or a row of them in angle brackets. */
  datatype Segment = Free(x: Shield) | Angled(xs: seq<Shield>)

  /** No bare quote in a quoted string; any character may stand behind a backslash. */
  predicate QuoteOk(xs: seq<Spelled>) {
    forall i :: 0 <= i < |xs| && xs[i].Plain? ==> xs[i].c != '"' && xs[i].c != '\\'
  }

  predicate ShieldOk(x: Shield, stops: set<char>) {
    match x
    case Single(c) => c != '"' && c !in stops
    case Quoted(xs) => QuoteOk(xs)
  }

  predicate ShieldsOk(xs: seq<Shield>, stops: set<char>) {
    forall i :: 0 <= i < |xs| ==> ShieldOk(xs[i], stops)
  }

  /** Outside brackets no separator stands bare; inside brackets any character does but the closing one. */
  predicate SegmentOk(d: Scanner, g: Segment) {
    match g
    case Free(x) => ShieldOk(x, if d.angles then {'<', d.sep} else {d.sep})
    case Angled(xs) => d.angles && ShieldsOk(xs, {'>'})
  }

  predicate SegmentsOk(d: Scanner, gs: seq<Segment>) {
    forall i :: 0 <= i < |gs| ==> SegmentOk(d, gs[i])
  }

  function ShieldText(x: Shield): (r: string)
    ensures r != []
  {
    match x
    case Single(c) => [c]
    case Quoted(xs) => ['"'] + Spelling(xs) + ['"']
  }

  function ShieldsText(xs: seq<Shield>): string {
    if xs == [] then [] else ShieldText(xs[0]) + ShieldsText(xs[1..])
  }

  function SegmentText(g: Segment): string {
    match g
    case Free(x) => ShieldText(x)
    case Angled(xs) => ['<'] + ShieldsText(xs) + ['>']
  }

  function Text(gs: seq<Segment>): string {
    if gs == [] then [] else SegmentText(gs[0]) + Text(gs[1..])
  }

  // ---------------------------------------------------------------- what the grammar spells

  /** The scanner passes a string from one place to another and cuts nowhere. */
  predicate Passes(d: Scanner, m: Mode, s: string, end: Mode) {
    NoCut(d, m, s) && EndMode(d, m, s) == end
  }

  lemma PassesOn(d: Scanner, m: Mode, s: string, mid: Mode, t: string, end: Mode)
    requires Passes(d, m, s, mid)
    ensures Passes(d, m, s + t, end) <==> Passes(d, mid, t, end)
  {
    NoCutAppend(d, m, s, t);
    EndModeAppend(d, m, s, t);
  }

  lemma PassesOne(d: Scanner, m: Mode, c: char)
    requires !Cuts(d, m, c)
    ensures Passes(d, m, [c], Next(d, m, c))
  {
    OneChar(d, m, c);
  }

  function InQuote(inAngle: bool): Mode {
    Mode(inAngle, true, false)
  }

  function OutOfQuote(inAngle: bool): Mode {
    Mode(inAngle, false, false)
  }

  lemma {:induction false} QuoteText(d: Scanner, inAngle: bool, xs: seq<Spelled>)
    requires QuoteOk(xs)
    ensures Passes(d, InQuote(inAngle), Spelling(xs), InQuote(inAngle))
    decreases |xs|
  {
    var m := InQuote(inAngle);
    if xs != [] {
      QuoteText(d, inAngle, xs[1..]);
      var x := xs[0];
      if x.Plain? {
        PassesOne(d, m, x.c);
        PassesOn(d, m, [x.c], m, Spelling(xs[1..]), m);
      } else {
        var esc := Mode(inAngle, true, true);
        PassesOne(d, m, '\\');
        PassesOne(d, esc, x.c);
        assert ['\\', x.c] == ['\\'] + [x.c];
        PassesOn(d, m, ['\\'], esc, [x.c], m);
        PassesOn(d, m, ['\\', x.c], m, Spelling(xs[1..]), m);
      }
    }
  }

  lemma ShieldPasses(d: Scanner, inAngle: bool, x: Shield)
    requires ScannerOk(d) && (inAngle ==> d.angles)
    requires ShieldOk(x, if inAngle then {'>'} else if d.angles then {'<', d.sep} else {d.sep})
    ensures Passes(d, OutOfQuote(inAngle), ShieldText(x), OutOfQuote(inAngle))
  {
    hide NoCut, EndMode;
    var out, inside := OutOfQuote(inAngle), InQuote(inAngle);
    match x
    case Single(c) => PassesOne(d, out, c);
    case Quoted(xs) =>
      PassesOne(d, out, '"');
      QuoteText(d, inAngle, xs);
      PassesOne(d, inside, '"');
      PassesOn(d, out, ['"'], inside, Spelling(xs), inside);
      PassesOn(d, out, ['"'] + Spelling(xs), inside, ['"'], out);
  }

  lemma {:induction false} ShieldsPass(d: Scanner, xs: seq<Shield>)
    requires ScannerOk(d) && d.angles && ShieldsOk(xs, {'>'})
    ensures Passes(d, ANGLED, ShieldsText(xs), ANGLED)
    decreases |xs|
  {
    hide ShieldText;
    if xs != [] {
      hide NoCut, EndMode;
      ShieldPasses(d, true, xs[0]);
      ShieldsPass(d, xs[1..]);
      PassesOn(d, ANGLED, ShieldText(xs[0]), ANGLED, ShieldsText(xs[1..]), ANGLED);
    }
  }

  lemma SegmentPasses(d: Scanner, g: Segment)
    requires ScannerOk(d) && SegmentOk(d, g)
    ensures Passes(d, START, SegmentText(g), START)
  {
    hide NoCut, EndMode, ShieldText, ShieldsText, ShieldOk, ShieldsOk;
    match g
    case Free(x) => ShieldPasses(d, false, x);
    case Angled(xs) =>
      PassesOne(d, START, '<');
      ShieldsPass(d, xs);
      PassesOne(d, ANGLED, '>');
      PassesOn(d, START, ['<'], ANGLED, ShieldsText(xs), ANGLED);
      PassesOn(d, START, ['<'] + ShieldsText(xs), ANGLED, ['>'], START);
  }

  lemma {:induction false} SegmentsPass(d: Scanner, gs: seq<Segment>)
    requires ScannerOk(d) && SegmentsOk(d, gs)
    ensures Passes(d, START, Text(gs), START)
    decreases |gs|
  {
    hide SegmentText, SegmentOk;
    if gs != [] {
      hide NoCut, EndMode;
      SegmentPasses(d, gs[0]);
      SegmentsPass(d, gs[1..]);
      PassesOn(d, START, SegmentText(gs[0]), START, Text(gs[1..]), START);
    }
  }

  // ---------------------------------------------------------------- what the scanner leaves whole

  lemma Step(d: Scanner, m: Mode, s: string)
    requires s != [] && Passes(d, m, s, START)
    ensures !Cuts(d, m, s[0]) && Passes(d, Next(d, m, s[0]), s[1..], START)
  {
  }

  /** An open quote is closed further on. */
  lemma {:induction false} ClosesQuote(d: Scanner, inAngle: bool, s: string) returns (xs: seq<Spelled>, rest: string)
    requires Passes(d, InQuote(inAngle), s, START)
    ensures QuoteOk(xs) && s == Spelling(xs) + ['"'] + rest && Passes(d, OutOfQuote(inAngle), rest, START)
    decreases |s|
  {
    assert s != [];
    Step(d, InQuote(inAngle), s);
    if s[0] == '"' {
      xs, rest := [], s[1..];
      assert s == [] + ['"'] + rest;
    } else if s[0] == '\\' {
      assert s[1..] != [];
      Step(d, Mode(inAngle, true, true), s[1..]);
      assert s[1..][1..] == s[2..];
      var more;
      more, rest := ClosesQuote(d, inAngle, s[2..]);
      xs := [Escaped(s[1])] + more;
      assert xs[1..] == more && s == ['\\', s[1]] + s[2..];
    } else {
      var more;
      more, rest := ClosesQuote(d, inAngle, s[1..]);
      xs := [Plain(s[0])] + more;
      assert xs[1..] == more && s == [s[0]] + s[1..];
    }
  }

  /** The first character or quoted string. */
  lemma FirstShield(d: Scanner, inAngle: bool, s: string) returns (x: Shield, rest: string)
    requires s != [] && Passes(d, OutOfQuote(inAngle), s, START)
    requires s[0] == '"' || Next(d, OutOfQuote(inAngle), s[0]) == OutOfQuote(inAngle)
    ensures s == ShieldText(x) + rest && Passes(d, OutOfQuote(inAngle), rest, START)
    ensures if s[0] == '"' then x.Quoted? && QuoteOk(x.xs) else x == Single(s[0])
  {
    Step(d, OutOfQuote(inAngle), s);
    if s[0] == '"' {
      var xs;
      xs, rest := ClosesQuote(d, inAngle, s[1..]);
      x := Quoted(xs);
      assert s == [s[0]] + s[1..];
    } else {
      x, rest := Single(s[0]), s[1..];
    }
  }

  /** An open bracket is closed further on. */
  lemma {:induction false} ClosesAngle(d: Scanner, s: string) returns (xs: seq<Shield>, rest: string)
    requires ScannerOk(d) && d.angles && Passes(d, ANGLED, s, START)
    ensures ShieldsOk(xs, {'>'}) && s == ShieldsText(xs) + ['>'] + rest && Passes(d, START, rest, START)
    decreases |s|
  {
    assert s != [];
    if s[0] == '>' {
      Step(d, ANGLED, s);
      xs, rest := [], s[1..];
      assert s == [] + ['>'] + rest;
    } else {
      hide NoCut, EndMode, ShieldText;
      var x, tail := FirstShield(d, true, s);
      var more;
      more, rest := ClosesAngle(d, tail);
      xs := [x] + more;
      ShieldInFront(x, more);
      hide ShieldsText, ShieldsOk;
      assert s == ShieldText(x) + ShieldsText(more) + ['>'] + rest;
    }
  }

  lemma ShieldInFront(x: Shield, more: seq<Shield>)
    ensures ShieldsText([x] + more) == ShieldText(x) + ShieldsText(more)
    ensures ShieldOk(x, {'>'}) && ShieldsOk(more, {'>'}) ==> ShieldsOk([x] + more, {'>'})
  {
    hide ShieldText;
    assert ([x] + more)[1..] == more;
  }

  lemma {:induction false} Segmented(d: Scanner, s: string) returns (gs: seq<Segment>)
    requires ScannerOk(d) && Passes(d, START, s, START)
    ensures SegmentsOk(d, gs) && Text(gs) == s
    decreases |s|
  {
    hide NoCut, EndMode, ShieldText;
    if s == [] {
      gs := [];
    } else {
      var g, rest := FirstSegment(d, s);
      var more := Segmented(d, rest);
      gs := [g] + more;
      assert gs[1..] == more;
    }
  }

  lemma FirstSegment(d: Scanner, s: string) returns (g: Segment, rest: string)
    requires ScannerOk(d) && s != [] && Passes(d, START, s, START)
    ensures SegmentOk(d, g) && s == SegmentText(g) + rest && Passes(d, START, rest, START) && |rest| < |s|
  {
    hide NoCut, EndMode;
    Step(d, START, s);
    if d.angles && s[0] == '<' {
      var xs;
      xs, rest := ClosesAngle(d, s[1..]);
      g := Angled(xs);
      assert s == [s[0]] + s[1..];
    } else {
      var x;
      x, rest := FirstShield(d, false, s);
      g := Free(x);
    }
  }

  /**
   A piece has nothing to cut at and everything closed exactly when it is a row of characters that are no separator,
   of quoted strings, and, where brackets count, of targets in them.
   */
  lemma BalancedExactly(d: Scanner, s: string)
    requires ScannerOk(d)
    ensures Balanced(d, s) <==> exists gs :: SegmentsOk(d, gs) && Text(gs) == s
  {
    hide NoCut, EndMode, SegmentsOk, Text;
    if Balanced(d, s) { var gs := Segmented(d, s); }
    forall gs | SegmentsOk(d, gs) && Text(gs) == s ensures Balanced(d, s) { SegmentsPass(d, gs); }
  }

  /** A header splits into some pieces exactly when the grammar spells each, and joined with commas they give it. */
  lemma HeaderPieces(s: string, ps: seq<string>)
    ensures SplitValues(s).Ok? && SplitValues(s).value == ps <==>
            && ps != [] && Join(',', ps) == s
            && forall p :: p in ps ==> exists gs :: SegmentsOk(Scanner(',', true), gs) && Text(gs) == p
  {
    hide SplitValues, Balanced, SegmentsOk, Text, Join;
    SplitValuesExactly(s, ps);
    forall p ensures Balanced(VALUES, p) <==> exists gs :: SegmentsOk(Scanner(',', true), gs) && Text(gs) == p {
      BalancedExactly(VALUES, p);
    }
  }
}
