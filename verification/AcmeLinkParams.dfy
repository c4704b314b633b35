/** Link parameters: names, tokens and quoted strings, and the loops of acme.js that read them. */
module AcmeLinkParams {
  import opened Wrappers
  import opened AcmeLink

  // ---------------------------------------------------------------- characters

  /** The token characters of RFC 7230. */
  predicate TokenChar(c: char) {
    'A' <= c <= 'Z' || 'a' <= c <= 'z' || '0' <= c <= '9' ||
    c in {'!', '#', '$', '%', '&', '\'', '*', '+', '.', '^', '_', '`', '|', '~', '-'}
  }

  /** A token has at least one character. */
  predicate Token(s: string) {
    s != [] && forall i :: 0 <= i < |s| ==> TokenChar(s[i])
  }

  /** Lower case of the characters whose lower case is a token character; U+212A is the Kelvin sign. */
  function LowerChar(c: char): char {
    if 'A' <= c <= 'Z' then c + ' ' else if c == '\U{212A}' then 'k' else c
  }

  function Lower(s: string): (r: string)
    ensures |r| == |s|
  {
    seq(|s|, i requires 0 <= i < |s| => LowerChar(s[i]))
  }

  predicate IsBlank(c: char) {
    c == ' ' || c == '\t'
  }

  predicate NewLine(c: char) {
    c == '\n' || c == '\r' || c == '\U{2028}' || c == '\U{2029}'
  }

  function TrimLeft(s: string): string {
    if s != [] && IsBlank(s[0]) then TrimLeft(s[1..]) else s
  }

  function TrimRight(s: string): string {
    if s != [] && IsBlank(s[|s| - 1]) then TrimRight(s[..|s| - 1]) else s
  }

  function Trim(s: string): string {
    TrimRight(TrimLeft(s))
  }

  method TrimOWS(s: string) returns (r: string)
    ensures r == Trim(s)
  {
    var a, b := 0, |s|;
    assert s[0..] == s;
    while a < b && IsBlank(s[a])
      invariant 0 <= a <= b == |s| && TrimLeft(s) == TrimLeft(s[a..])
    {
      assert s[a..][1..] == s[a + 1..];
      a := a + 1;
    }
    assert TrimLeft(s) == s[a..];
    assert s[a..b] == s[a..];
    while b > a && IsBlank(s[b - 1])
      invariant a <= b <= |s| && TrimRight(s[a..]) == TrimRight(s[a..b])
    {
      assert s[a..b][..b - 1 - a] == s[a..b - 1];
      b := b - 1;
    }
    r := s[a..b];
  }

  // ---------------------------------------------------------------- quoted strings

  /** No bare quote, every backslash before a character that is not a line end. */
  predicate ValidInterior(s: string)
    decreases |s|
  {
    s == [] ||
    (if s[0] == '"' then false
     else if s[0] == '\\' then |s| >= 2 && !NewLine(s[1]) && ValidInterior(s[2..])
     else ValidInterior(s[1..]))
  }

  method IsValidQuotedInterior(s: string) returns (ok: bool)
    ensures ok == ValidInterior(s)
  {
    var i, n := 0, |s|;
    assert s[0..] == s;
    while i < n
      invariant 0 <= i <= n && ValidInterior(s) == ValidInterior(s[i..])
      decreases n - i
    {
      var c := s[i];
      if c == '"' { return false; }
      if c == '\\' {
        if i + 1 >= n { return false; }
        if NewLine(s[i + 1]) { return false; }
        assert s[i..][2..] == s[i + 2..];
        i := i + 2;
      } else {
        assert s[i..][1..] == s[i + 1..];
        i := i + 1;
      }
    }
    ok := true;
  }

  /** Each backslash before a character that is not a line end stands for that character. */
  function Unescape(s: string): string
    decreases |s|
  {
    if s == [] then []
    else if s[0] == '\\' && |s| >= 2 && !NewLine(s[1]) then [s[1]] + Unescape(s[2..])
    else [s[0]] + Unescape(s[1..])
  }

  lemma UnescapeAt(s: string, i: nat, out: string)
    requires i < |s|
    ensures out + Unescape(s[i..]) ==
      if s[i] == '\\' && i + 1 < |s| && !NewLine(s[i + 1]) then out + [s[i + 1]] + Unescape(s[i + 2..])
      else out + [s[i]] + Unescape(s[i + 1..])
  {
    assert s[i..][1..] == s[i + 1..];
    if i + 1 < |s| { assert s[i..][2..] == s[i + 2..]; }
  }

  method UnescapeQuotedPair(inner: string) returns (out: string)
    ensures out == Unescape(inner)
  {
    out := [];
    var i, n := 0, |inner|;
    assert inner[0..] == inner && inner[n..] == [] && Unescape([]) == [];
    assert [] + Unescape(inner) == Unescape(inner);
    hide Unescape;
    while i < n
      invariant 0 <= i <= n && Unescape(inner) == out + Unescape(inner[i..])
      decreases n - i
    {
      UnescapeAt(inner, i, out);
      if inner[i] == '\\' && i + 1 < n {
        var nx := inner[i + 1];
        if NewLine(nx) {
          out := out + [inner[i]];
          i := i + 1;
        } else {
          out := out + [nx];
          i := i + 2;
        }
      } else {
        out := out + [inner[i]];
        i := i + 1;
      }
    }
    assert out + [] == out;
  }

  /** Quotes and backslashes behind a backslash. */
  function Escape(v: string): string {
    if v == [] then []
    else (if v[0] == '"' || v[0] == '\\' then ['\\', v[0]] else [v[0]]) + Escape(v[1..])
  }

  /** Escaping any text gives a valid interior, and unescaping gives the text back. */
  lemma {:induction false} EscapeRoundTrip(v: string)
    ensures ValidInterior(Escape(v)) && Unescape(Escape(v)) == v
  {
    if v != [] {
      EscapeRoundTrip(v[1..]);
      var e := Escape(v[1..]);
      if v[0] == '"' || v[0] == '\\' {
        assert Escape(v)[2..] == e && Escape(v)[0] == '\\' && Escape(v)[1] == v[0];
      } else {
        assert Escape(v)[1..] == e && Escape(v)[0] == v[0];
      }
    }
  }

  // ---------------------------------------------------------------- parameters

  datatype Param = Param(name: string, value: string, hasValue: bool)

  function IndexOf(s: string, c: char): (i: nat)
    ensures i <= |s|
  {
    if s == [] then 0 else if s[0] == c then 0 else 1 + IndexOf(s[1..], c)
  }

  /** A value: a quoted string, or a token. */
  function ParseValue(v: string): Result<string, LinkError> {
    if |v| >= 2 && v[0] == '"' && v[|v| - 1] == '"' then
      var inner := v[1..|v| - 1];
      if !ValidInterior(inner) then Err(BadQuoted) else Ok(Unescape(inner))
    else if !Token(v) then Err(BadToken)
    else Ok(v)
  }

  /** A trimmed part that is not empty: a name, or a name and a value around its first equals sign. */
  function ParseParam(p: string): Result<Param, LinkError> {
    var eq := IndexOf(p, '=');
    var name := Lower(if eq == |p| then p else Trim(p[..eq]));
    if !Token(name) then Err(BadName)
    else if eq == |p| then Ok(Param(name, [], false))
    else
      match ParseValue(Trim(p[eq + 1..]))
      case Err(e) => Err(e)
      case Ok(v) => Ok(Param(name, v, true))
  }

  /** The parts in order; only the first may be empty. */
  function ParseParts(parts: seq<string>, first: bool): Result<seq<Param>, LinkError>
    decreases |parts|
  {
    if parts == [] then Ok([])
    else
      var p := Trim(parts[0]);
      if p == [] then
        if first then ParseParts(parts[1..], false) else Err(EmptyParameter)
      else
        match ParseParam(p)
        case Err(e) => Err(e)
        case Ok(x) =>
          match ParseParts(parts[1..], false)
          case Err(e) => Err(e)
          case Ok(xs) => Ok([x] + xs)
  }

  function SplitParams(rest: string): Result<seq<Param>, LinkError> {
    ParseParts(Cut(PARAMS, START, rest), true)
  }

  // ---------------------------------------------------------------- the loops

  /** What cutting the rest of a string adds to the pieces cut so far. */
  ghost function Resumed(d: Scanner, out: seq<string>, piece: string, m: Mode, s: string): seq<string> {
    out + Prepend(piece, Cut(d, m, s))
  }

  lemma ResumedKeep(d: Scanner, out: seq<string>, piece: string, m: Mode, s: string)
    requires s != [] && !Cuts(d, m, s[0])
    ensures Resumed(d, out, piece, m, s) == Resumed(d, out, piece + [s[0]], Next(d, m, s[0]), s[1..])
  {
    var r := Cut(d, Next(d, m, s[0]), s[1..]);
    assert piece + ([s[0]] + r[0]) == piece + [s[0]] + r[0];
    assert Prepend(piece, Prepend([s[0]], r)) == Prepend(piece + [s[0]], r);
  }

  lemma ResumedCut(d: Scanner, out: seq<string>, piece: string, m: Mode, s: string)
    requires s != [] && Cuts(d, m, s[0])
    ensures Resumed(d, out, piece, m, s) == Resumed(d, out + [piece], [], START, s[1..])
  {
    var r := Cut(d, START, s[1..]);
    assert piece + [] == piece && [] + r[0] == r[0] && [r[0]] + r[1..] == r;
    assert ([[]] + r)[1..] == r;
  }

  /** The scan of both splitters: characters after a backslash in quotes are stepped over, separators outside cut. */
  method CutAt(d: Scanner, s: string) returns (out: seq<string>, open: bool)
    requires ScannerOk(d)
    ensures out == Cut(d, START, s) && open == (EndMode(d, START, s) != START)
  {
    hide Cut, Next, EndMode;
    out := [];
    var start, inAngle, inQuote := 0, false, false;
    var i := 0;
    ghost var m := START;
    assert s[0..] == s && s[0..0] == [];
    ResumedStart(d, s);
    while i < |s|
      invariant start <= |s| && start <= i <= |s| + 1 && m == Mode(inAngle, inQuote, i > |s|) && (i > |s| ==> inQuote)
      invariant Cut(d, START, s) == Resumed(d, out, s[start..Upto(i, s)], m, s[Upto(i, s)..])
      invariant EndMode(d, START, s) == EndMode(d, m, s[Upto(i, s)..])
      decreases |s| + 1 - i
    {
      var ch := s[i];
      ghost var m' := Next(d, m, ch);
      Onwards(d, m, s, i);
      NextIs(d, m, ch);
      if !inQuote && !inAngle && ch == d.sep {
        ResumedCut(d, out, s[start..i], m, s[i..]);
        out := out + [s[start..i]];
        start := i + 1;
        assert s[start..i + 1] == [];
      } else {
        ResumedKeep(d, out, s[start..i], m, s[i..]);
        assert s[start..i] + [ch] == s[start..i + 1];
        if inQuote && ch == '\\' {
          if i + 1 < |s| {
            Onwards(d, m', s, i + 1);
            NextIs(d, m', s[i + 1]);
            ResumedKeep(d, out, s[start..i + 1], m', s[i + 1..]);
            assert s[start..i + 1] + [s[i + 1]] == s[start..i + 2];
            m' := Next(d, m', s[i + 1]);
          }
          i := i + 1;
        } else if inQuote {
          if ch == '"' { inQuote := false; }
        } else if ch == '"' {
          inQuote := true;
        } else if d.angles && ch == '<' {
          inAngle := true;
        } else if d.angles && ch == '>' {
          inAngle := false;
        }
      }
      m := m';
      i := i + 1;
    }
    assert s[Upto(i, s)..] == [] && s[start..Upto(i, s)] == s[start..];
    AtEnd(d, out, s[start..], m);
    out := out + [s[start..]];
    open := inQuote || inAngle;
  }

  ghost function Upto(i: nat, s: string): nat {
    if i > |s| then |s| else i
  }

  lemma ResumedStart(d: Scanner, s: string)
    ensures Cut(d, START, s) == Resumed(d, [], [], START, s)
  {
    var r := Cut(d, START, s);
    assert [] + r[0] == r[0] && [r[0]] + r[1..] == r;
  }

  lemma Onwards(d: Scanner, m: Mode, s: string, i: nat)
    requires i < |s|
    ensures s[i..][0] == s[i] && s[i..][1..] == s[i + 1..]
    ensures EndMode(d, m, s[i..]) == EndMode(d, Next(d, m, s[i]), s[i + 1..])
  {
  }

  lemma AtEnd(d: Scanner, out: seq<string>, piece: string, m: Mode)
    ensures Resumed(d, out, piece, m, []) == out + [piece] && EndMode(d, m, []) == m
  {
    assert piece + [] == piece;
  }

  lemma NextIs(d: Scanner, m: Mode, c: char)
    requires ScannerOk(d)
    ensures Next(d, m, c) ==
      if m.escaped then m.(escaped := false)
      else if m.inQuote then (if c == '\\' then m.(escaped := true) else if c == '"' then m.(inQuote := false) else m)
      else if c == '"' then m.(inQuote := true)
      else if d.angles && c == '<' then m.(inAngle := true)
      else if d.angles && c == '>' then m.(inAngle := false)
      else m
    ensures Cuts(d, m, c) ==> Next(d, m, c) == START
  {
  }

  /** _splitLinkValues: the pieces of a header, an error when a quote or bracket is left open. */
  method SplitLinkValues(s: string) returns (r: Result<seq<string>, LinkError>)
    ensures r == SplitValues(s)
  {
    var out, open := CutAt(VALUES, s);
    if open { return Err(Unterminated); }
    r := Ok(out);
  }

  /** _splitLinkParams: each part trimmed, its name folded and checked, its value unquoted or checked. */
  method SplitLinkParams(rest: string) returns (r: Result<seq<Param>, LinkError>)
    ensures r == SplitParams(rest)
  {
    hide Cut, ValidInterior, Unescape, Trim, Token, Lower, ParseParam;
    var parts, open := CutAt(PARAMS, rest);
    var out: seq<Param> := [];
    assert parts[0..] == parts;
    NothingBefore(ParseParts(parts, true));
    for j := 0 to |parts|
      invariant ParseParts(parts, true) == Before(out, ParseParts(parts[j..], j == 0))
    {
      assert parts[j..][0] == parts[j] && parts[j..][1..] == parts[j + 1..];
      var p := TrimOWS(parts[j]);
      if p == [] {
        if j == 0 { continue; }
        return Err(EmptyParameter);
      }
      var x := ReadParam(p);
      if x.Err? { return Err(x.error); }
      BeforeStep(out, x.value, ParseParts(parts[j + 1..], false));
      out := out + [x.value];
    }
    assert out + [] == out;
    r := Ok(out);
  }

  /** One part: name and value around the first equals sign. */
  method ReadParam(p: string) returns (r: Result<Param, LinkError>)
    ensures r == ParseParam(p)
  {
    hide ValidInterior, Unescape, Trim, Token, Lower;
    var eq := IndexOf(p, '=');
    var name;
    if eq == |p| {
      name := Lower(p);
    } else {
      var trimmed := TrimOWS(p[..eq]);
      name := Lower(trimmed);
    }
    if !Token(name) { return Err(BadName); }
    if eq == |p| { return Ok(Param(name, [], false)); }
    var v := TrimOWS(p[eq + 1..]);
    if |v| >= 2 && v[0] == '"' && v[|v| - 1] == '"' {
      var inner := v[1..|v| - 1];
      var ok := IsValidQuotedInterior(inner);
      if !ok { return Err(BadQuoted); }
      v := UnescapeQuotedPair(inner);
    } else if !Token(v) {
      return Err(BadToken);
    }
    r := Ok(Param(name, v, true));
  }

  ghost function Before(out: seq<Param>, rest: Result<seq<Param>, LinkError>): Result<seq<Param>, LinkError> {
    match rest
    case Err(e) => Err(e)
    case Ok(xs) => Ok(out + xs)
  }

  lemma BeforeStep(out: seq<Param>, x: Param, rest: Result<seq<Param>, LinkError>)
    ensures Before(out, Before([x], rest)) == Before(out + [x], rest)
  {
    if rest.Ok? { assert out + ([x] + rest.value) == out + [x] + rest.value; }
  }

  lemma NothingBefore(rest: Result<seq<Param>, LinkError>)
    ensures Before([], rest) == rest
  {
    if rest.Ok? { assert [] + rest.value == rest.value; }
  }
}
