/**
 One link value of a Link header: its target, cut at the first closing bracket, and what its
 parameters say of relation and anchor. Whether a target is a URI reference is a parameter.
 */
module AcmeLinkValue {
  import opened Wrappers
  import opened AcmeLink
  import opened AcmeLinkParams
  import opened AcmeLinkPrint

  /** The texts that may stand as a target. */
  type Targets = string -> bool

  datatype LinkValue = LinkValue(uri: string, rel: string, anchor: Option<string>, relSeen: bool)

  /** The parameters of a name, in order. */
  function Named(ps: seq<Param>, name: string): seq<Param> {
    if ps == [] then [] else (if ps[0].name == name then [ps[0]] else []) + Named(ps[1..], name)
  }

  /** The first rel counts; there is at most one anchor, and it has a value. */
  function Meaning(uri: string, ps: seq<Param>): Result<LinkValue, LinkError> {
    var rels, anchors := Named(ps, "rel"), Named(ps, "anchor");
    if anchors != [] && !anchors[0].hasValue then Err(NoAnchorValue)
    else if |anchors| > 1 then Err(TwoAnchors)
    else Ok(LinkValue(uri, if rels == [] then [] else rels[0].value,
                      if anchors == [] then None else Some(anchors[0].value), rels != []))
  }

  /** A link value that is there. */
  function Present(v: Result<LinkValue, LinkError>): Result<Option<LinkValue>, LinkError> {
    match v
    case Err(e) => Err(e)
    case Ok(x) => Ok(Some(x))
  }

  /** _parseLinkValue: none for a blank piece. */
  function ParseLinkValue(targets: Targets, raw: string): Result<Option<LinkValue>, LinkError> {
    var s := Trim(raw);
    if s == [] then Ok(None)
    else
      var gt := IndexOf(s, '>');
      if s[0] != '<' || gt == |s| then Err(NotALink)
      else
        var rest := TrimLeft(s[gt + 1..]);
        if rest != [] && rest[0] != ';' then Err(NoSemicolon)
        else if !targets(s[1..gt]) then Err(BadTarget)
        else
          match SplitParams(rest)
          case Err(e) => Err(e)
          case Ok(ps) => Present(Meaning(s[1..gt], ps))
  }

  // ---------------------------------------------------------------- the loops

  /** _stripLeadingOWS */
  method StripLeadingOWS(s: string, from: nat) returns (r: string)
    requires from <= |s|
    ensures r == TrimLeft(s[from..])
  {
    var i := from;
    while i < |s| && IsBlank(s[i])
      invariant from <= i <= |s| && TrimLeft(s[from..]) == TrimLeft(s[i..])
    {
      assert s[i..][1..] == s[i + 1..];
      i := i + 1;
    }
    r := s[i..];
  }

  lemma NamedStep(seen: seq<Param>, ps: seq<Param>, i: nat, name: string)
    requires i < |ps|
    ensures seen + Named(ps[i..], name) ==
            (if ps[i].name == name then seen + [ps[i]] else seen) + Named(ps[i + 1..], name)
  {
    assert ps[i..][0] == ps[i] && ps[i..][1..] == ps[i + 1..];
    assert seen + ([ps[i]] + Named(ps[i + 1..], name)) == seen + [ps[i]] + Named(ps[i + 1..], name);
    assert [] + Named(ps[i + 1..], name) == Named(ps[i + 1..], name);
  }

  lemma NoneNamed(seen: seq<Param>, name: string)
    ensures seen + Named([], name) == seen
  {
  }

  /** The loop over the parameters, with a flag for each name seen. */
  method ReadMeaning(uri: string, ps: seq<Param>) returns (r: Result<LinkValue, LinkError>)
    ensures r == Meaning(uri, ps)
  {
    var rel: string, relSeen := [], false;
    var anchor: Option<string>, anchorSeen := None, false;
    ghost var rels: seq<Param>, anchors: seq<Param> := [], [];
    hide Named;
    assert ps[0..] == ps;
    for i := 0 to |ps|
      invariant Named(ps, "rel") == rels + Named(ps[i..], "rel")
      invariant Named(ps, "anchor") == anchors + Named(ps[i..], "anchor")
      invariant relSeen == (rels != []) && rel == if rels == [] then [] else rels[0].value
      invariant |anchors| <= 1 && anchorSeen == (anchors != []) && (anchors != [] ==> anchors[0].hasValue)
      invariant anchor == if anchors == [] then None else Some(anchors[0].value)
    {
      var p := ps[i];
      NamedStep(rels, ps, i, "rel");
      NamedStep(anchors, ps, i, "anchor");
      if p.name == "rel" && !relSeen {
        rel := p.value;
        relSeen := true;
      } else if p.name == "anchor" {
        if anchorSeen { return Err(TwoAnchors); }
        anchorSeen := true;
        if !p.hasValue { return Err(NoAnchorValue); }
        anchor := Some(p.value);
      }
      if p.name == "rel" { rels := rels + [p]; }
      if p.name == "anchor" { anchors := anchors + [p]; }
    }
    assert ps[|ps|..] == [];
    NoneNamed(rels, "rel");
    NoneNamed(anchors, "anchor");
    r := Ok(LinkValue(uri, rel, anchor, relSeen));
  }

  method ReadLinkValue(targets: Targets, raw: string) returns (r: Result<Option<LinkValue>, LinkError>)
    ensures r == ParseLinkValue(targets, raw)
  {
    hide Trim, TrimLeft, SplitParams, Meaning;
    var s := TrimOWS(raw);
    if s == [] { return Ok(None); }
    var gt := IndexOf(s, '>');
    if s[0] != '<' || gt == |s| { return Err(NotALink); }
    var rest := StripLeadingOWS(s, gt + 1);
    if rest != [] && rest[0] != ';' { return Err(NoSemicolon); }
    var uri := s[1..gt];
    if !targets(uri) { return Err(BadTarget); }
    var params := SplitLinkParams(rest);
    if params.Err? { return Err(params.error); }
    var v := ReadMeaning(uri, params.value);
    if v.Err? { return Err(v.error); }
    r := Ok(Some(v.value));
  }

  // ---------------------------------------------------------------- what is read

  lemma {:induction false} IndexOfFirst(s: string, c: char, rest: string)
    requires c !in s
    ensures IndexOf(s + [c] + rest, c) == |s|
    decreases |s|
  {
    var t := s + [c] + rest;
    if s == [] {
      assert t[0] == c;
    } else {
      assert s[0] in s && t[0] == s[0] && t[1..] == s[1..] + [c] + rest;
      IndexOfFirst(s[1..], c, rest);
    }
  }

  lemma {:induction false} NoneBeforeIndex(s: string, c: char)
    ensures c !in s[..IndexOf(s, c)] && (IndexOf(s, c) < |s| ==> s[IndexOf(s, c)] == c)
    decreases |s|
  {
    if s != [] && s[0] != c {
      NoneBeforeIndex(s[1..], c);
      assert s[..IndexOf(s, c)] == [s[0]] + s[1..][..IndexOf(s[1..], c)];
    }
  }

  /** The text of a target in brackets and what follows it, read as parameters that have a meaning. */
  ghost predicate Shows(targets: Targets, s: string, v: LinkValue, rest: string) {
    && s == ['<'] + v.uri + ['>'] + rest && '>' !in v.uri && targets(v.uri)
    && (TrimLeft(rest) != [] ==> TrimLeft(rest)[0] == ';')
    && SplitParams(TrimLeft(rest)).Ok? && Meaning(v.uri, SplitParams(TrimLeft(rest)).value) == Ok(v)
  }

  /**
   A piece is read as a link value exactly when, blanks at its ends aside, it is the value's target in brackets and
   parameters with the value's meaning.
   */
  lemma LinkValueExactly(targets: Targets, raw: string, v: LinkValue)
    ensures ParseLinkValue(targets, raw) == Ok(Some(v)) <==> exists rest :: Shows(targets, Trim(raw), v, rest)
  {
    var s := Trim(raw);
    hide Trim, TrimLeft, SplitParams, Named;
    if ParseLinkValue(targets, raw) == Ok(Some(v)) {
      var gt := IndexOf(s, '>');
      NoneBeforeIndex(s, '>');
      assert s[..gt] == ['<'] + s[1..gt];
      assert s == s[..gt] + ['>'] + s[gt + 1..];
      assert forall i :: 0 <= i < gt - 1 ==> s[1..gt][i] == s[..gt][i + 1];
      assert Shows(targets, s, v, s[gt + 1..]);
    }
    forall rest | Shows(targets, s, v, rest) ensures ParseLinkValue(targets, raw) == Ok(Some(v)) {
      BracketFirst(v.uri, rest);
    }
  }

  lemma BracketFirst(uri: string, rest: string)
    requires '>' !in uri
    ensures var s, gt := ['<'] + uri + ['>'] + rest, |uri| + 1;
      IndexOf(s, '>') == gt && s != [] && s[0] == '<' && gt < |s| && s[1..gt] == uri && s[gt + 1..] == rest
  {
    IndexOfFirst(['<'] + uri, '>', rest);
  }

  // ---------------------------------------------------------------- printed links

  lemma {:induction false} PrintedEnd(ps: seq<Param>)
    requires AllPrintable(ps) && ps != []
    ensures PrintAll(ps) != [] && PrintAll(ps)[0] == ';' && !IsBlank(PrintAll(ps)[|PrintAll(ps)| - 1])
    decreases |ps|
  {
    assert ps[0] in ps;
    hide Escape, Printable;
    ParamEnd(ps[0]);
    if |ps| > 1 {
      PrintedEnd(ps[1..]);
    } else {
      assert PrintAll(ps[1..]) == [];
    }
  }

  lemma ParamEnd(p: Param)
    requires Printable(p)
    ensures Print(p) != [] && !IsBlank(Print(p)[|Print(p)| - 1])
  {
    hide Escape;
    assert TokenChar(p.name[|p.name| - 1]);
  }

  /** A printed link reads back as its target and what its parameters say. */
  lemma LinkReadsBack(targets: Targets, l: Link)
    requires PrintableLink(l) && targets(l.target)
    ensures ParseLinkValue(targets, PrintLink(l)) == Present(Meaning(l.target, l.params))
  {
    hide Meaning, SplitParams, AllPrintable;
    var rest := PrintAll(l.params);
    var s := PrintLink(l);
    if l.params == [] { assert rest == []; } else { PrintedEnd(l.params); }
    hide PrintAll;
    NotBlank(s);
    assert '>' !in l.target;
    BracketFirst(l.target, rest);
    assert TrimLeft(rest) == rest;
    ParamsReadBack(l.params);
  }

  /**
   A header of printed links, whatever their targets and parameter values hold but a closing bracket or a quote in a
   target, is cut into as many values, each read as its link's target and what its parameters say.
   */
  lemma HeaderReadsBack(targets: Targets, ls: seq<Link>)
    requires ls != [] && forall l :: l in ls ==> PrintableLink(l) && targets(l.target)
    ensures var cut := SplitValues(Join(',', PrintLinks(ls)));
      && cut.Ok? && |cut.value| == |ls|
      && forall i :: 0 <= i < |ls| ==>
           ParseLinkValue(targets, cut.value[i]) == Present(Meaning(ls[i].target, ls[i].params))
  {
    hide PrintLink, PrintableLink, ParseLinkValue, Meaning, Join, SplitValues;
    LinksSplitBack(ls);
    forall i | 0 <= i < |ls|
      ensures ParseLinkValue(targets, PrintLinks(ls)[i]) == Present(Meaning(ls[i].target, ls[i].params))
    {
      assert ls[i] in ls;
      LinkReadsBack(targets, ls[i]);
    }
  }
}
