/** Routes, path templates, and the router's search. Regular expressions are a parameter: `regex`
    says whether a pattern matches a text as a whole. */
module Router {
  import opened Strings

  type Regex = (string, string) -> bool

  const SLASH: char -> bool := c => c == '/'

  // ----- path parts

  predicate IsParameter(part: string) {
    part != "" && part[0] == ':'
  }

  /** The part without the colon of a parameter. */
  function TemplateName(part: string): string {
    if IsParameter(part) then part[1..] else part
  }

  /** A literal part is a pattern that is anchored on both sides. */
  function Pattern(part: string): (p: string)
    ensures |p| >= 2 && p[0] == '^' && p[|p| - 1] == '$'
    ensures p == part || p == "^" + part || p == part + "$" || p == "^" + part + "$"
    ensures |p| == |part| + (if "^" <= part then 0 else 1) + (if part != "" && part[|part| - 1] == '$' then 0 else 1)
  {
    var p := if part == "" || part[0] != '^' then "^" + part else part;
    if p[|p| - 1] != '$' then p + "$" else p
  }

  /** What the pattern ".*" of a parameter matches: everything but line terminators. */
  predicate IsOneLine(text: string) {
    '\n' !in text && '\r' !in text
  }

  predicate PartMatches(part: string, text: string, regex: Regex) {
    if IsParameter(part) then IsOneLine(text) else regex(Pattern(part), text)
  }

  // ----- routes

  datatype Route = Route(verb: string, parts: seq<string>, callback: int, mounted: bool)

  datatype MatchResult = NoMatch | PathMatch | FullMatch

  /** What boost::split leaves of a path when the piece before the first slash is dropped. */
  function Segments(path: string): seq<string> {
    Split(path, SLASH)[1..]
  }

  /** None is the exception for a parameter without a name. */
  function MakeRoute(verb: string, template: string, callback: int, mounted: bool): Option<Route> {
    var parts := if mounted then [template] else Segments(template);
    if ":" in parts then None else Some(Route(verb, parts, callback, mounted))
  }

  predicate AllMatch(parts: seq<string>, texts: seq<string>, regex: Regex) {
    |texts| == |parts| && forall i :: 0 <= i < |parts| ==> PartMatches(parts[i], texts[i], regex)
  }

  predicate WellMade(r: Route) {
    ":" !in r.parts && (r.mounted ==> |r.parts| == 1)
  }

  predicate PathMatches(r: Route, path: string, regex: Regex)
    requires WellMade(r)
  {
    if r.mounted then r.parts[0] <= path else AllMatch(r.parts, Segments(path), regex)
  }

  function Matches(r: Route, path: string, verb: string, regex: Regex): MatchResult
    requires WellMade(r)
  {
    if !PathMatches(r, path, regex) then NoMatch
    else if verb != r.verb then PathMatch
    else FullMatch
  }

  /** The parameters of all parts, later ones on top; None when a parameter has no segment, which
      in the library is an access behind the end. */
  function ParametersOf(parts: seq<string>, texts: seq<string>): Option<map<string, string>>
    decreases |parts|
  {
    if parts == [] then Some(map[])
    else
      var n := |parts| - 1;
      var before := ParametersOf(parts[..n], texts);
      if before.None? || !IsParameter(parts[n]) then before
      else if n >= |texts| then None
      else Some(before.value[TemplateName(parts[n]) := texts[n]])
  }

  function Parameters(r: Route, path: string): Option<map<string, string>> {
    ParametersOf(r.parts, Segments(path))
  }

  // ----- as the library computes them

  method Initialize(verb: string, template: string, callback: int, mounted: bool) returns (r: Option<Route>)
    ensures r == MakeRoute(verb, template, callback, mounted)
    ensures r.Some? ==> WellMade(r.value)
  {
    var pathParts: seq<string> := [];
    if mounted {
      if template == ":" {
        return None;
      }
      pathParts := [template];
    } else {
      var parts := Split(template, SLASH);
      for i := 1 to |parts|
        invariant pathParts == parts[1..i] && ":" !in pathParts
      {
        if parts[i] == ":" {
          assert parts[1..][i - 1] == ":";
          return None;
        }
        pathParts := pathParts + [parts[i]];
      }
      assert parts[1..|parts|] == parts[1..];
    }
    r := Some(Route(verb, pathParts, callback, mounted));
  }

  method MatchRoute(r: Route, path: string, verb: string, regex: Regex) returns (m: MatchResult)
    requires WellMade(r)
    ensures m == Matches(r, path, verb, regex)
  {
    hide PartMatches, Segments;
    if !r.mounted {
      var passedParts := Segments(path);
      if |passedParts| != |r.parts| {
        return NoMatch;
      }
      for i := 0 to |r.parts|
        invariant forall k :: 0 <= k < i ==> PartMatches(r.parts[k], passedParts[k], regex)
      {
        if !PartMatches(r.parts[i], passedParts[i], regex) {
          return NoMatch;
        }
      }
    } else {
      var part := r.parts[0];
      if |path| < |part| {
        return NoMatch;
      }
      PrefixByChars(part, path);
      for i := 0 to |part|
        invariant forall k :: 0 <= k < i ==> part[k] == path[k]
      {
        if part[i] != path[i] {
          return NoMatch;
        }
      }
    }
    m := if verb != r.verb then PathMatch else FullMatch;
  }

  lemma PrefixByChars(part: string, path: string)
    requires |part| <= |path|
    ensures part <= path <==> forall k :: 0 <= k < |part| ==> part[k] == path[k]
  {}

  method GetPathParameters(r: Route, path: string) returns (result: map<string, string>)
    requires Parameters(r, path).Some?
    ensures result == Parameters(r, path).value
  {
    var passedParts := Segments(path);
    result := map[];
    for i := 0 to |r.parts|
      invariant ParametersOf(r.parts[..i], passedParts) == Some(result)
    {
      PrefixHasParameters(r.parts, passedParts, i + 1);
      assert r.parts[..i + 1][..i] == r.parts[..i];
      if IsParameter(r.parts[i]) {
        result := result[TemplateName(r.parts[i]) := passedParts[i]];
      }
    }
    assert r.parts[..|r.parts|] == r.parts;
  }

  lemma {:induction false} PrefixHasParameters(parts: seq<string>, texts: seq<string>, n: nat)
    requires n <= |parts| && ParametersOf(parts, texts).Some?
    ensures ParametersOf(parts[..n], texts).Some?
    decreases |parts|
  {
    if n == |parts| {
      assert parts[..n] == parts;
    } else {
      var m := |parts| - 1;
      PrefixHasParameters(parts[..m], texts, n);
      assert parts[..m][..n] == parts[..n];
    }
  }

  /** Every access to a segment is inside the path exactly when each parameter has its segment. */
  lemma {:induction false} AccessesInBoundsExactly(parts: seq<string>, texts: seq<string>)
    ensures ParametersOf(parts, texts).Some?
       <==> forall i :: 0 <= i < |parts| && IsParameter(parts[i]) ==> i < |texts|
    decreases |parts|
  {
    if parts != [] {
      var n := |parts| - 1;
      AccessesInBoundsExactly(parts[..n], texts);
      assert forall i :: 0 <= i < n ==> parts[..n][i] == parts[i];
    }
  }

  /** For a path that a route without mount matches, all accesses are in bounds. */
  lemma MatchedPathIsInBounds(r: Route, path: string, regex: Regex)
    requires WellMade(r) && !r.mounted && PathMatches(r, path, regex)
    ensures Parameters(r, path).Some?
  {
    AccessesInBoundsExactly(r.parts, Segments(path));
  }

  // ----- the verdict

  /** A path that matches is a full match exactly when the methods are the same. */
  lemma MatchesExactly(r: Route, path: string, verb: string, regex: Regex)
    requires WellMade(r)
    ensures Matches(r, path, verb, regex) == FullMatch <==> PathMatches(r, path, regex) && verb == r.verb
    ensures Matches(r, path, verb, regex) == PathMatch <==> PathMatches(r, path, regex) && verb != r.verb
    ensures Matches(r, path, verb, regex) == NoMatch <==> !PathMatches(r, path, regex)
  {}

  // ----- templates and the paths they stand for

  /** A part of a template, as it is meant. */
  datatype TemplatePart = Literal(text: string) | Named(name: string)

  predicate IsPart(part: TemplatePart) {
    match part
    case Literal(text) => '/' !in text && (text == "" || text[0] != ':')
    case Named(name) => '/' !in name && name != ""
  }

  /** How it is written. */
  function PartText(part: TemplatePart): string {
    match part
    case Literal(text) => text
    case Named(name) => ":" + name
  }

  function PartTexts(parts: seq<TemplatePart>): (texts: seq<string>)
    ensures |texts| == |parts|
  {
    seq(|parts|, i requires 0 <= i < |parts| => PartText(parts[i]))
  }

  predicate ArePartsOf(parts: seq<TemplatePart>) {
    forall i :: 0 <= i < |parts| ==> IsPart(parts[i])
  }

  /** The texts that may stand at a part: any line for a parameter. */
  predicate Fits(part: TemplatePart, text: string, regex: Regex) {
    match part
    case Literal(pattern) => regex(Pattern(pattern), text)
    case Named(_) => '\n' !in text && '\r' !in text
  }

  predicate AllFit(parts: seq<TemplatePart>, texts: seq<string>, regex: Regex) {
    |texts| == |parts| && forall i :: 0 <= i < |parts| ==> Fits(parts[i], texts[i], regex)
  }

  function PathOf(first: string, texts: seq<string>): string {
    Join([first] + texts, '/')
  }

  predicate Whole(texts: seq<string>) {
    forall text | text in texts :: '/' !in text
  }

  lemma SegmentsOfPath(first: string, texts: seq<string>)
    requires '/' !in first && Whole(texts)
    ensures Segments(PathOf(first, texts)) == texts
  {
    SplitJoin([first] + texts, '/', SLASH);
  }

  lemma {:induction false} JoinOfSplit(s: string)
    ensures Join(Split(s, SLASH), '/') == s
  {
    if s != [] {
      JoinOfSplit(s[1..]);
      var rest := Split(s[1..], SLASH);
      if s[0] == '/' {
        assert Split(s, SLASH)[1..] == rest;
        assert Join(Split(s, SLASH), '/') == "" + ['/'] + s[1..];
      } else {
        var parts := Split(s, SLASH);
        assert parts == [[s[0]] + rest[0]] + rest[1..];
        if |rest| > 1 {
          assert parts[1..] == rest[1..];
          assert Join(rest, '/') == rest[0] + ['/'] + Join(rest[1..], '/');
        }
        assert Join(parts, '/') == [s[0]] + Join(rest, '/');
      }
    }
  }

  lemma PartsAreRead(part: TemplatePart)
    requires IsPart(part)
    ensures PartText(part) != ":" && '/' !in PartText(part)
    ensures IsParameter(PartText(part)) <==> part.Named?
    ensures part.Named? ==> TemplateName(PartText(part)) == part.name
  {}

  /** What is made of a template: its parts as they are written, in order. */
  lemma TemplateIsTaken(verb: string, start: string, parts: seq<TemplatePart>, callback: int)
    requires '/' !in start && ArePartsOf(parts)
    ensures MakeRoute(verb, PathOf(start, PartTexts(parts)), callback, false)
         == Some(Route(verb, PartTexts(parts), callback, false))
    ensures WellMade(Route(verb, PartTexts(parts), callback, false))
  {
    hide PartText;
    forall i | 0 <= i < |parts|
      ensures PartTexts(parts)[i] != ":" && '/' !in PartTexts(parts)[i]
    {
      PartsAreRead(parts[i]);
    }
    SegmentsOfPath(start, PartTexts(parts));
  }

  lemma FitsExactly(parts: seq<TemplatePart>, texts: seq<string>, regex: Regex)
    requires ArePartsOf(parts)
    ensures AllMatch(PartTexts(parts), texts, regex) <==> AllFit(parts, texts, regex)
  {
    hide PartText, IsParameter, Pattern, IsPart;
    forall i | 0 <= i < |parts| && |texts| == |parts|
      ensures PartMatches(PartTexts(parts)[i], texts[i], regex) <==> Fits(parts[i], texts[i], regex)
    {
      PartFitsExactly(parts[i], texts[i], regex);
    }
  }

  lemma PartFitsExactly(part: TemplatePart, text: string, regex: Regex)
    requires IsPart(part)
    ensures PartMatches(PartText(part), text, regex) <==> Fits(part, text, regex)
  {
    hide Pattern;
    PartsAreRead(part);
  }

  /** A route without mount matches exactly the paths that its template stands for: a text that fits
      for each part, joined by slashes. */
  lemma MatchesExactlyInstances(verb: string, start: string, parts: seq<TemplatePart>, callback: int, path: string, regex: Regex)
    requires '/' !in start && ArePartsOf(parts)
    ensures var made := MakeRoute(verb, PathOf(start, PartTexts(parts)), callback, false);
            && made.Some? && WellMade(made.value)
            && (PathMatches(made.value, path, regex)
                <==> exists first, texts ::
                       '/' !in first && Whole(texts) && AllFit(parts, texts, regex) && path == PathOf(first, texts))
  {
    hide AllFit, ArePartsOf, PartTexts, AllMatch;
    TemplateIsTaken(verb, start, parts, callback);
    FitsExactly(parts, Segments(path), regex);
    if AllFit(parts, Segments(path), regex) {
      PathIsJoined(path);
    }
    if first, texts :| '/' !in first && Whole(texts) && AllFit(parts, texts, regex) && path == PathOf(first, texts) {
      SegmentsOfPath(first, texts);
    }
  }

  lemma PathIsJoined(path: string)
    ensures exists first :: '/' !in first && path == PathOf(first, Segments(path))
    ensures Whole(Segments(path))
  {
    var pieces := Split(path, SLASH);
    JoinOfSplit(path);
    assert [pieces[0]] + pieces[1..] == pieces;
    forall piece | piece in pieces
      ensures '/' !in piece
    {
      assert SLASH('/');
    }
    assert '/' !in pieces[0] && path == PathOf(pieces[0], Segments(path));
  }

  ghost predicate IsLastNamed(parts: seq<TemplatePart>, i: int)
    requires 0 <= i < |parts|
  {
    parts[i].Named? && forall j :: i < j < |parts| && parts[j].Named? ==> parts[j].name != parts[i].name
  }

  /** The map holds exactly the names, each with the text at its last place. */
  ghost predicate Assigns(m: map<string, string>, parts: seq<TemplatePart>, texts: seq<string>)
    requires |texts| >= |parts|
  {
    && (forall i :: 0 <= i < |parts| && parts[i].Named? ==> parts[i].name in m)
    && (forall i :: 0 <= i < |parts| && IsLastNamed(parts, i) ==> m[parts[i].name] == texts[i])
    && (forall name :: name in m ==> exists i :: 0 <= i < |parts| && parts[i] == Named(name))
  }

  lemma NothingAssigns(texts: seq<string>)
    ensures Assigns(map[], [], texts) && ParametersOf([], texts) == Some(map[])
  {}

  lemma {:induction false} ParametersAssign(parts: seq<TemplatePart>, texts: seq<string>)
    requires ArePartsOf(parts) && |texts| >= |parts|
    ensures var m := ParametersOf(PartTexts(parts), texts); m.Some? && Assigns(m.value, parts, texts)
    decreases |parts|
  {
    hide PartText, TemplateName, IsParameter, Assigns;
    if parts == [] {
      NothingAssigns(texts);
    } else {
      var n := |parts| - 1;
      ParametersAssign(parts[..n], texts);
      assert PartTexts(parts)[..n] == PartTexts(parts[..n]);
      PartsAreRead(parts[n]);
      AssignsOneMore(ParametersOf(PartTexts(parts[..n]), texts).value, parts, texts);
    }
  }

  lemma AssignsOneMore(m: map<string, string>, parts: seq<TemplatePart>, texts: seq<string>)
    requires parts != [] && |texts| >= |parts|
    requires Assigns(m, parts[..|parts| - 1], texts)
    ensures var n := |parts| - 1;
            Assigns(if parts[n].Named? then m[parts[n].name := texts[n]] else m, parts, texts)
  {
    var n := |parts| - 1;
    var before, q := parts[..n], if parts[n].Named? then m[parts[n].name := texts[n]] else m;
    forall i | 0 <= i < |parts| && parts[i].Named?
      ensures parts[i].name in q
      ensures IsLastNamed(parts, i) ==> q[parts[i].name] == texts[i]
    {
      if i < n {
        assert before[i] == parts[i];
        if IsLastNamed(parts, i) {
          assert parts[n].Named? ==> parts[n].name != parts[i].name;
          assert IsLastNamed(before, i);
        }
      }
    }
    forall name | name in q
      ensures exists i :: 0 <= i < |parts| && parts[i] == Named(name)
    {
      if name in m {
        var i :| 0 <= i < n && before[i] == Named(name);
        assert parts[i] == before[i];
      }
    }
  }

  /** Template inverse: a path made from a template by putting texts in is matched by the route, fully
      when the methods are the same, and the parameters taken out are exactly the texts put in, under
      the names of the template. */
  lemma TemplateInverse(verb: string, start: string, parts: seq<TemplatePart>, callback: int,
                        first: string, texts: seq<string>, asked: string, regex: Regex)
    requires '/' !in start && ArePartsOf(parts)
    requires '/' !in first && Whole(texts) && AllFit(parts, texts, regex)
    ensures var made, path := MakeRoute(verb, PathOf(start, PartTexts(parts)), callback, false), PathOf(first, texts);
            && made.Some? && WellMade(made.value)
            && Matches(made.value, path, asked, regex) == (if asked == verb then FullMatch else PathMatch)
            && Parameters(made.value, path).Some? && Assigns(Parameters(made.value, path).value, parts, texts)
  {
    hide ArePartsOf, PartTexts, AllMatch, Assigns;
    TemplateIsTaken(verb, start, parts, callback);
    FitsExactly(parts, texts, regex);
    SegmentsOfPath(first, texts);
    ParametersAssign(parts, texts);
    MatchesExactly(Route(verb, PartTexts(parts), callback, false), PathOf(first, texts), asked, regex);
  }

  // ----- mounts

  /** A mounted route matches exactly the paths that begin with its template, taken as it is. */
  lemma MountMatchesExactly(verb: string, template: string, callback: int, path: string, asked: string, regex: Regex)
    ensures var made := MakeRoute(verb, template, callback, true);
            && (made.None? <==> template == ":")
            && (made.Some? ==>
                  && WellMade(made.value)
                  && (Matches(made.value, path, asked, regex) != NoMatch <==> exists rest :: path == template + rest)
                  && (Matches(made.value, path, asked, regex) == FullMatch
                      <==> asked == verb && exists rest :: path == template + rest))
  {
    if template <= path {
      assert path == template + path[|template|..];
    }
  }
}
