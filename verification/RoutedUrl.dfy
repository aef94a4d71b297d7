/** From the url of a request to the parameters of a route: the url is decoded first and the decoded
    path is routed. */
module RoutedUrl {
  import opened Strings
  import opened UrlSyntax
  import opened Router

  lemma {:induction false} SplitCounts(a: string, c: char, b: string, sep: char -> bool)
    requires sep(c)
    ensures |Split(a + [c] + b, sep)| == |Split(a, sep)| + |Split(b, sep)|
  {
    if a == [] {
      assert (a + [c] + b)[1..] == b;
    } else {
      assert (a + [c] + b)[1..] == a[1..] + [c] + b;
      SplitCounts(a[1..], c, b, sep);
    }
  }

  lemma {:induction false} SeparatorSplits(s: string, sep: char -> bool)
    requires !Free(s, sep)
    ensures |Split(s, sep)| > 1
  {
    if s != [] && !sep(s[0]) {
      assert s == [s[0]] + s[1..];
      SeparatorSplits(s[1..], sep);
    }
  }

  /** Joined texts of which one holds a separator fall into more pieces than there were texts. */
  lemma {:induction false} JoinSplitsFurther(texts: seq<string>, c: char, sep: char -> bool)
    requires texts != [] && sep(c)
    ensures |Split(Join(texts, c), sep)| >= |texts|
    ensures (exists text :: text in texts && !Free(text, sep)) ==> |Split(Join(texts, c), sep)| > |texts|
  {
    if !Free(texts[0], sep) {
      SeparatorSplits(texts[0], sep);
    }
    if |texts| > 1 {
      SplitCounts(texts[0], c, Join(texts[1..], c), sep);
      JoinSplitsFurther(texts[1..], c, sep);
    }
    assert forall text :: text in texts <==> text == texts[0] || text in texts[1..];
  }

  /** A text with a slash in it makes the path too long for the template. */
  lemma SlashAddsSegment(first: string, texts: seq<string>)
    requires !Whole(texts)
    ensures |Segments(PathOf(first, texts))| > |texts|
  {
    hide Split, Join;
    var text :| text in texts && '/' in text;
    assert !Free(text, SLASH);
    assert text in [first] + texts;
    JoinSplitsFurther([first] + texts, '/', SLASH);
  }

  /** The url stands for this path: percent-encoded in any way, alone or with an encoded query. */
  ghost predicate StandsFor(url: string, path: string) {
    exists encPath :: IsEncoding(path, encPath)
      && (url == encPath || exists query, encQuery :: IsEncoding(query, encQuery) && url == encPath + "?" + encQuery)
  }

  lemma PathIsDecoded(url: string, path: string)
    requires StandsFor(url, path)
    ensures Parse(url).Some? && Parse(url).value.path == path
  {
    hide Parse, IsEncoding;
    var encPath :| IsEncoding(path, encPath)
      && (url == encPath || exists query, encQuery :: IsEncoding(query, encQuery) && url == encPath + "?" + encQuery);
    if url == encPath {
      PathRoundTrip(path, encPath);
    } else {
      var query, encQuery :| IsEncoding(query, encQuery) && url == encPath + "?" + encQuery;
      EncodedUrlIsDecoded(path, encPath, query, encQuery);
    }
  }

  /** Texts that fit the parts of a template are put into it, and the path is encoded into a url. The
      url is routed to the template, and the parameters are the texts under their names, exactly when
      no text holds a slash: escaping a slash does not protect it, because decoding comes first. */
  lemma RoutedExactly(verb: string, start: string, parts: seq<TemplatePart>, callback: int,
                      first: string, texts: seq<string>, asked: string, regex: Regex, url: string)
    requires '/' !in start && ArePartsOf(parts)
    requires '/' !in first && AllFit(parts, texts, regex) && StandsFor(url, PathOf(first, texts))
    ensures Parse(url).Some?
    ensures var made, path := MakeRoute(verb, PathOf(start, PartTexts(parts)), callback, false), Parse(url).value.path;
            && made.Some? && WellMade(made.value)
            && (Matches(made.value, path, asked, regex) == FullMatch <==> Whole(texts) && asked == verb)
            && (Matches(made.value, path, asked, regex) == PathMatch <==> Whole(texts) && asked != verb)
            && (Whole(texts) ==>
                  && Parameters(made.value, path).Some?
                  && Assigns(Parameters(made.value, path).value, parts, texts))
  {
    hide Parse, StandsFor, Split, Join, PartMatches, AllFit, Assigns, PartTexts, ArePartsOf;
    PathIsDecoded(url, PathOf(first, texts));
    TemplateIsTaken(verb, start, parts, callback);
    if Whole(texts) {
      TemplateInverse(verb, start, parts, callback, first, texts, asked, regex);
    } else {
      SlashAddsSegment(first, texts);
      assert |texts| == |parts| by { SameNumber(parts, texts, regex); }
    }
  }

  lemma SameNumber(parts: seq<TemplatePart>, texts: seq<string>, regex: Regex)
    requires AllFit(parts, texts, regex)
    ensures |texts| == |parts| == |PartTexts(parts)|
  {}
}
