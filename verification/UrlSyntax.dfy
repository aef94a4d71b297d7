/** Taking a url apart into path and query, with percent-decoding. */
module UrlSyntax {
  import opened Strings
  import opened Characters

  // ----- percent-decoding

  /** std::stoi(buf, nullptr, 16) on two characters. It skips leading blanks, takes a sign, and stops at
      the first character that is no digit; without any digit it throws, which is None. */
  function Stoi16(first: char, second: char): Option<int> {
    match HexValue(first)
    case Some(high) =>
      (match HexValue(second)
       case Some(low) => Some(16 * high + low)
       case None => Some(high))
    case None =>
      match HexValue(second)
      case Some(low) =>
        if IsSpace(first) || first == '+' then Some(low)
        else if first == '-' then Some(-low)
        else None
      case None => None
  }

  /** The cast of an int to a char of eight bits. */
  function ToByte(v: int): char {
    (v % 256) as char
  }

  /** `front` before the text, if there is one. */
  function Behind(front: string, rest: Option<string>): Option<string> {
    if rest.None? then None else Some(front + rest.value)
  }

  /** None stands for the exception that an escape without digits raises. */
  function Decode(s: string): Option<string> {
    if s == [] then Some([])
    else if s[0] == '%' && 2 < |s| then
      var v := Stoi16(s[1], s[2]);
      if v.None? then None else Behind([ToByte(v.value)], Decode(s[3..]))
    else Behind([s[0]], Decode(s[1..]))
  }

  /** The library's loop: one pass with an index that jumps over escapes. */
  method DecodeUrl(encoded: string) returns (decoded: Option<string>)
    ensures decoded == Decode(encoded)
  {
    var out: string := [];
    var i := 0;
    assert encoded[0..] == encoded;
    assert forall rest: string :: out + rest == rest;
    while i < |encoded|
      invariant i <= |encoded|
      invariant Decode(encoded) == Behind(out, Decode(encoded[i..]))
    {
      ghost var here := encoded[i..];
      if encoded[i] == '%' && i + 2 < |encoded| {
        assert here[1] == encoded[i + 1] && here[2] == encoded[i + 2] && here[3..] == encoded[i + 3..];
        var v := Stoi16(encoded[i + 1], encoded[i + 2]);
        if v.None? {
          return None;
        }
        BehindBoth(out, [ToByte(v.value)], Decode(encoded[i + 3..]));
        out := out + [ToByte(v.value)];
        i := i + 3;
      } else {
        assert here[1..] == encoded[i + 1..];
        BehindBoth(out, [encoded[i]], Decode(encoded[i + 1..]));
        out := out + [encoded[i]];
        i := i + 1;
      }
    }
    assert encoded[i..] == [] && out + [] == out;
    decoded := Some(out);
  }

  lemma BehindBoth(a: string, b: string, rest: Option<string>)
    ensures Behind(a, Behind(b, rest)) == Behind(a + b, rest)
  {
    if rest.Some? {
      assert a + (b + rest.value) == (a + b) + rest.value;
    }
  }

  // ----- query and path

  datatype Url = Url(path: string, query: map<string, string>)

  predicate IsPairSeparator(c: char) {
    c == '&' || c == ';'
  }

  function QueryOf(pairs: seq<string>): map<string, string> {
    if pairs == [] then map[]
    else
      var last := pairs[|pairs| - 1];
      var eq := Find(last, '=');
      QueryOf(pairs[..|pairs| - 1])[last[..eq] := if eq == |last| then "" else last[eq + 1..]]
  }

  function Parse(url: string): Option<Url> {
    var mark := FindLast(url, '?');
    if mark == |url| then
      match Decode(url)
      case Some(path) => Some(Url(path, map[]))
      case None => None
    else
      match (Decode(url[mark + 1..]), Decode(url[..mark]))
      case (Some(query), Some(path)) => Some(Url(path, QueryOf(Split(query, IsPairSeparator))))
      case _ => None
  }

  method ParseQuery(query: string) returns (r: map<string, string>)
    ensures r == QueryOf(Split(query, IsPairSeparator))
  {
    hide Find, Split;
    var pairs := Split(query, IsPairSeparator);
    r := map[];
    for i := 0 to |pairs|
      invariant r == QueryOf(pairs[..i])
    {
      assert pairs[..i + 1][..i] == pairs[..i];
      var pos := Find(pairs[i], '=');
      if pos == |pairs[i]| {
        assert pairs[i][..pos] == pairs[i];
        r := r[pairs[i] := ""];
      } else {
        r := r[pairs[i][..pos] := pairs[i][pos + 1..]];
      }
    }
    assert pairs[..|pairs|] == pairs;
  }

  method ParseUrl(url: string) returns (r: Option<Url>)
    ensures r == Parse(url)
  {
    hide Decode, FindLast, QueryOf, Split;
    var queryPos := FindLast(url, '?');
    if queryPos != |url| {
      var queryPart := DecodeUrl(url[queryPos + 1..]);
      if queryPart.None? {
        return None;
      }
      var query := ParseQuery(queryPart.value);
      var path := DecodeUrl(url[..queryPos]);
      r := if path.None? then None else Some(Url(path.value, query));
    } else {
      var path := DecodeUrl(url);
      r := if path.None? then None else Some(Url(path.value, map[]));
    }
  }

  // ----- decoding inverts every percent-encoder

  /** `enc` comes from `plain` by writing each byte either as itself or as an escape, in digits of
      either case; '%' and '?' are always escaped. */
  ghost predicate IsEncoding(plain: string, enc: string)
    decreases |plain|
  {
    if plain == [] then enc == []
    else
      || (&& |enc| >= 1 && enc[0] == plain[0] && plain[0] != '%' && plain[0] != '?'
          && IsEncoding(plain[1..], enc[1..]))
      || (&& |enc| >= 3 && enc[0] == '%' && IsEscape(enc[1], enc[2], plain[0])
          && IsEncoding(plain[1..], enc[3..]))
  }

  predicate IsEscape(high: char, low: char, c: char) {
    IsHexDigit(high, c as int / 16) && IsHexDigit(low, c as int % 16)
  }

  lemma EscapeIsDecoded(high: char, low: char, c: char)
    requires IsEscape(high, low, c)
    ensures Stoi16(high, low).Some? && ToByte(Stoi16(high, low).value) == c
  {
    hide IsHexDigit, HexValue;
    HexDigitsAre(high, c as int / 16);
    HexDigitsAre(low, c as int % 16);
  }

  lemma EscapeIsNoMark(high: char, low: char, c: char)
    requires IsEscape(high, low, c)
    ensures high != '?' && low != '?'
  {
    hide IsHexDigit;
    HexDigitsAre(high, c as int / 16);
    HexDigitsAre(low, c as int % 16);
  }

  // ----- what decoding makes of any text

  ghost predicate IsNoHexDigit(c: char) {
    forall v :: !IsHexDigit(c, v)
  }

  lemma NoHexDigitsAre(c: char)
    ensures IsNoHexDigit(c) <==> HexValue(c).None?
    ensures forall v :: IsHexDigit(c, v) <==> HexValue(c) == Some(v)
  {
    hide IsHexDigit, HexValue;
    forall v
      ensures IsHexDigit(c, v) <==> HexValue(c) == Some(v)
    {
      HexDigitsAre(c, v);
    }
    if HexValue(c).Some? {
      assert IsHexDigit(c, HexValue(c).value);
    }
  }

  /** Every '%' with two characters behind it: two digits, one digit with something else behind it, or a
      blank or a sign with a digit behind it, stand for one byte; anything else raises an error. */
  lemma EscapesAreDecoded(a: char, b: char, rest: string)
    ensures forall h, l :: IsHexDigit(a, h) && IsHexDigit(b, l) ==>
              Decode("%" + [a, b] + rest) == Behind([(16 * h + l) as char], Decode(rest))
    ensures forall h :: IsHexDigit(a, h) && IsNoHexDigit(b) ==>
              Decode("%" + [a, b] + rest) == Behind([h as char], Decode(rest))
    ensures forall l :: (IsSpace(a) || a == '+') && IsHexDigit(b, l) ==>
              Decode("%" + [a, b] + rest) == Behind([l as char], Decode(rest))
    ensures forall l :: a == '-' && IsHexDigit(b, l) ==>
              Decode("%" + [a, b] + rest) == Behind([if l == 0 then 0 as char else (256 - l) as char], Decode(rest))
    ensures IsNoHexDigit(a) && (IsNoHexDigit(b) || (!IsSpace(a) && a != '+' && a != '-')) ==>
              Decode("%" + [a, b] + rest) == None
  {
    hide IsHexDigit, HexValue, IsNoHexDigit, Decode, Behind, Stoi16, ToByte;
    EscapeIsOneStep(a, b, rest);
    NoHexDigitsAre(a);
    NoHexDigitsAre(b);
    StoiCases(a, b);
  }

  lemma EscapeIsOneStep(a: char, b: char, rest: string)
    ensures Decode("%" + [a, b] + rest)
         == (match Stoi16(a, b)
             case None => None
             case Some(v) => Behind([ToByte(v)], Decode(rest)))
  {
    hide Behind, Stoi16, ToByte;
    var s := "%" + [a, b] + rest;
    assert s[0] == '%' && s[1] == a && s[2] == b && s[3..] == rest;
  }

  lemma StoiCases(a: char, b: char)
    ensures var (x, y), r := (HexValue(a), HexValue(b)), Stoi16(a, b);
            && (x.Some? && y.Some? ==> r.Some? && ToByte(r.value) == (16 * x.value + y.value) as char)
            && (x.Some? && y.None? ==> r.Some? && ToByte(r.value) == x.value as char)
            && (x.None? && y.Some? && (IsSpace(a) || a == '+') ==> r.Some? && ToByte(r.value) == y.value as char)
            && (x.None? && y.Some? && a == '-' ==>
                  r.Some? && ToByte(r.value) == if y.value == 0 then 0 as char else (256 - y.value) as char)
            && (x.None? && (y.None? || (!IsSpace(a) && a != '+' && a != '-')) ==> r.None?)
            && (IsSpace(a) || a == '+' || a == '-' ==> x.None?)
  {
    hide HexValue;
    BlankIsNoDigit(a);
  }

  lemma BlankIsNoDigit(c: char)
    ensures IsSpace(c) || c == '+' || c == '-' ==> HexValue(c).None?
  {}

  /** Everything else stands for itself: other characters, and a '%' too close to the end. */
  lemma OthersAreKept(c: char, rest: string)
    requires c != '%' || |rest| < 2
    ensures Decode([c] + rest) == Behind([c], Decode(rest))
  {
    assert ([c] + rest)[1..] == rest;
  }

  lemma {:induction false} DecodeInvertsEncoding(plain: string, enc: string)
    requires IsEncoding(plain, enc)
    ensures Decode(enc) == Some(plain)
    ensures '?' !in enc
    decreases |plain|
  {
    hide Stoi16, HexValue, ToByte, IsEscape;
    if plain != [] {
      assert plain == [plain[0]] + plain[1..];
      if |enc| >= 1 && enc[0] == plain[0] && plain[0] != '%' && plain[0] != '?' && IsEncoding(plain[1..], enc[1..]) {
        DecodeInvertsEncoding(plain[1..], enc[1..]);
        assert enc == [enc[0]] + enc[1..];
      } else {
        EscapeIsDecoded(enc[1], enc[2], plain[0]);
        EscapeIsNoMark(enc[1], enc[2], plain[0]);
        DecodeInvertsEncoding(plain[1..], enc[3..]);
        assert enc == [enc[0], enc[1], enc[2]] + enc[3..];
      }
    }
  }

  lemma {:induction false} EncodingsConcatenate(a: string, encA: string, b: string, encB: string)
    requires IsEncoding(a, encA) && IsEncoding(b, encB)
    ensures IsEncoding(a + b, encA + encB)
    decreases |a|
  {
    hide IsEscape;
    if a == [] {
      assert a + b == b && encA + encB == encB;
    } else {
      assert (a + b)[1..] == a[1..] + b && (a + b)[0] == a[0];
      if |encA| >= 1 && encA[0] == a[0] && a[0] != '%' && a[0] != '?' && IsEncoding(a[1..], encA[1..]) {
        EncodingsConcatenate(a[1..], encA[1..], b, encB);
        FrontStays(encA, encB, 1);
      } else {
        EncodingsConcatenate(a[1..], encA[3..], b, encB);
        FrontStays(encA, encB, 3);
      }
    }
  }

  lemma FrontStays(s: string, t: string, n: nat)
    requires n <= |s|
    ensures (s + t)[n..] == s[n..] + t && forall i :: 0 <= i < n ==> (s + t)[i] == s[i]
  {}

  // ----- the round trip

  type Pair = (string, string)

  function PairTexts(pairs: seq<Pair>): (texts: seq<string>)
    ensures |texts| == |pairs|
  {
    seq(|pairs|, i requires 0 <= i < |pairs| => pairs[i].0 + "=" + pairs[i].1)
  }

  function QueryText(pairs: seq<Pair>): string
    requires pairs != []
  {
    Join(PairTexts(pairs), '&')
  }

  ghost predicate DistinctKeys(pairs: seq<Pair>) {
    forall i, j :: 0 <= i < j < |pairs| ==> pairs[i].0 != pairs[j].0
  }

  ghost predicate IsLast(pairs: seq<Pair>, i: int)
    requires 0 <= i < |pairs|
  {
    forall j :: i < j < |pairs| ==> pairs[j].0 != pairs[i].0
  }

  /** The map holds exactly the keys of the pairs, each with the value of its last pair. */
  ghost predicate Holds(query: map<string, string>, pairs: seq<Pair>) {
    && (forall i :: 0 <= i < |pairs| ==> pairs[i].0 in query)
    && (forall i :: 0 <= i < |pairs| && IsLast(pairs, i) ==> query[pairs[i].0] == pairs[i].1)
    && (forall key :: key in query ==> exists i :: 0 <= i < |pairs| && pairs[i].0 == key)
  }

  /** No key holds '&', ';' or '=' and no value holds '&' or ';'. */
  predicate Separable(pairs: seq<Pair>) {
    forall pair | pair in pairs ::
      && '&' !in pair.0 && ';' !in pair.0 && '=' !in pair.0
      && '&' !in pair.1 && ';' !in pair.1
  }

  /** The piece of a query that gives a pair; without a '=' the value is empty. */
  predicate IsPiece(piece: string, pair: Pair) {
    '=' !in pair.0 && (piece == pair.0 + "=" + pair.1 || (piece == pair.0 && pair.1 == ""))
  }

  lemma PieceIsRead(piece: string, pair: Pair)
    requires IsPiece(piece, pair)
    ensures var eq := Find(piece, '=');
            piece[..eq] == pair.0 && (if eq == |piece| then "" else piece[eq + 1..]) == pair.1
  {
    hide Find;
    if piece == pair.0 {
      FindIs(piece, '=', |piece|);
    } else {
      CutAt(pair.0, '=', pair.1);
    }
  }

  /** Pieces in any number and with any keys: later ones win. */
  lemma {:induction false} QueryOfPieces(pieces: seq<string>, pairs: seq<Pair>)
    requires |pieces| == |pairs| && forall i :: 0 <= i < |pairs| ==> IsPiece(pieces[i], pairs[i])
    ensures Holds(QueryOf(pieces), pairs)
    decreases |pairs|
  {
    hide Find, IsPiece, Holds;
    if pairs == [] {
      assert Holds(map[], pairs) by { NothingHolds(); }
    } else {
      var n := |pairs| - 1;
      QueryOfPieces(pieces[..n], pairs[..n]);
      PieceIsRead(pieces[n], pairs[n]);
      HoldsOneMore(QueryOf(pieces[..n]), pairs);
    }
  }

  lemma NothingHolds()
    ensures Holds(map[], [])
  {}

  lemma QueryOfTexts(pairs: seq<Pair>)
    requires Separable(pairs)
    ensures Holds(QueryOf(PairTexts(pairs)), pairs)
  {
    hide QueryOf, Holds;
    forall i | 0 <= i < |pairs|
      ensures IsPiece(PairTexts(pairs)[i], pairs[i])
    {
      assert pairs[i] in pairs;
    }
    QueryOfPieces(PairTexts(pairs), pairs);
  }

  lemma HoldsOneMore(query: map<string, string>, pairs: seq<Pair>)
    requires pairs != [] && Holds(query, pairs[..|pairs| - 1])
    ensures var (key, value) := pairs[|pairs| - 1]; Holds(query[key := value], pairs)
  {
    var n := |pairs| - 1;
    var before, q := pairs[..n], query[pairs[n].0 := pairs[n].1];
    forall i | 0 <= i < |pairs|
      ensures pairs[i].0 in q
      ensures IsLast(pairs, i) ==> q[pairs[i].0] == pairs[i].1
    {
      if i < n {
        assert before[i] == pairs[i];
        if IsLast(pairs, i) {
          assert pairs[n].0 != pairs[i].0;
          assert IsLast(before, i);
        }
      }
    }
    forall key | key in q
      ensures exists i :: 0 <= i < |pairs| && pairs[i].0 == key
    {
      if key != pairs[n].0 {
        var i :| 0 <= i < n && before[i].0 == key;
        assert pairs[i].0 == key;
      }
    }
  }

  lemma TextsAreFree(pairs: seq<Pair>)
    requires Separable(pairs)
    ensures forall text | text in PairTexts(pairs) :: Free(text, IsPairSeparator)
  {
    var texts := PairTexts(pairs);
    forall text | text in texts
      ensures Free(text, IsPairSeparator)
    {
      var i :| 0 <= i < |texts| && texts[i] == text;
      assert pairs[i] in pairs;
    }
  }

  lemma SeparatorsAre(s: string)
    requires Free(s, IsPairSeparator)
    ensures '&' !in s && ';' !in s
  {
    assert IsPairSeparator('&') && IsPairSeparator(';');
  }

  /** Whatever was in the query, parsed keys and values hold no separator. */
  lemma {:induction false} ParsedIsSeparable(pairs: seq<string>)
    requires forall part | part in pairs :: Free(part, IsPairSeparator)
    ensures forall key | key in QueryOf(pairs) ::
              && '&' !in key && ';' !in key && '=' !in key
              && '&' !in QueryOf(pairs)[key] && ';' !in QueryOf(pairs)[key]
    decreases |pairs|
  {
    if pairs != [] {
      var n := |pairs| - 1;
      assert pairs[n] in pairs;
      ParsedIsSeparable(pairs[..n]);
      SeparatorsAre(pairs[n]);
    }
  }

  /** A decoded query gives its pairs back, later ones on top, when no key or value holds a separator;
      and when the keys are distinct, only then. */
  lemma QueryIsRecoveredExactly(pairs: seq<Pair>)
    requires pairs != []
    ensures Separable(pairs) ==> Holds(QueryOf(Split(QueryText(pairs), IsPairSeparator)), pairs)
    ensures DistinctKeys(pairs) ==>
              (Holds(QueryOf(Split(QueryText(pairs), IsPairSeparator)), pairs) <==> Separable(pairs))
  {
    hide QueryOf, Split, Join;
    var parts := Split(QueryText(pairs), IsPairSeparator);
    var query := QueryOf(parts);
    if Separable(pairs) {
      TextsAreFree(pairs);
      SplitJoin(PairTexts(pairs), '&', IsPairSeparator);
      QueryOfTexts(pairs);
    }
    if DistinctKeys(pairs) && Holds(query, pairs) {
      ParsedIsSeparable(parts);
      forall pair | pair in pairs
        ensures '&' !in pair.0 && ';' !in pair.0 && '=' !in pair.0 && '&' !in pair.1 && ';' !in pair.1
      {
        var i :| 0 <= i < |pairs| && pairs[i] == pair;
        assert IsLast(pairs, i);
        assert pairs[i].0 in query && query[pairs[i].0] == pairs[i].1;
      }
    }
  }

  lemma EncodedUrlIsDecoded(path: string, encPath: string, query: string, encQuery: string)
    requires IsEncoding(path, encPath) && IsEncoding(query, encQuery)
    ensures Parse(encPath + "?" + encQuery) == Some(Url(path, QueryOf(Split(query, IsPairSeparator))))
  {
    hide FindLast, Decode, IsEncoding, QueryOf, Split;
    var url := encPath + "?" + encQuery;
    DecodeInvertsEncoding(path, encPath);
    DecodeInvertsEncoding(query, encQuery);
    assert url[|encPath| + 1..] == encQuery && url[..|encPath|] == encPath;
    FindLastIs(url, '?', |encPath|);
  }

  /** The last '?' of a url is its mark, whatever stands before it. Both sides are decoded on their own,
      and either one can fail. The pieces of the query, with or without a '=', give its pairs. */
  lemma UrlIsReadAtLastMark(a: string, b: string, path: string, pieces: seq<string>, pairs: seq<Pair>)
    requires '?' !in b && pieces != [] && |pieces| == |pairs|
    requires forall piece | piece in pieces :: '&' !in piece && ';' !in piece
    requires forall i :: 0 <= i < |pairs| ==> IsPiece(pieces[i], pairs[i])
    ensures Parse(a + "?" + b).None? <==> Decode(a).None? || Decode(b).None?
    ensures Decode(a) == Some(path) && Decode(b) == Some(Join(pieces, '&')) ==>
              var r := Parse(a + "?" + b); r.Some? && r.value.path == path && Holds(r.value.query, pairs)
  {
    hide FindLast, Decode, QueryOf, Split, Join, Holds, IsPiece;
    var url := a + "?" + b;
    assert url[|a| + 1..] == b && url[..|a|] == a;
    FindLastIs(url, '?', |a|);
    SplitJoin(pieces, '&', IsPairSeparator);
    QueryOfPieces(pieces, pairs);
  }

  /** The pairs are recovered, later ones on top, when keys and values hold no separator, for every
      percent-encoder; and when the keys are distinct, only then: escaping a separator does not
      protect it, because the whole query is decoded before it is split. The path is recovered in any
      case. */
  lemma UrlRoundTrip(path: string, encPath: string, pairs: seq<Pair>, encQuery: string)
    requires IsEncoding(path, encPath) && pairs != []
    requires IsEncoding(QueryText(pairs), encQuery)
    ensures var r := Parse(encPath + "?" + encQuery);
            && r.Some? && r.value.path == path
            && (Separable(pairs) ==> Holds(r.value.query, pairs))
            && (DistinctKeys(pairs) ==> (Holds(r.value.query, pairs) <==> Separable(pairs)))
  {
    hide Parse, IsEncoding;
    EncodedUrlIsDecoded(path, encPath, QueryText(pairs), encQuery);
    QueryIsRecoveredExactly(pairs);
  }

  /** Without a '?' the whole url is the path, and fails with it. */
  lemma UrlWithoutMark(url: string)
    requires '?' !in url
    ensures Parse(url) == if Decode(url).Some? then Some(Url(Decode(url).value, map[])) else None
  {
    hide Decode, FindLast;
    assert FindLast(url, '?') == |url|;
  }

  /** Without a query the path comes back and the query is empty. */
  lemma PathRoundTrip(path: string, encPath: string)
    requires IsEncoding(path, encPath)
    ensures Parse(encPath) == Some(Url(path, map[]))
  {
    DecodeInvertsEncoding(path, encPath);
    assert FindLast(encPath, '?') == |encPath|;
  }

  /** Keys and values encoded one by one and joined with '=' and '&' make an encoding of the query. */
  lemma {:induction false} PairwiseEncoding(pairs: seq<Pair>, encPairs: seq<Pair>)
    requires pairs != [] && |encPairs| == |pairs|
    requires forall i :: 0 <= i < |pairs| ==> IsEncoding(pairs[i].0, encPairs[i].0) && IsEncoding(pairs[i].1, encPairs[i].1)
    ensures IsEncoding(QueryText(pairs), QueryText(encPairs))
    decreases |pairs|
  {
    var (key, value) := pairs[0];
    var (encKey, encValue) := encPairs[0];
    assert IsEncoding(key, encKey);
    SelfEncoded('=');
    SelfEncoded('&');
    EncodingsConcatenate(key, encKey, "=", "=");
    EncodingsConcatenate(key + "=", encKey + "=", value, encValue);
    if |pairs| > 1 {
      assert PairTexts(pairs)[1..] == PairTexts(pairs[1..]);
      assert PairTexts(encPairs)[1..] == PairTexts(encPairs[1..]);
      PairwiseEncoding(pairs[1..], encPairs[1..]);
      var text, encText := key + "=" + value, encKey + "=" + encValue;
      EncodingsConcatenate(text, encText, "&", "&");
      EncodingsConcatenate(text + "&", encText + "&", QueryText(pairs[1..]), QueryText(encPairs[1..]));
    }
  }

  lemma SelfEncoded(c: char)
    requires c != '%' && c != '?'
    ensures IsEncoding([c], [c])
  {
    assert IsEncoding([c][1..], [c][1..]);
  }

  lemma DecodePlain(enc: string, plain: string)
    requires enc != [] && plain != [] && enc[0] == plain[0] != '%'
    requires Decode(enc[1..]) == Some(plain[1..])
    ensures Decode(enc) == Some(plain)
  {
    assert plain == [plain[0]] + plain[1..];
  }

  lemma EscapedSeparatorDecoded()
    ensures Decode("a=1%262") == Some("a=1&2") && Decode("/") == Some("/")
  {
    assert "/"[1..] == "2"[1..] == "";
    DecodePlain("/", "/");
    DecodePlain("2", "2");
    assert Decode("%262") == Some("&2") by { assert "%262"[3..] == "2" && ['&'] + "2" == "&2"; }
    assert "1%262"[1..] == "%262" && "1&2"[1..] == "&2";
    DecodePlain("1%262", "1&2");
    assert "=1%262"[1..] == "1%262" && "=1&2"[1..] == "1&2";
    DecodePlain("=1%262", "=1&2");
    assert "a=1%262"[1..] == "=1%262" && "a=1&2"[1..] == "=1&2";
    DecodePlain("a=1%262", "a=1&2");
  }

  lemma EscapedSeparatorQuery()
    ensures QueryOf(Split("a=1&2", IsPairSeparator)) == map["a" := "1", "2" := ""]
  {
    hide Split, Find;
    var first, second := "a=1", "2";
    SplitFirst(first, '&', second, IsPairSeparator);
    SplitWhole(second, IsPairSeparator);
    assert first + ['&'] + second == "a=1&2";
    FindIs(first, '=', 1);
    FindIs(second, '=', 1);
    assert first[..1] == "a" && first[2..] == "1" && second[..1] == "2";
    var pairs := [first, second];
    assert [first] + [second] == pairs && pairs[..1] == [first] && [first][..0] == [];
    assert QueryOf([]) == map[];
    assert QueryOf([first]) == map["a" := "1"];
  }

  /** An escaped '&' in a value cuts the value short and makes up a second key. */
  lemma EscapedSeparatorSplits()
    ensures Parse("/?a=1%262") == Some(Url("/", map["a" := "1", "2" := ""]))
  {
    hide Decode, FindLast, Split, QueryOf;
    var url := "/?a=1%262";
    assert url[1] == '?' && url[..1] == "/" && url[2..] == "a=1%262";
    FindLastIs(url, '?', 1);
    EscapedSeparatorDecoded();
    EscapedSeparatorQuery();
  }
}
