/** Cookies that a client sends in one header field are read back. */
module CookieReading {
  import opened Strings
  import opened RequestSyntax
  import opened UrlSyntax

  /** name=value pairs, with a blank in front of all but the first. */
  function CookieParts(pairs: seq<Pair>): (parts: seq<string>)
    ensures |parts| == |pairs|
  {
    seq(|pairs|, i requires 0 <= i < |pairs| =>
      (if i == 0 then "" else " ") + pairs[i].0 + "=" + pairs[i].1)
  }

  function CookieText(pairs: seq<Pair>): string
    requires pairs != []
  {
    Join(CookieParts(pairs), ';')
  }

  predicate CookiePair(pair: Pair) {
    && ';' !in pair.0 && '=' !in pair.0 && (pair.0 == [] || !IsSpace(pair.0[0]))
    && ';' !in pair.1
  }

  // ----- nothing is compressed

  lemma {:induction false} CompressAfter(part: string, c: char, rest: string)
    requires c !in part
    ensures CompressRuns(part + rest, c) == part + CompressRuns(rest, c)
  {
    if part == [] {
      assert part + rest == rest;
    } else {
      assert part[0] in part;
      assert (part + rest)[1..] == part[1..] + rest;
      CompressAfter(part[1..], c, rest);
      assert part == [part[0]] + part[1..];
    }
  }

  lemma CompressSeparator(c: char, rest: string)
    requires rest != [] && rest[0] != c
    ensures CompressRuns([c] + rest, c) == [c] + CompressRuns(rest, c)
    ensures CompressRuns([], c) == []
  {
    assert ([c] + rest)[1..] == rest;
  }

  lemma {:induction false} NothingToCompress(parts: seq<string>, c: char)
    requires parts != [] && forall i :: 0 <= i < |parts| ==> c !in parts[i] && parts[i] != []
    ensures CompressRuns(Join(parts, c), c) == Join(parts, c)
    ensures Join(parts, c) != [] && Join(parts, c)[0] != c
    decreases |parts|
  {
    hide CompressRuns;
    var first := parts[0];
    assert first[0] in first;
    CompressSeparator(c, first);
    if |parts| == 1 {
      CompressAfter(first, c, []);
      assert first + [] == first;
    } else {
      var rest := Join(parts[1..], c);
      NothingToCompress(parts[1..], c);
      CompressAfter(first, c, [c] + rest);
      CompressSeparator(c, rest);
      assert Join(parts, c) == first + ([c] + rest);
    }
  }

  /** Several separators in a row count as one. */
  lemma {:induction false} ExtraSeparator(a: string, c: char, b: string)
    ensures CompressRuns(a + [c, c] + b, c) == CompressRuns(a + [c] + b, c)
    decreases |a|
  {
    var s, t := a + [c, c] + b, a + [c] + b;
    if a == [] {
      assert s[1..] == t;
    } else {
      assert s[1..] == a[1..] + [c, c] + b && t[1..] == a[1..] + [c] + b;
      ExtraSeparator(a[1..], c, b);
      assert s[0] == t[0] == a[0] && s[1] == t[1];
    }
  }

  predicate IsSemicolon(c: char) {
    c == ';'
  }

  /** The pieces after compression are those between separators that are not empty, and an empty one at
      each end where a separator stands. */
  lemma {:induction false} CompressedPieces(s: string)
    ensures var p, q := Split(CompressRuns(s, ';'), IsSemicolon), Split(s, IsSemicolon);
            && p[0] == q[0]
            && (p[0] == "" <==> s == "" || s[0] == ';')
            && (forall piece :: piece != "" ==> (piece in p[1..] <==> piece in q[1..]))
            && ("" in p[1..] <==> s != "" && s[|s| - 1] == ';')
  {
    if s != "" {
      var t := s[1..];
      CompressedPieces(t);
      var p, q := Split(CompressRuns(t, ';'), IsSemicolon), Split(t, IsSemicolon);
      assert p == [p[0]] + p[1..] && q == [q[0]] + q[1..];
      if s[0] == ';' && t != "" && t[0] == ';' {
        assert Split(s, IsSemicolon)[1..] == q;
      } else {
        var c := CompressRuns(s, ';');
        assert c == [s[0]] + CompressRuns(t, ';') && c[1..] == CompressRuns(t, ';');
        if s[0] == ';' {
          assert Split(c, IsSemicolon)[1..] == p && Split(s, IsSemicolon)[1..] == q;
        } else {
          assert Split(c, IsSemicolon)[1..] == p[1..] && Split(s, IsSemicolon)[1..] == q[1..];
        }
      }
    }
  }

  // ----- pairs are read

  /** The piece that gives a pair: blanks, a name without '=', '=', and any value. */
  ghost predicate IsCookiePiece(piece: string, pair: Pair) {
    && '=' !in pair.0 && (pair.0 != [] ==> !IsSpace(pair.0[0]))
    && exists blanks :: Blank(blanks) && piece == blanks + pair.0 + "=" + pair.1
  }

  lemma PieceIsRead(piece: string, pair: Pair)
    requires IsCookiePiece(piece, pair)
    ensures var eq := Find(piece, '=');
            eq < |piece| && TrimLeft(piece[..eq]) == pair.0 && piece[eq + 1..] == pair.1
  {
    hide Find, TrimLeft, Blank;
    var blanks :| Blank(blanks) && piece == blanks + pair.0 + "=" + pair.1;
    NoEqualsInBlanks(blanks);
    CutAt(blanks + pair.0, '=', pair.1);
    TrimLeftIs(blanks, pair.0);
  }

  lemma NoEqualsInBlanks(s: string)
    requires Blank(s)
    ensures '=' !in s
  {
    assert !IsSpace('=');
  }

  lemma NothingIsRead()
    ensures Holds(map[], []) && CookiesOf([]) == Some(map[])
  {}

  /** Pieces in any number and with any names: later ones win. */
  lemma {:induction false} PiecesAreRead(pieces: seq<string>, pairs: seq<Pair>)
    requires |pieces| == |pairs| && forall i :: 0 <= i < |pairs| ==> IsCookiePiece(pieces[i], pairs[i])
    ensures var r := CookiesOf(pieces); r.Some? && Holds(r.value, pairs)
    decreases |pairs|
  {
    hide Find, TrimLeft, IsCookiePiece, Holds;
    if pairs == [] {
      NothingIsRead();
    } else {
      var n := |pairs| - 1;
      PiecesAreRead(pieces[..n], pairs[..n]);
      PieceIsRead(pieces[n], pairs[n]);
      HoldsOneMore(CookiesOf(pieces[..n]).value, pairs);
    }
  }

  /** Any cookies, joined the way clients do, are read back exactly. */
  lemma CookiesRoundTrip(pairs: seq<Pair>)
    requires pairs != [] && forall i :: 0 <= i < |pairs| ==> CookiePair(pairs[i])
    ensures var r := ParseCookies(CookieText(pairs)); r.Some? && Holds(r.value, pairs)
  {
    hide Find, TrimLeft, CookiesOf, CompressRuns, Split, Holds;
    var parts := CookieParts(pairs);
    forall i | 0 <= i < |parts|
      ensures ';' !in parts[i] && parts[i] != [] && IsCookiePiece(parts[i], pairs[i])
    {
      var blanks := if i == 0 then "" else " ";
      assert Blank(blanks) && parts[i] == blanks + pairs[i].0 + "=" + pairs[i].1;
    }
    NothingToCompress(parts, ';');
    SplitJoin(parts, ';', c => c == ';');
    PiecesAreRead(parts, pairs);
  }

  // ----- what is no cookie text

  lemma {:induction false} PiecesFailExactly(pieces: seq<string>)
    ensures CookiesOf(pieces).None? <==> exists piece :: piece in pieces && '=' !in piece
    decreases |pieces|
  {
    hide TrimLeft;
    if pieces != [] {
      var n := |pieces| - 1;
      PiecesFailExactly(pieces[..n]);
      assert pieces == pieces[..n] + [pieces[n]];
    }
  }

  /** A text is refused exactly when it is empty, begins or ends with a semicolon, or has something
      between semicolons that holds no '='. */
  predicate BadCookieText(entry: string) {
    || entry == "" || entry[0] == ';' || entry[|entry| - 1] == ';'
    || exists piece :: piece in Split(entry, IsSemicolon) && piece != "" && '=' !in piece
  }

  lemma {:induction false} SplitBySame(s: string, f: char -> bool, g: char -> bool)
    requires forall c :: f(c) == g(c)
    ensures Split(s, f) == Split(s, g)
  {
    if s != [] {
      SplitBySame(s[1..], f, g);
    }
  }

  lemma CookieTextFailsExactly(entry: string)
    ensures ParseCookies(entry).None? <==> BadCookieText(entry)
  {
    hide Split, CompressRuns, CookiesOf;
    SplitBySame(CompressRuns(entry, ';'), c => c == ';', IsSemicolon);
    var p, q := Split(CompressRuns(entry, ';'), IsSemicolon), Split(entry, IsSemicolon);
    CompressedPieces(entry);
    PiecesFailExactly(p);
    assert p == [p[0]] + p[1..] && q == [q[0]] + q[1..];
    assert '=' !in "";
  }
}
