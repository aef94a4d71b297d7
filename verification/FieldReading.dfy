/** What a line of the head is stored as, for every line, in terms of its text. */
module FieldReading {
  import opened Strings
  import opened Characters
  import opened RequestSyntax
  import opened UrlSyntax
  import opened CookieReading

  /** The name of the cookie field, in any mixture of upper and lower case. */
  predicate IsCookieName(key: string) {
    |key| == 6 && forall i :: 0 <= i < 6 ==> key[i] == "cookie"[i] || key[i] == "COOKIE"[i]
  }

  lemma CookieLetter(c: char, i: nat)
    requires i < 6
    ensures LowerChar(c) == "cookie"[i] <==> c == "cookie"[i] || c == "COOKIE"[i]
  {
    assert i == 0 || i == 1 || i == 2 || i == 3 || i == 4 || i == 5;
  }

  lemma CookieNamesAre(key: string)
    ensures Lower(key) == "cookie" <==> IsCookieName(key)
  {
    hide LowerChar;
    assert |Lower(key)| == |key|;
    forall i | 0 <= i < |key| && i < 6
      ensures Lower(key)[i] == "cookie"[i] <==> key[i] == "cookie"[i] || key[i] == "COOKIE"[i]
    {
      CookieLetter(key[i], i);
    }
  }

  /** A line with a colon, in its parts: a key and blanks before the first colon, and blanks and a
      value behind it. */
  predicate IsLine(line: string, key: string, gap: string, blanks: string, value: string) {
    && line == key + gap + ":" + blanks + value && ':' !in key && Blank(gap) && Blank(blanks)
    && (key != [] ==> !IsSpace(key[|key| - 1])) && (value != [] ==> !IsSpace(value[0]))
  }

  lemma PartsAreTaken(line: string, key: string, gap: string, blanks: string, value: string)
    requires IsLine(line, key, gap, blanks, value)
    ensures var colon := Find(line, ':');
            colon < |line| && TrimRight(line[..colon]) == key && TrimLeft(line[colon + 1..]) == value
  {
    hide Find, TrimLeft, TrimRight, Blank, IsSpace;
    NoColonInBlanks(gap);
    TwoSides(key, gap, blanks, value);
    CutAt(key + gap, ':', blanks + value);
    TrimRightIs(key, gap);
    TrimLeftIs(blanks, value);
  }

  lemma TwoSides(key: string, gap: string, blanks: string, value: string)
    ensures key + gap + ":" + blanks + value == (key + gap) + ":" + (blanks + value)
    ensures ':' !in key && ':' !in gap ==> ':' !in key + gap
  {}

  lemma NoColonInBlanks(s: string)
    requires Blank(s)
    ensures ':' !in s
  {
    assert !IsSpace(':');
  }

  /** A line whose key is not the cookie name is stored under exactly its key, with exactly its value,
      on top of what was there, and leaves the cookies alone. */
  lemma FieldIsStored(h: Header, line: string, key: string, gap: string, blanks: string, value: string)
    requires IsLine(line, key, gap, blanks, value) && !IsCookieName(key)
    ensures AddField(h, line) == Field(h.(fields := h.fields[key := value]))
  {
    hide Find, TrimLeft, TrimRight, Lower, ParseCookies, IsLine;
    PartsAreTaken(line, key, gap, blanks, value);
    CookieNamesAre(key);
  }

  /** A line whose key is the cookie name, in any letter case, leaves the fields alone. It is refused
      exactly when its value is no cookie text. Otherwise a cookie that is known already keeps its
      value, all others are added, and nothing else. */
  lemma CookiesAreStored(h: Header, line: string, key: string, gap: string, blanks: string, value: string)
    requires IsLine(line, key, gap, blanks, value) && IsCookieName(key)
    ensures AddField(h, line) == BadField(BadCookie) <==> BadCookieText(value)
    ensures !BadCookieText(value) ==>
              var r, read := AddField(h, line), ParseCookies(value);
              && r.Field? && read.Some? && r.header == h.(cookies := r.header.cookies)
              && r.header.cookies.Keys == h.cookies.Keys + read.value.Keys
              && (forall name :: name in h.cookies ==> r.header.cookies[name] == h.cookies[name])
              && (forall name :: name in read.value && name !in h.cookies ==> r.header.cookies[name] == read.value[name])
  {
    hide Find, TrimLeft, TrimRight, Lower, ParseCookies, IsLine, BadCookieText;
    PartsAreTaken(line, key, gap, blanks, value);
    CookieNamesAre(key);
    CookieTextFailsExactly(value);
  }

  /** The same for cookies that a client joined: the ones that are new arrive, each with its last value. */
  lemma CookieFieldIsStored(h: Header, line: string, key: string, gap: string, blanks: string, pairs: seq<Pair>)
    requires pairs != [] && forall i :: 0 <= i < |pairs| ==> CookiePair(pairs[i])
    requires IsLine(line, key, gap, blanks, CookieText(pairs)) && IsCookieName(key)
    ensures var r := AddField(h, line);
            && r.Field? && r.header == h.(cookies := r.header.cookies)
            && (forall name :: name in h.cookies ==> name in r.header.cookies && r.header.cookies[name] == h.cookies[name])
            && (forall i :: 0 <= i < |pairs| && IsLast(pairs, i) && pairs[i].0 !in h.cookies ==>
                  pairs[i].0 in r.header.cookies && r.header.cookies[pairs[i].0] == pairs[i].1)
            && (forall name :: name in r.header.cookies ==>
                  name in h.cookies || exists i :: 0 <= i < |pairs| && pairs[i].0 == name)
  {
    hide ParseCookies, CookieText, AddField, IsLine, IsCookieName, BadCookieText, CookiePair;
    CookiesRoundTrip(pairs);
    CookieTextFailsExactly(CookieText(pairs));
    CookiesAreStored(h, line, key, gap, blanks, CookieText(pairs));
  }

  lemma FrontParts(front: string) returns (key: string, gap: string)
    ensures front == key + gap && Blank(gap) && (key != [] ==> !IsSpace(key[|key| - 1]))
  {
    hide TrimRight, Blank, IsSpace;
    key := TrimRight(front);
    gap := front[|key|..];
  }

  lemma BackParts(back: string) returns (blanks: string, value: string)
    ensures back == blanks + value && Blank(blanks) && (value != [] ==> !IsSpace(value[0]))
  {
    hide TrimLeft, Blank, IsSpace;
    value := TrimLeft(back);
    blanks := back[..|back| - |value|];
  }

  /** Every line with a colon has its parts. */
  lemma LineHasParts(line: string)
    requires ':' in line
    ensures exists key, gap, blanks, value :: IsLine(line, key, gap, blanks, value)
  {
    hide Find, Blank, IsSpace;
    var colon := Find(line, ':');
    var front, back := line[..colon], line[colon + 1..];
    assert line == front + ":" + back;
    var key, gap := FrontParts(front);
    var blanks, value := BackParts(back);
    TwoSides(key, gap, blanks, value);
    assert ':' !in key by { assert front[..|key|] == key; }
    assert IsLine(line, key, gap, blanks, value);
  }

  /** A line is refused for want of a colon exactly when it has none. */
  lemma NoColonIsRefusedExactly(h: Header, line: string)
    ensures AddField(h, line) == BadField(NoColon) <==> ':' !in line
  {
    hide Find, TrimLeft, TrimRight, Lower, ParseCookies;
  }

  /** A line of the cookie field whose value is no cookie text. */
  ghost predicate IsBadCookieLine(line: string) {
    exists key, gap, blanks, value :: IsLine(line, key, gap, blanks, value) && IsCookieName(key) && BadCookieText(value)
  }

  lemma AddFieldErrors(h: Header, line: string)
    ensures AddField(h, line).BadField? ==> AddField(h, line).error == NoColon || AddField(h, line).error == BadCookie
  {
    hide Find, TrimLeft, TrimRight, Lower, ParseCookies;
  }

  lemma BadCookieLineIsRefusedExactly(h: Header, line: string)
    ensures AddField(h, line) == BadField(BadCookie) <==> IsBadCookieLine(line)
  {
    hide AddField, IsLine, IsCookieName, BadCookieText;
    NoColonIsRefusedExactly(h, line);
    if AddField(h, line) == BadField(BadCookie) {
      LineHasParts(line);
      var key, gap, blanks, value :| IsLine(line, key, gap, blanks, value);
      if IsCookieName(key) {
        CookiesAreStored(h, line, key, gap, blanks, value);
      } else {
        FieldIsStored(h, line, key, gap, blanks, value);
      }
    }
    if key, gap, blanks, value :| IsLine(line, key, gap, blanks, value) && IsCookieName(key) && BadCookieText(value) {
      CookiesAreStored(h, line, key, gap, blanks, value);
    }
  }

  /** A line that can be stored: it has a colon and is no bad cookie line. */
  ghost predicate IsStorable(line: string) {
    ':' in line && !IsBadCookieLine(line)
  }

  lemma IsStorableExactly(h: Header, line: string)
    ensures AddField(h, line).Field? <==> IsStorable(line)
  {
    hide AddField, IsBadCookieLine;
    NoColonIsRefusedExactly(h, line);
    BadCookieLineIsRefusedExactly(h, line);
    AddFieldErrors(h, line);
  }
}
