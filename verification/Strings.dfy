/** Byte-string helpers the other modules share: search, trimming, splitting and joining.
    A `string` stands for a std::string, one char per byte. */
module Strings {
  datatype Option<+T> = None | Some(value: T)

  const CRLF: string := "\r\n"

  /** Index of the first `c`; |s| stands for std::string::npos. */
  function Find<T(==)>(s: seq<T>, c: T): (i: nat)
    ensures i <= |s|
    ensures i < |s| ==> s[i] == c
    ensures c !in s[..i]
    ensures i == |s| ==> c !in s
  {
    if s == [] || s[0] == c then 0 else
      var i := 1 + Find(s[1..], c);
      assert s[..i] == [s[0]] + s[1..][..i - 1];
      assert s == [s[0]] + s[1..];
      i
  }

  lemma {:induction false} FindIs<T>(s: seq<T>, c: T, i: nat)
    requires i <= |s| && c !in s[..i]
    requires i == |s| || s[i] == c
    ensures Find(s, c) == i
  {
    if i > 0 {
      assert s[..i] == [s[0]] + s[1..][..i - 1];
      FindIs(s[1..], c, i - 1);
    }
  }

  lemma CutAt(front: string, c: char, back: string)
    requires c !in front
    ensures var s := front + [c] + back;
            Find(s, c) == |front| && s[..|front|] == front && s[|front| + 1..] == back
  {
    var s := front + [c] + back;
    assert s[..|front|] == front;
    FindIs(s, c, |front|);
  }

  /** Index of the last `c`; |s| when there is none. */
  function FindLast(s: string, c: char): (i: nat)
    ensures i <= |s|
    ensures i < |s| ==> s[i] == c && c !in s[i + 1..]
    ensures i == |s| ==> c !in s
  {
    if s == [] then 0
    else if s[|s| - 1] == c then |s| - 1
    else
      var n := |s| - 1;
      var i := FindLast(s[..n], c);
      assert s == s[..n] + [s[n]];
      if i == n then |s| else
        assert s[i + 1..] == s[..n][i + 1..] + [s[n]];
        i
  }

  lemma {:induction false} FindLastIs(s: string, c: char, i: nat)
    requires i < |s| && s[i] == c && c !in s[i + 1..]
    ensures FindLast(s, c) == i
  {
    var n := |s| - 1;
    if i < n {
      assert s[i + 1..] == s[..n][i + 1..] + [s[n]];
      FindLastIs(s[..n], c, i);
    }
  }

  predicate IsSpace(c: char) {
    c == ' ' || '\t' <= c <= '\r'
  }

  predicate IsDigit(c: char) {
    '0' <= c <= '9'
  }

  predicate IsAlnum(c: char) {
    IsDigit(c) || 'A' <= c <= 'Z' || 'a' <= c <= 'z'
  }

  /** The value of a hexadecimal digit of either case. */
  function HexValue(c: char): (v: Option<int>)
    ensures v.Some? ==> 0 <= v.value < 16
  {
    if IsDigit(c) then Some(c as int - '0' as int)
    else if 'a' <= c <= 'f' then Some(c as int - 'a' as int + 10)
    else if 'A' <= c <= 'F' then Some(c as int - 'A' as int + 10)
    else None
  }

  predicate Blank(s: string) {
    forall c | c in s :: IsSpace(c)
  }

  function TrimLeft(s: string): (r: string)
    ensures r == [] || !IsSpace(r[0])
    ensures |r| <= |s| && r == s[|s| - |r|..]
    ensures Blank(s[..|s| - |r|])
  {
    if s != [] && IsSpace(s[0]) then
      var r := TrimLeft(s[1..]);
      assert s[..|s| - |r|] == [s[0]] + s[1..][..|s| - 1 - |r|];
      r
    else s
  }

  function TrimRight(s: string): (r: string)
    ensures r == [] || !IsSpace(r[|r| - 1])
    ensures r <= s && Blank(s[|r|..])
  {
    if s != [] && IsSpace(s[|s| - 1]) then
      var r := TrimRight(s[..|s| - 1]);
      assert s[|r|..] == s[..|s| - 1][|r|..] + [s[|s| - 1]];
      r
    else s
  }

  /** The one text without blanks in front that is left. */
  lemma {:induction false} TrimLeftIs(blanks: string, s: string)
    requires Blank(blanks) && (s != [] ==> !IsSpace(s[0]))
    ensures TrimLeft(blanks + s) == s
  {
    if blanks == [] {
      assert blanks + s == s;
    } else {
      assert blanks[0] in blanks;
      assert (blanks + s)[1..] == blanks[1..] + s;
      TrimLeftIs(blanks[1..], s);
    }
  }

  lemma {:induction false} TrimRightIs(s: string, blanks: string)
    requires Blank(blanks) && (s != [] ==> !IsSpace(s[|s| - 1]))
    ensures TrimRight(s + blanks) == s
  {
    if blanks == [] {
      assert s + blanks == s;
    } else {
      var n := |blanks| - 1;
      assert blanks[n] in blanks;
      assert (s + blanks)[..|s| + n] == s + blanks[..n];
      TrimRightIs(s, blanks[..n]);
    }
  }

  function LowerChar(c: char): char {
    if 'A' <= c <= 'Z' then (c as int + 32) as char else c
  }

  function Lower(s: string): string {
    seq(|s|, i requires 0 <= i < |s| => LowerChar(s[i]))
  }

  /** All pieces one after the other. */
  function Concat<T>(pieces: seq<seq<T>>): seq<T> {
    if pieces == [] then [] else pieces[0] + Concat(pieces[1..])
  }

  lemma {:induction false} ConcatAppend<T>(a: seq<seq<T>>, b: seq<seq<T>>)
    ensures Concat(a + b) == Concat(a) + Concat(b)
  {
    if a == [] {
      assert a + b == b;
    } else {
      assert (a + b)[1..] == a[1..] + b;
      ConcatAppend(a[1..], b);
    }
  }

  lemma ConcatOne<T>(s: seq<T>)
    ensures Concat([s]) == s
  {
    assert [s][1..] == [];
    assert s + [] == s;
  }

  /** boost::split without token compression, on the chars for which `sep` holds. */
  function Split(s: string, sep: char -> bool): (parts: seq<string>)
    ensures |parts| >= 1
    ensures forall part, c | part in parts && c in part :: !sep(c)
  {
    if s == [] then [""]
    else
      var rest := Split(s[1..], sep);
      if sep(s[0]) then [""] + rest
      else
        assert rest[0] in rest;
        [[s[0]] + rest[0]] + rest[1..]
  }

  function Join(parts: seq<string>, c: char): string
    requires parts != []
  {
    if |parts| == 1 then parts[0] else parts[0] + [c] + Join(parts[1..], c)
  }

  predicate Free(s: string, sep: char -> bool) {
    forall c | c in s :: !sep(c)
  }

  lemma {:induction false} SplitFirst(part: string, c: char, rest: string, sep: char -> bool)
    requires Free(part, sep) && sep(c)
    ensures Split(part + [c] + rest, sep) == [part] + Split(rest, sep)
  {
    var s := part + [c] + rest;
    if part == [] {
      assert s[1..] == rest;
    } else {
      assert s[1..] == part[1..] + [c] + rest;
      SplitFirst(part[1..], c, rest, sep);
      assert s[0] == part[0] && !sep(part[0]);
      assert part == [part[0]] + part[1..];
    }
  }

  lemma {:induction false} SplitWhole(part: string, sep: char -> bool)
    requires Free(part, sep)
    ensures Split(part, sep) == [part]
  {
    if part != [] {
      assert part[0] in part;
      SplitWhole(part[1..], sep);
      assert part == [part[0]] + part[1..];
    }
  }

  /** Splitting undoes joining when no part holds a separator. */
  lemma {:induction false} SplitJoin(parts: seq<string>, c: char, sep: char -> bool)
    requires parts != [] && sep(c)
    requires forall part | part in parts :: Free(part, sep)
    ensures Split(Join(parts, c), sep) == parts
  {
    assert parts[0] in parts;
    if |parts| == 1 {
      SplitWhole(parts[0], sep);
    } else {
      SplitJoin(parts[1..], c, sep);
      SplitFirst(parts[0], c, Join(parts[1..], c), sep);
    }
  }
}
