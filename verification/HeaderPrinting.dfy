/** Printing a request header, and reading it back. */
module HeaderPrinting {
  import opened Config
  import opened Strings
  import opened RequestSyntax
  import opened RequestChunking
  import opened HeadGrammar
  import opened FieldReading

  function FieldLine(key: string, value: string): string {
    key + ": " + value
  }

  function FieldLines(fields: map<string, string>, order: seq<string>): seq<string>
    requires forall key | key in order :: key in fields
  {
    seq(|order|, i requires 0 <= i < |order| => FieldLine(order[i], fields[order[i]]))
  }

  function PrintedHead(h: Header, order: seq<string>): Head
    requires forall key | key in order :: key in h.fields
  {
    Head(h.verb, h.url, h.protocol, h.version, FieldLines(h.fields, order))
  }

  /** `order` is an iteration order of the unordered map: every key, once. */
  ghost predicate IsOrder(order: seq<string>, fields: map<string, string>) {
    && (forall key :: key in order <==> key in fields)
    && (forall i, j :: 0 <= i < j < |order| ==> order[i] != order[j])
  }

  /** Writes the request line, one line for each field, and a blank line. */
  method ToString(h: Header, order: seq<string>) returns (text: string)
    requires forall key | key in order :: key in h.fields
    ensures text == Text(PrintedHead(h, order))
  {
    text := h.verb + " " + h.url + " " + h.protocol + "/" + h.version + "\r\n";
    ghost var lines, start := FieldLines(h.fields, order), text;
    for i := 0 to |order|
      invariant text == start + LinesText(lines[..i])
    {
      LinesTextSnoc(lines[..i], lines[i]);
      assert lines[..i + 1] == lines[..i] + [lines[i]];
      text := text + (order[i] + ": " + h.fields[order[i]] + "\r\n");
    }
    assert lines[..|order|] == lines;
    text := text + "\r\n";
  }

  lemma {:induction false} LinesTextSnoc(lines: seq<string>, last: string)
    ensures LinesText(lines + [last]) == LinesText(lines) + (last + CRLF)
  {
    if lines == [] {
      assert LinesText([last]) == last + CRLF + LinesText([]);
    } else {
      assert (lines + [last])[1..] == lines[1..] + [last];
      LinesTextSnoc(lines[1..], last);
    }
  }

  // ----- reading it back

  predicate PrintableKey(key: string) {
    && key != [] && IsAlnum(key[0]) && !IsSpace(key[|key| - 1])
    && ':' !in key && HasNoCrlf(key) && !IsCookieName(key)
  }

  predicate PrintableValue(value: string) {
    HasNoCrlf(value) && (value == [] || !IsSpace(value[0]))
  }

  predicate Printable(h: Header) {
    && IsWord(h.verb) && IsWord(h.url) && IsWord(h.protocol) && IsWord(h.version)
    && '/' !in h.protocol && h.cookies == map[]
    && (forall key | key in h.fields :: PrintableKey(key) && PrintableValue(h.fields[key]))
  }

  lemma PrintedFieldIsLine(key: string, value: string)
    requires PrintableKey(key) && PrintableValue(value)
    ensures IsFieldLine(FieldLine(key, value))
  {
    var line := FieldLine(key, value);
    forall k | 0 <= k < |line|
      ensures !CrlfAt(line, k)
    {
      if k < |key| {
        assert !CrlfAt(key, k);
      } else if k > |key| + 1 {
        assert !CrlfAt(value, k - |key| - 2);
      }
    }
  }

  lemma PrintedFieldIsStored(h: Header, key: string, value: string)
    requires PrintableKey(key) && PrintableValue(value)
    ensures AddField(h, FieldLine(key, value)) == Field(h.(fields := h.fields[key := value]))
  {
    hide AddField, IsCookieName;
    FieldLineParts(key, value);
    FieldIsStored(h, FieldLine(key, value), key, "", " ", value);
  }

  lemma FieldLineParts(key: string, value: string)
    ensures FieldLine(key, value) == key + "" + ":" + " " + value
  {}

  lemma {:induction false} PrintedFieldsAreStored(h: Header, fields: map<string, string>, order: seq<string>)
    requires forall key | key in order ::
               key in fields && PrintableKey(key) && PrintableValue(fields[key])
    ensures AddFields(h, FieldLines(fields, order))
         == Field(h.(fields := h.fields + (map key | key in order :: fields[key])))
    decreases |order|
  {
    hide AddField, PrintableKey, PrintableValue;
    var lines := FieldLines(fields, order);
    var printed := map key | key in order :: fields[key];
    if order == [] {
      assert h.fields + printed == h.fields;
    } else {
      var key, others := order[0], order[1..];
      assert key in order;
      PrintedFieldIsStored(h, key, fields[key]);
      assert lines[1..] == FieldLines(fields, others);
      var next := h.(fields := h.fields[key := fields[key]]);
      PrintedFieldsAreStored(next, fields, others);
      PrintedMapSplits(h.fields, fields, order);
    }
  }

  lemma PrintedMapSplits(m: map<string, string>, fields: map<string, string>, order: seq<string>)
    requires order != [] && forall key | key in order :: key in fields
    ensures m[order[0] := fields[order[0]]] + (map key | key in order[1..] :: fields[key])
         == m + (map key | key in order :: fields[key])
  {
    assert forall key :: key in order <==> key == order[0] || key in order[1..];
  }

  lemma PrintedHeadIsAcceptable(h: Header, order: seq<string>)
    requires Printable(h) && IsOrder(order, h.fields) && |order| <= HEADER_FIELD_MAX
    ensures Acceptable(PrintedHead(h, order))
    ensures AddFields(Words(PrintedHead(h, order)), FieldLines(h.fields, order)) == Field(h)
  {
    hide AddFields, PrintableKey, PrintableValue, IsFieldLine, IsStorable;
    var lines := FieldLines(h.fields, order);
    forall line | line in lines
      ensures IsFieldLine(line)
    {
      var i :| 0 <= i < |lines| && lines[i] == line;
      assert order[i] in order;
      PrintedFieldIsLine(order[i], h.fields[order[i]]);
    }
    var words := Words(PrintedHead(h, order));
    PrintedFieldsAreStored(words, h.fields, order);
    StorableExactly(words, lines);
    assert words.fields + (map key | key in order :: h.fields[key]) == h.fields;
  }

  /** Parsing undoes printing, in every iteration order and whatever follows the head. */
  lemma PrintParse(h: Header, order: seq<string>, rest: string)
    requires Printable(h) && IsOrder(order, h.fields) && |order| <= HEADER_FIELD_MAX
    ensures Run(INITIAL.Append(Text(PrintedHead(h, order)) + rest))
         == Result(Parser(h, rest, Body, |order|), Finished)
  {
    PrintedHeadIsAcceptable(h, order);
    GrammarIsParsed(PrintedHead(h, order), rest);
  }

  // ----- nothing else is read back

  lemma {:induction false} TrimRightKeepsFirst(s: string)
    requires s != [] && !IsSpace(s[0])
    ensures TrimRight(s) != []
    decreases |s|
  {
    if IsSpace(s[|s| - 1]) {
      TrimRightKeepsFirst(s[..|s| - 1]);
    }
  }

  lemma PartHasNoCrlf(line: string, i: nat, j: nat)
    requires HasNoCrlf(line) && i <= j <= |line|
    ensures HasNoCrlf(line[i..j])
  {
    forall k | 0 <= k < |line[i..j]|
      ensures !CrlfAt(line[i..j], k)
    {
      assert !CrlfAt(line, i + k);
    }
  }

  /** What a line of the fields is stored as can be printed. */
  lemma LinePartsArePrintable(line: string, colon: nat)
    requires IsFieldLine(line) && colon < |line| && Find(line, ':') == colon
    ensures var front := TrimRight(line[..colon]); Lower(front) != "cookie" ==> PrintableKey(front)
    ensures PrintableValue(TrimLeft(line[colon + 1..]))
  {
    hide Find, Lower, TrimLeft, TrimRight, HasNoCrlf, IsCookieName;
    assert colon > 0;
    CookieNamesAre(TrimRight(line[..colon]));
    TrimRightKeepsFirst(line[..colon]);
    var front, back := TrimRight(line[..colon]), TrimLeft(line[colon + 1..]);
    assert front == line[0..|front|];
    PartHasNoCrlf(line, 0, |front|);
    assert back == line[|line| - |back|..|line|];
    PartHasNoCrlf(line, |line| - |back|, |line|);
  }

  predicate FieldsArePrintable(h: Header) {
    forall key | key in h.fields :: PrintableKey(key) && PrintableValue(h.fields[key])
  }

  predicate SameWords(a: Header, b: Header) {
    a.verb == b.verb && a.url == b.url && a.protocol == b.protocol && a.version == b.version
  }

  lemma AddFieldKeeps(h: Header, line: string)
    requires IsFieldLine(line) && AddField(h, line).Field? && FieldsArePrintable(h)
    ensures var next := AddField(h, line).header; FieldsArePrintable(next) && SameWords(h, next)
  {
    hide Find, Lower, TrimLeft, TrimRight, ParseCookies, IsFieldLine, PrintableKey, PrintableValue;
    LinePartsArePrintable(line, Find(line, ':'));
  }

  lemma {:induction false} AddFieldsKeeps(h: Header, lines: seq<string>)
    requires (forall line | line in lines :: IsFieldLine(line)) && AddFields(h, lines).Field? && FieldsArePrintable(h)
    ensures var next := AddFields(h, lines).header; FieldsArePrintable(next) && SameWords(h, next)
    decreases |lines|
  {
    hide AddField, IsFieldLine, FieldsArePrintable;
    if lines != [] {
      assert lines[0] in lines;
      AddFieldKeeps(h, lines[0]);
      AddFieldsKeeps(AddField(h, lines[0]).header, lines[1..]);
    }
  }

  lemma {:induction false} OrderCounts(order: seq<string>, keys: set<string>)
    requires forall key :: key in order <==> key in keys
    requires forall i, j :: 0 <= i < j < |order| ==> order[i] != order[j]
    ensures |order| == |keys|
    decreases |order|
  {
    if order == [] {
      assert keys == {};
    } else {
      var n := |order| - 1;
      assert order == order[..n] + [order[n]];
      assert order[n] in order;
      OrderCounts(order[..n], keys - {order[n]});
    }
  }

  /** Everything that the parser finishes with can be printed, but for the cookies, and has no more
      than 256 fields. */
  lemma FinishedIsPrintable(t: string)
    requires Run(INITIAL.Append(t)).outcome.Finished?
    ensures var h := Run(INITIAL.Append(t)).parser.header;
            Printable(h.(cookies := map[])) && |h.fields| <= HEADER_FIELD_MAX
  {
    hide Run, Text, AddFields, IsFieldLine, IsWord, FieldsArePrintable;
    OnlyGrammarIsParsed(t);
    var head, rest :| Acceptable(head) && t == Text(head) + rest;
    GrammarIsParsed(head, rest);
    RunCountsFields(INITIAL.Append(t));
    assert FieldsArePrintable(Words(head)) by { NoFieldsArePrintable(head); }
    StorableExactly(Words(head), head.lines);
    AddFieldsKeeps(Words(head), head.lines);
    PrintableFields(Run(INITIAL.Append(t)).parser.header);
  }

  lemma NoFieldsArePrintable(head: Head)
    ensures FieldsArePrintable(Words(head))
  {}

  lemma PrintableFields(h: Header)
    requires FieldsArePrintable(h)
    ensures forall key | key in h.fields :: PrintableKey(key) && PrintableValue(h.fields[key])
  {
    hide PrintableKey, PrintableValue;
  }

  /** For every header and every iteration order, parsing what is printed gives the header back
      exactly when it is `Printable` and has at most 256 fields. */
  lemma PrintParseExactly(h: Header, order: seq<string>, rest: string)
    requires IsOrder(order, h.fields)
    ensures var r := Run(INITIAL.Append(Text(PrintedHead(h, order)) + rest));
            r.outcome.Finished? && r.parser.header == h <==> Printable(h) && |order| <= HEADER_FIELD_MAX
  {
    hide Run, Text, Printable;
    OrderCounts(order, h.fields.Keys);
    var t := Text(PrintedHead(h, order)) + rest;
    var r := Run(INITIAL.Append(t));
    if Printable(h) && |order| <= HEADER_FIELD_MAX {
      PrintParse(h, order, rest);
    }
    if r.outcome.Finished? && r.parser.header == h {
      FinishedIsPrintable(t);
      var plain := h.(cookies := map[]);
      assert PrintedHead(plain, order) == PrintedHead(h, order);
      PrintParse(plain, order, rest);
    }
  }

  /** The same through feed: a printed header of at most 4096 bytes, cut into reads in any way,
      is read back. */
  lemma PrintFeed(h: Header, order: seq<string>, chunks: seq<string>)
    requires Printable(h) && IsOrder(order, h.fields) && |order| <= HEADER_FIELD_MAX
    requires Concat(chunks) == Text(PrintedHead(h, order)) && |Concat(chunks)| <= HEADER_BUFFER_MAX
    ensures var reading := FeedAll(INITIAL, chunks, true);
            reading.outcome.Finished? && reading.Rest() == Parser(h, "", Body, |order|)
  {
    hide Run, Text;
    var text := Concat(chunks);
    PrintParse(h, order, "");
    assert text + "" == text;
    assert Feed(INITIAL, text) == Run(INITIAL.Append(text));
    TextIsNotEmpty(PrintedHead(h, order));
    SmallStreamChunking(chunks);
  }

  lemma TextIsNotEmpty(head: Head)
    ensures Text(head) != []
  {}

  // ----- the one thing that does depend on how the stream is cut

  /** The size error belongs to a single feed: it is raised exactly when what is not consumed yet
      and what arrives together exceed the limit. */
  lemma LimitErrorExactly(p: Parser, chunk: string)
    ensures Feed(p, chunk).outcome == Failed(HeaderBufferExceeded)
       <==> !p.Finished() && |p.buffer| + |chunk| > HEADER_BUFFER_MAX
  {
    RunNeverExceeds(p.Append(chunk));
  }

  function LongLine(key: string): string {
    FieldLine(key, seq(3000, i => 'x'))
  }

  lemma LongLineIsStored(h: Header, key: string)
    requires PrintableKey(key)
    ensures IsFieldLine(LongLine(key)) && AddFields(h, [LongLine(key)]).Field?
    ensures |LongLine(key)| >= 3000 && |LongLine(key)| == |key| + 3002
  {
    hide AddField, PrintableKey;
    var value := seq(3000, i => 'x');
    assert PrintableValue(value);
    PrintedFieldIsLine(key, value);
    PrintedFieldIsStored(h, key, value);
    assert [LongLine(key)][1..] == [];
  }

  /** One long line, alone or with the end of the head behind it. */
  lemma LongLineIsRead(p: Parser, key: string, end: string)
    requires p.progress.Fields? && p.fieldCount < HEADER_FIELD_MAX && PrintableKey(key)
    requires p.buffer == LongLine(key) + CRLF + end && (end == "" || end == CRLF)
    ensures if end == CRLF then Run(p).outcome.Finished?
            else exists q :: Run(p) == Result(q, NeedMore) && q.buffer == "" && q.progress.Fields?
                               && q.fieldCount == p.fieldCount + 1
  {
    hide AddFields, PrintableKey, LongLine;
    var line := LongLine(key);
    LongLineIsStored(p.header, key);
    LinesTextSnoc([], line);
    assert p.buffer == LinesText([line]) + end by {
      assert LinesText([line]) == line + CRLF by { assert [] + [line] == [line]; }
    }
    RunLines(p, [line], end);
    var q := Parser(AddFields(p.header, [line]).header, end, Fields, p.fieldCount + 1);
    if end == CRLF {
      assert end == CRLF + "";
      RunBlankLine(q, "");
    } else {
      assert Step(q) == Stuck(q);
    }
  }

  lemma FirstReadWaits() returns (a: string, q: Parser)
    ensures 3000 <= |a| <= HEADER_BUFFER_MAX && Feed(INITIAL, a) == Result(q, NeedMore)
    ensures q.buffer == "" && q.progress.Fields? && q.fieldCount == 1
  {
    hide Run, LongLine, RequestLineText, AddFields, IsFieldLine, PrintableKey;
    OneLetterIsPrintable('a');
    var head := Head("G", "/", "H", "1", []);
    var line := LongLine("a") + CRLF + "";
    LongLineIsStored(EMPTY_HEADER, "a");
    RequestLineLength(head, line);
    RunRequestLine(head, line);
    LongLineIsRead(Parser(Words(head), line, Fields, 0), "a", "");
    a := RequestLineText(head, line);
    assert INITIAL.Append(a) == INITIAL.(buffer := a);
    q := Feed(INITIAL, a).parser;
  }

  lemma SecondReadFinishes(q: Parser) returns (b: string)
    requires q.buffer == "" && q.progress.Fields? && q.fieldCount == 1
    ensures 3000 <= |b| && Feed(q, b).outcome.Finished?
  {
    hide Run, LongLine, AddFields, IsFieldLine, PrintableKey;
    OneLetterIsPrintable('b');
    b := LongLine("b") + CRLF + CRLF;
    LongLineIsStored(EMPTY_HEADER, "b");
    assert q.Append(b).buffer == b;
    LongLineIsRead(q.Append(b), "b", CRLF);
  }

  lemma OneLetterIsPrintable(c: char)
    requires 'a' <= c <= 'z'
    ensures PrintableKey([c])
  {}

  lemma TwoReads(p: Parser, a: string, b: string)
    requires !p.Finished() && Feed(p, a).outcome.NeedMore? && Feed(Feed(p, a).parser, b).outcome.Finished?
    requires !Feed(p, a).parser.Finished()
    ensures FeedAll(p, [a, b], true).outcome.Finished?
  {
    hide Feed;
    assert [a, b][1..] == [b];
  }

  /** A head of more than 4096 bytes can be refused as one read and accepted as two. */
  lemma LimitDependsOnChunking()
    ensures exists a, b ::
              && FeedAll(INITIAL, [a, b], true).outcome.Finished?
              && FeedAll(INITIAL, [a + b], true).outcome == Failed(HeaderBufferExceeded)
  {
    hide Feed, Run;
    var a, q := FirstReadWaits();
    var b := SecondReadFinishes(q);
    TwoReads(INITIAL, a, b);
    LimitErrorExactly(INITIAL, a + b);
  }

  lemma RequestLineLength(head: Head, after: string)
    ensures |RequestLineText(head, after)|
         == |head.verb| + |head.url| + |head.protocol| + |head.version| + 5 + |after|
  {}
}
