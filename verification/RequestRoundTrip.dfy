/** A whole request, printed by one side and read by the other. */
module RequestRoundTrip {
  import opened Config
  import opened Strings
  import opened RequestSyntax
  import opened RequestChunking
  import opened HeadGrammar
  import opened HeaderPrinting
  import opened RequestReading
  import opened BodyDelivery
  import UrlSyntax

  /** A number in decimal, as it is written into Content-Length. */
  function Decimal(n: nat): (s: string)
    ensures s != [] && forall c | c in s :: IsDigit(c)
  {
    if n < 10 then [('0' as int + n) as char] else Decimal(n / 10) + [('0' as int + n % 10) as char]
  }

  lemma {:induction false} DigitsAfterDigits(s: string, last: char, value: int)
    requires (forall c | c in s :: IsDigit(c)) && IsDigit(last)
    ensures LeadingDigits(s + [last], value) == 10 * LeadingDigits(s, value) + (last as int - '0' as int)
    decreases |s|
  {
    if s == [] {
      assert [] + [last] == [last];
      assert [last][1..] == [];
    } else {
      assert s[0] in s;
      assert (s + [last])[1..] == s[1..] + [last];
      DigitsAfterDigits(s[1..], last, 10 * value + (s[0] as int - '0' as int));
    }
  }

  lemma {:induction false} DecimalIsRead(n: nat)
    ensures LeadingDigits(Decimal(n), 0) == n
  {
    if n < 10 {
      assert Decimal(n)[1..] == [];
    } else {
      DecimalIsRead(n / 10);
      DigitsAfterDigits(Decimal(n / 10), ('0' as int + n % 10) as char, 0);
    }
  }

  /** The length of a body is read back from its decimal form exactly when it is a long long; a
      larger one is read as the largest. */
  lemma ContentLengthIsRead(h: Header, n: nat)
    requires "Content-Length" in h.fields && h.fields["Content-Length"] == Decimal(n)
    ensures ContentLength(h) == Some(n) <==> n < TWO_TO_63
    ensures n >= TWO_TO_63 ==> ContentLength(h) == Some(TWO_TO_63 - 1)
  {
    hide Decimal, LeadingDigits, TrimLeft;
    var s := Decimal(n);
    assert s[0] in s;
    NothingToTrim(s);
    DecimalIsRead(n);
    assert Atoll(s) == Clamp(n);
  }

  lemma NothingToTrim(s: string)
    requires s != [] && !IsSpace(s[0])
    ensures TrimLeft(s) == s
  {}

  /** A printed header whose Content-Length is the length of the body, followed by the body, cut into
      reads in any way that does not trip over the size limit: the reader ends up with the header and
      the body, fulfils once, sends no error reply, and asks for nothing more. */
  lemma PrintedRequestArrives(h: Header, order: seq<string>, body: string, chunks: seq<string>, target: string)
    requires Printable(h) && IsOrder(order, h.fields) && |order| <= HEADER_FIELD_MAX
    requires UrlSyntax.Parse(h.url).Some?
    requires "Content-Length" in h.fields && h.fields["Content-Length"] == Decimal(|body|) && |body| < TWO_TO_63
    requires chunks != [] && NoneEmpty(chunks) && Concat(chunks) == Text(PrintedHead(h, order)) + body
    requires !LimitStrikes(chunks)
    ensures var s := Process(Start(target), Reads(chunks), 0);
            && s.reader.parser.header == h && s.reader.sink == target + body
            && s.reader.fulfilled == 1 && s.reader.failed == 0 && s.reader.replies == []
            && s.reader.pending == 0 && s.unread == []
  {
    hide Run, Text, FeedAll, ContentLength, Printable, Process, UrlSyntax.Parse, LimitStrikes;
    var head := Text(PrintedHead(h, order));
    PrintParse(h, order, "");
    assert head + "" == head;
    ContentLengthIsRead(h, |body|);
    EndToEnd(head, Parser(h, "", Body, |order|), body, chunks, target);
  }

  // ----- a limit that is overshot as far as it can be

  function SingleBytes(n: nat): seq<string> {
    seq(n, i => "x")
  }

  lemma {:induction false} SingleBytesAdd(n: nat, k: nat)
    requires k <= n
    ensures |Concat(SingleBytes(n)[..k])| == k
    decreases k
  {
    if k > 0 {
      assert SingleBytes(n)[..k] == SingleBytes(n)[..k - 1] + ["x"];
      ConcatAppend(SingleBytes(n)[..k - 1], ["x"]);
      ConcatOne("x");
      SingleBytesAdd(n, k - 1);
    }
  }

  /** max - 1 reads of one byte, then a read that fills the receive buffer. */
  function SlowThenFull(max: nat): (chunks: seq<string>)
    requires max > 0
    ensures |chunks| == max
  {
    SingleBytes(max - 1) + [seq(BUFFER_SIZE, i => 'x')]
  }

  lemma SlowThenFullAdds(max: nat, k: nat)
    requires k <= max && max > 0
    ensures Upto(0, SlowThenFull(max), k) == if k < max then k else max - 1 + BUFFER_SIZE
    ensures forall chunk | chunk in SlowThenFull(max) :: 0 < |chunk| <= BUFFER_SIZE
  {
    var chunks, full := SlowThenFull(max), seq(BUFFER_SIZE, i => 'x');
    if k < max {
      assert chunks[..k] == SingleBytes(max - 1)[..k];
      SingleBytesAdd(max - 1, k);
    } else {
      assert chunks[..k] == SingleBytes(max - 1) + [full];
      ConcatAppend(SingleBytes(max - 1), [full]);
      ConcatOne(full);
      SingleBytesAdd(max - 1, max - 1);
      assert SingleBytes(max - 1)[..max - 1] == SingleBytes(max - 1);
    }
  }

  /** A printed head in one read completes the head phase. */
  lemma HeadInOneRead(h: Header, order: seq<string>, rest: seq<string>, max: nat, target: string)
    requires Printable(h) && IsOrder(order, h.fields) && |order| <= HEADER_FIELD_MAX && max < TWO_TO_64
    requires |Text(PrintedHead(h, order))| <= HEADER_BUFFER_MAX && UrlSyntax.Parse(h.url).Some?
    ensures var begun := Start(target).(parser := Parser(h, "", Body, |order|), pending := 0);
            && Valid(StartBody(begun, max))
            && Process(Start(target), Reads([Text(PrintedHead(h, order))] + rest), max)
            == Process(StartBody(begun, max), Reads(rest), max)
  {
    hide Run, Text, StartBody, Process, UrlSyntax.Parse, Deliver;
    var text := Text(PrintedHead(h, order));
    var chunks := [text] + rest;
    PrintParse(h, order, "");
    assert text + "" == text && chunks[1..] == rest;
    assert Feed(INITIAL, text) == Run(INITIAL.Append(text));
    HeadPhaseFeeds(Start(target), chunks, max);
  }

  /** The bound on what a limited body read can take is reached, for every limit and every request
      that announces at least as much: it is the best possible. */
  lemma LimitBoundIsReached(h: Header, order: seq<string>, n: nat, max: nat, target: string)
    requires Printable(h) && IsOrder(order, h.fields) && |order| <= HEADER_FIELD_MAX
    requires |Text(PrintedHead(h, order))| <= HEADER_BUFFER_MAX && UrlSyntax.Parse(h.url).Some?
    requires "Content-Length" in h.fields && h.fields["Content-Length"] == Decimal(n) && 0 < max <= n < TWO_TO_63
    ensures var chunks := [Text(PrintedHead(h, order))] + SlowThenFull(max);
            && (forall d | d in Reads(chunks) :: FitsBuffer(d))
            && Process(Start(target), Reads(chunks), max).reader.written == max + 4095
  {
    hide Run, Text, StartBody, Process, UrlSyntax.Parse, ContentLength, SlowThenFull;
    var chunks := SlowThenFull(max);
    SlowThenFullAdds(max, max);
    HeadInOneRead(h, order, chunks, max, target);
    ContentLengthIsRead(h, n);
    var m := BodyRun(Start(target).(parser := Parser(h, "", Body, |order|), pending := 0), chunks, max);
    SlowThenFullAdds(max, max - 1);
    assert Taken(n, max, 0, chunks, max - 1);
  }

  // ----- a peer that sends more than it announced

  /** A head of which a single read also brings more than the announced body: the surplus goes into
      the sink, the promise is not fulfilled, and the reader waits for another read. */
  lemma SurplusWithHeadWaits(h: Header, order: seq<string>, body: string, extra: string, target: string)
    requires Printable(h) && IsOrder(order, h.fields) && |order| <= HEADER_FIELD_MAX
    requires UrlSyntax.Parse(h.url).Some?
    requires "Content-Length" in h.fields && h.fields["Content-Length"] == Decimal(|body|) && extra != []
    requires |Text(PrintedHead(h, order)) + (body + extra)| <= HEADER_BUFFER_MAX
    ensures var s := Process(Start(target), Reads([Text(PrintedHead(h, order)) + (body + extra)]), 0);
            && s.reader.sink == target + (body + extra)
            && s.reader.fulfilled == 0 && s.reader.pending == 1 && s.unread == []
  {
    hide Run, Text, FeedAll, ContentLength, Printable, Process, UrlSyntax.Parse;
    var head := Text(PrintedHead(h, order));
    var chunks := [head + (body + extra)];
    PrintParse(h, order, "");
    assert head + "" == head && chunks[..0] == [] && chunks[..1] == chunks;
    TextIsNotEmpty(PrintedHead(h, order));
    ContentLengthIsRead(h, |body|);
    ConcatOne(chunks[0]);
    SmallStreamsFit(INITIAL, chunks);
    LimitStrikesExactly(chunks);
    OverSentBody(head, Parser(h, "", Body, |order|), body, extra, chunks, target, 1);
    assert (head + (body + extra))[|head|..] == body + extra;
  }

  const TINY := Header("G", "/", "H", "1", map["Content-Length" := "1"], map[])
  const TINY_TEXT := "G / H/1\r\nContent-Length: 1\r\n\r\n"

  lemma TinyIsPrintable()
    ensures Printable(TINY) && IsOrder(["Content-Length"], TINY.fields) && Decimal(1) == "1"
    ensures UrlSyntax.Parse("/").Some?
  {
    hide UrlSyntax.Parse;
    var key := "Content-Length";
    assert '\r' !in key && ':' !in key;
    assert HasNoCrlf(key) && HasNoCrlf("1");
    assert key[0] == 'C' && key[|key| - 1] == 'h' && |Lower(key)| == 14;
    UrlSyntax.SelfEncoded('/');
    UrlSyntax.PathRoundTrip("/", "/");
  }

  lemma TinyLines()
    ensures LinesText(FieldLines(TINY.fields, ["Content-Length"])) == "Content-Length: 1\r\n"
  {
    var line := "Content-Length" + ": " + "1";
    assert FieldLines(TINY.fields, ["Content-Length"]) == [line];
    LinesTextSnoc([], line);
    assert [] + [line] == [line] && LinesText([]) == "";
  }

  lemma TinyText()
    ensures Text(PrintedHead(TINY, ["Content-Length"])) == TINY_TEXT
  {
    hide LinesText, FieldLines;
    TinyLines();
    assert "G" + " " + "/" + " " + "H" + "/" + "1" + CRLF == "G / H/1\r\n";
    assert "G / H/1\r\n" + "Content-Length: 1\r\n" == "G / H/1\r\nContent-Length: 1\r\n";
    assert "G / H/1\r\nContent-Length: 1\r\n" + CRLF == TINY_TEXT;
  }

  /** One byte was announced and two are sent. What the sink gets and whether the promise is fulfilled
      depends on how the network cuts the same stream. */
  lemma SurplusDependsOnCuts()
    ensures var s := Process(Start(""), Reads([TINY_TEXT + "ab"]), 0);
            s.reader.sink == "ab" && s.reader.fulfilled == 0 && s.reader.pending == 1
    ensures var s := Process(Start(""), Reads([TINY_TEXT, "ab"]), 0);
            s.reader.sink == "ab" && s.reader.fulfilled == 1 && s.unread == []
    ensures var s := Process(Start(""), Reads([TINY_TEXT + "a", "b"]), 0);
            s.reader.sink == "a" && s.reader.fulfilled == 1 && s.unread == [Data("b")]
  {
    hide Run, Text, FeedAll, ContentLength, Printable, Process, UrlSyntax.Parse, Decimal;
    var order := ["Content-Length"];
    TinyIsPrintable();
    TinyText();
    assert "a" + "b" == "ab" && "" + "ab" == "ab";
    SurplusWithHeadWaits(TINY, order, "a", "b", "");
    TwoReadsJoin(TINY_TEXT, "ab");
    TwoReadsJoin(TINY_TEXT + "a", "b");
    TinyRun([TINY_TEXT, "ab"], 2);
    TinyRun([TINY_TEXT + "a", "b"], 1);
  }

  lemma TwoReadsJoin(a: string, b: string)
    ensures Concat([a, b]) == a + b && Concat([a, b][..1]) == a && Concat([a, b][..2]) == a + b
    ensures Concat([a, b][..0]) == []
  {
    assert [a, b][1..] == [b] && [a, b][..1] == [a] && [a, b][..2] == [a, b];
    ConcatOne(a);
    ConcatOne(b);
  }

  lemma TinyRun(chunks: seq<string>, k: nat)
    requires Concat(chunks) == TINY_TEXT + "ab" && 0 < k <= |chunks|
    requires |Concat(chunks[..k - 1])| <= |TINY_TEXT| < |Concat(chunks[..k])|
    requires |Concat(chunks[..k - 1])| == |TINY_TEXT| || |Concat(chunks[..k])| == |TINY_TEXT| + 1
    ensures var s := Process(Start(""), Reads(chunks), 0);
            s.reader.sink == Concat(chunks[..k])[|TINY_TEXT|..] && s.reader.fulfilled == 1 && s.unread == Reads(chunks[k..])
  {
    hide Run, Text, FeedAll, ContentLength, Printable, Process, UrlSyntax.Parse, Decimal;
    TinyIsPrintable();
    TinyText();
    PrintParse(TINY, ["Content-Length"], "");
    assert TINY_TEXT + "" == TINY_TEXT && "a" + "b" == "ab";
    ContentLengthIsRead(TINY, 1);
    SmallStreamsFit(INITIAL, chunks);
    LimitStrikesExactly(chunks);
    OverSentBody(TINY_TEXT, Parser(TINY, "", Body, 1), "a", "b", chunks, "", k);
  }
}
