/** When the sniffer says it has seen enough, can more content still change its verdict? */
module MimeStability {
  import opened Basics
  import opened MimeTables
  import opened MimeMatching
  import opened MimeSpec
  import opened MimeOrder
  import opened MimeXmlScan

  /** No continuation of the content changes the verdict. */
  ghost predicate Final(hint: string, p: seq<byte>) {
    forall q: seq<byte> | p <= q :: Sniff(hint, q) == Sniff(hint, p)
  }

  // Text that is neither marked nor known by its first bytes may still be followed by a binary byte.
  predicate MayTurnBinary(hint: string, p: seq<byte>) {
    && hint == TEXT_PLAIN
    && BYTES_REQUIRED_FOR_MAGIC <= |p| < MAX_BYTES_TO_SNIFF
    && !HasByteOrderMark(p)
    && !HasBinaryByte(p)
    && MagicType(p) != Some(TEXT_PLAIN)
  }

  // "%!" is reported as text although it may still grow into PostScript.
  predicate MayTurnPostScript(hint: string, p: seq<byte>) {
    && hint != TEXT_PLAIN
    && !IsXmlHint(hint)
    && 2 <= |p|
    && Partial(MAGIC_NUMBERS[POSTSCRIPT], p)
  }

  // The tag that ended the XML scan may still be completed.
  predicate MayTurnTag(hint: string, p: seq<byte>) {
    && IsXmlHint(hint)
    && |p| < MAX_BYTES_TO_SNIFF
    && var s := XmlScan(p);
    && s.Rejected?
    && (MayBecomeDeclaration(p, s.pos, s.round) || MayBecomeFeed(p, s.pos))
  }

  // What growing content keeps

  /** Binary evidence is monotone: a BOM cannot be completed once a binary byte has been seen. */
  lemma BinaryIsMonotone(p: seq<byte>, q: seq<byte>)
    requires p <= q && LooksBinary(p)
    ensures LooksBinary(q)
  {
    var i :| 0 <= i < |p| && ByteLooksBinary(p[i]);
    assert ByteLooksBinary(q[i]);
    forall k | 0 <= k < |BYTE_ORDER_MARKS| ensures !Matches(BYTE_ORDER_MARKS[k], q) {
      MatchGrows(BYTE_ORDER_MARKS[k], p, q);
      ByteOrderMarkShape(k);
      assert i < |BYTE_ORDER_MARKS[k].magic| ==> !Agrees(BYTE_ORDER_MARKS[k], i, p[i]);
    }
  }

  lemma ByteOrderMarkGrows(p: seq<byte>, q: seq<byte>)
    requires p <= q && HasByteOrderMark(p)
    ensures HasByteOrderMark(q)
  {
    MatchGrows(BYTE_ORDER_MARKS[FirstMatch(p, BYTE_ORDER_MARKS)], p, q);
  }

  lemma SkipWhitespaceStable(p: seq<byte>, q: seq<byte>, pos: nat)
    requires p <= q && pos <= |p| && SkipWhitespace(p, pos) < |p|
    ensures SkipWhitespace(q, pos) == SkipWhitespace(p, pos)
  {
    var i := SkipWhitespace(p, pos);
    assert !IsAsciiWhitespace(q[i]) && forall j | pos <= j < i :: IsAsciiWhitespace(q[j]);
  }

  lemma HtmlIsFinal(p: seq<byte>, q: seq<byte>)
    requires p <= q && HtmlType(p).Some?
    ensures HtmlType(q) == HtmlType(p)
  {
    var pos := SkipWhitespace(p);
    var a, b := p[pos..], q[pos..];
    var k := FirstMatch(a, SNIFFABLE_TAGS);
    SniffableTagShape(k);
    SkipWhitespaceStable(p, q, 0);
    assert a <= b;
    MatchGrows(SNIFFABLE_TAGS[k], a, b);
    TagsAgree(b, k, FirstMatch(b, SNIFFABLE_TAGS));
  }

  /** A matched magic number is final, except for "%!" followed by part of "PS-Adobe-". */
  lemma MagicIsFinal(p: seq<byte>, q: seq<byte>)
    requires p <= q && MagicType(p).Some?
    requires !Partial(MAGIC_NUMBERS[POSTSCRIPT], p)
    ensures MagicType(q) == MagicType(p)
  {
    var k, l := FirstMatch(p, MAGIC_NUMBERS), FirstMatch(q, MAGIC_NUMBERS);
    MatchGrows(MAGIC_NUMBERS[k], p, q);
    if l != k {
      TwoMagicNumbersMatch(q, k, l);
      MatchGrows(MAGIC_NUMBERS[POSTSCRIPT], p, q);
    }
  }

  lemma PostScriptPrefix(p: seq<byte>)
    requires 2 <= |p| && Partial(MAGIC_NUMBERS[POSTSCRIPT], p)
    ensures MagicType(p) == Some(TEXT_PLAIN) && !HasBinaryByte(p) && |p| <= 10 && p <= POSTSCRIPT_TEXT
  {
    PostScriptEntries();
    var e := MAGIC_NUMBERS[POSTSCRIPT];
    assert forall i | 0 <= i < |p| :: Agrees(e, i, p[i]) && p[i] >= 0x20;
    assert Agrees(e, 0, p[0]) && Agrees(e, 1, p[1]);
    assert Matches(MAGIC_NUMBERS[PERCENT_SCRIPT], p);
    TwoMagicNumbersMatch(p, FirstMatch(p, MAGIC_NUMBERS), PERCENT_SCRIPT);
    PostScriptText();
    assert forall i | 0 <= i < |p| :: Agrees(e, i, p[i]) && Agrees(e, i, POSTSCRIPT_TEXT[i]);
  }

  lemma ShortMagic(p: seq<byte>)
    requires MagicType(p).Some?
    ensures 2 <= |p|
  {
    MagicNumberShape(FirstMatch(p, MAGIC_NUMBERS));
  }

  // Finality, hint by hint, for content p whose continuations are cut to the window w

  lemma UnknownFinal(hint: string, p: seq<byte>, w: seq<byte>)
    requires IsUnknownMimeType(hint) && p <= w && |p| < MAX_BYTES_TO_SNIFF
    requires SniffWindow(hint, p).enough && !MayTurnPostScript(hint, p)
    ensures SniffWindow(hint, w) == SniffWindow(hint, p)
  {
    hide HtmlType, MagicType, LooksBinary, SniffXml, Partial;
    KnownHints();
    if HtmlType(p).Some? {
      HtmlIsFinal(p, w);
    } else {
      ShortMagic(p);
      MagicExcludesHtml(p, w);
      MagicIsFinal(p, w);
    }
  }

  lemma PlainTextFinal(p: seq<byte>, w: seq<byte>)
    requires p <= w && |p| < MAX_BYTES_TO_SNIFF
    requires SniffWindow(TEXT_PLAIN, p).enough && !MayTurnBinary(TEXT_PLAIN, p)
    ensures SniffWindow(TEXT_PLAIN, w) == SniffWindow(TEXT_PLAIN, p)
  {
    hide HtmlType, MagicType, SniffXml, Partial, HasByteOrderMark, HasBinaryByte;
    KnownHints();
    if LooksBinary(p) {
      BinaryIsMonotone(p, w);
      ShortMagic(p);
      if Partial(MAGIC_NUMBERS[POSTSCRIPT], p) {
        PostScriptPrefix(p);
      }
      MagicIsFinal(p, w);
    } else if HasByteOrderMark(p) {
      ByteOrderMarkGrows(p, w);
    } else {
      MagicSettled(p, w);
    }
  }

  lemma MagicSettled(p: seq<byte>, q: seq<byte>)
    requires p <= q && BYTES_REQUIRED_FOR_MAGIC <= |p|
    ensures MagicType(q) == MagicType(p) && HasByteOrderMark(q) == HasByteOrderMark(p)
  {
    EnoughForMagic(MAGIC_NUMBERS, p, q);
    EnoughForMagic(BYTE_ORDER_MARKS, p, q);
  }

  lemma XmlFinal(hint: string, p: seq<byte>, w: seq<byte>)
    requires IsXmlHint(hint) && p <= w && |p| < MAX_BYTES_TO_SNIFF
    requires SniffWindow(hint, p).enough && !MayTurnTag(hint, p)
    ensures SniffWindow(hint, w) == SniffWindow(hint, p)
  {
    hide XmlScan, HtmlType, LooksBinary, MagicType;
    KnownHints();
    match XmlScan(p)
    case Exhausted(_) => ExhaustedStable(p, w, 0, 0);
    case Feed(_, _, _) => FeedIsFinal(p, w);
    case Rejected(_, _) => RejectedStable(hint, p, w);
  }

  lemma OtherFinal(hint: string, p: seq<byte>, w: seq<byte>)
    requires !IsUnknownMimeType(hint) && hint != TEXT_PLAIN && !IsXmlHint(hint) && p <= w && |p| < MAX_BYTES_TO_SNIFF
    requires SniffWindow(hint, p).enough && !MayTurnPostScript(hint, p)
    ensures SniffWindow(hint, w) == SniffWindow(hint, p)
  {
    hide HtmlType, MagicType, LooksBinary, SniffXml, Partial;
    if MagicType(p).Some? {
      ShortMagic(p);
      MagicIsFinal(p, w);
    } else {
      MagicSettled(p, w);
    }
  }

  // A continuation that changes the verdict, hint by hint

  /** p followed by the rest of a pattern that it partially matches from `pos` on. */
  function Complete(e: MagicNumber, p: seq<byte>, pos: nat): (q: seq<byte>)
    requires pos <= |p| <= pos + |e.magic| && forall i | 0 < i < |e.magic| :: e.magic[i] as int < 256
    requires pos < |p|
    ensures p <= q && |q| == pos + |e.magic|
  {
    p + seq(pos + |e.magic| - |p|, i requires 0 <= i < pos + |e.magic| - |p| => e.magic[|p| - pos + i] as int)
  }

  lemma CompleteMatches(e: MagicNumber, p: seq<byte>, pos: nat)
    requires pos < |p| && Partial(e, p[pos..]) && forall i | 0 < i < |e.magic| :: e.magic[i] as int < 256
    ensures Matches(e, Complete(e, p, pos)[pos..])
  {
    var q := Complete(e, p, pos);
    forall i | 0 <= i < |e.magic| ensures Agrees(e, i, q[pos..][i]) {
      if pos + i < |p| {
        assert q[pos..][i] == p[pos..][i];
      }
    }
  }

  lemma BinaryChanges(p: seq<byte>)
    requires MayTurnBinary(TEXT_PLAIN, p)
    ensures !Final(TEXT_PLAIN, p)
  {
    hide MagicType, HtmlType, SniffXml;
    KnownHints();
    var q := p + [0x00];
    assert ByteLooksBinary(q[|p|]);
    MagicSettled(p, q);
    assert p <= q && Sniff(TEXT_PLAIN, p) == Verdict(true, TEXT_PLAIN);
    assert Sniff(TEXT_PLAIN, q) != Verdict(true, TEXT_PLAIN);
  }

  lemma PostScriptTextType()
    ensures MagicType(POSTSCRIPT_TEXT) == Some("application/postscript")
  {
    PostScriptText();
    PostScriptEntries();
    TwoMagicNumbersMatch(POSTSCRIPT_TEXT, FirstMatch(POSTSCRIPT_TEXT, MAGIC_NUMBERS), POSTSCRIPT);
  }

  lemma PostScriptChanges(hint: string, p: seq<byte>)
    requires MayTurnPostScript(hint, p)
    ensures !Final(hint, p)
  {
    hide HtmlType, LooksBinary, SniffXml, MagicType, Partial, HasBinaryByte;
    PostScriptPrefix(p);
    PostScriptTextType();
    var q := POSTSCRIPT_TEXT;
    MagicExcludesHtml(p, p);
    MagicExcludesHtml(q, q);
    assert Sniff(hint, p) == Verdict(true, TEXT_PLAIN);
    assert Sniff(hint, q) == Verdict(true, "application/postscript");
  }

  lemma FeedCompletes(hint: string, p: seq<byte>)
    requires XmlScan(p).Rejected? && MayBecomeFeed(p, XmlScan(p).pos)
    ensures exists q :: p <= q && |q| <= SCAN_REACH && XmlScan(q).Feed?
  {
    var t, round := XmlScan(p).pos, XmlScan(p).round;
    RejectedTag(p);
    var k :| 0 <= k < |MAGIC_XML| && Partial(MAGIC_XML[k], p[t..]) &&
             t + |MAGIC_XML[k].magic| <= FEED_ALLOWED_HEADER_BYTES;
    forall i | 0 < i < |MAGIC_XML[k].magic| ensures MAGIC_XML[k].magic[i] as int < 256 {
      MagicXmlText(k, i);
    }
    var q := Complete(MAGIC_XML[k], p, t);
    CompleteMatches(MAGIC_XML[k], p, t);
    assert Header(q) == q;
    ScanResumes(p, q, 0, 0);
    FeedTagIsNoDeclaration(q[t..], k);
    XmlScanTurn(q, t, round, t);
    assert Matches(MAGIC_XML[k], q[t..]);
  }

  lemma DeclarationText()
    ensures forall i | 0 < i < |XML_DECLARATION.magic| ::
              XML_DECLARATION.magic[i] != '<' && XML_DECLARATION.magic[i] as int < 256
    ensures forall i | 0 < i < |DOCTYPE_DECLARATION.magic| ::
              DOCTYPE_DECLARATION.magic[i] != '<' && DOCTYPE_DECLARATION.magic[i] as int < 256
    ensures XML_DECLARATION.isString && DOCTYPE_DECLARATION.isString
    ensures |XML_DECLARATION.magic| == 5 && |DOCTYPE_DECLARATION.magic| == 9
  {}

  /** Completing the declaration makes the scan run out of tags. */
  lemma DeclarationCompletes(p: seq<byte>)
    requires XmlScan(p).Rejected? && MayBecomeDeclaration(p, XmlScan(p).pos, XmlScan(p).round)
    ensures exists q :: p <= q && |q| <= SCAN_REACH && Undecided(XmlScan(q))
  {
    var t, round := XmlScan(p).pos, XmlScan(p).round;
    RejectedTag(p);
    DeclarationText();
    var e := if Partial(XML_DECLARATION, p[t..]) then XML_DECLARATION else DOCTYPE_DECLARATION;
    var q := Complete(e, p, t);
    CompleteMatches(e, p, t);
    ScanResumes(p, q, 0, 0);
    assert IsDeclaration(q[t..]);
    assert Find(Header(q), LESS_THAN, t) == t;
    XmlScanTurn(q, t, round, t);
    if t + 1 == |Header(q)| {
      XmlScanEnds(q, t + 1, round + 1);
    } else {
      NoFurtherTag(e, q, t);
      XmlScanTurn(q, t + 1, round + 1, Find(Header(q), LESS_THAN, t + 1));
    }
  }

  lemma NoFurtherTag(e: MagicNumber, q: seq<byte>, t: nat)
    requires e.isString && t < |Header(q)| && |q| == t + |e.magic| && Matches(e, q[t..])
    requires forall i | 0 < i < |e.magic| :: e.magic[i] != '<'
    ensures Find(Header(q), LESS_THAN, t + 1) == |Header(q)|
  {
    forall j | t < j < |q| ensures q[j] != LESS_THAN {
      assert Agrees(e, j - t, q[t..][j - t]);
    }
  }

  /** A type that refines an XML hint is never itself an XML hint. */
  lemma FeedType(content: seq<byte>)
    requires XmlScan(content).Feed?
    ensures exists k | 0 <= k < |MAGIC_XML| :: XmlScan(content).mimeType == MAGIC_XML[k].mimeType
    ensures !IsXmlHint(XmlScan(content).mimeType)
  {
    ScanResumes(content, content, 0, 0);
    var t, round := XmlScan(content).pos, XmlScan(content).round;
    XmlScanTurn(content, t, round, t);
    var k := FirstMatch(Header(content)[t..], MAGIC_XML);
    assert XmlScan(content).mimeType == MAGIC_XML[k].mimeType;
    MagicXmlType(k);
  }

  lemma FeedChanges(hint: string, p: seq<byte>)
    requires MayTurnTag(hint, p) && MayBecomeFeed(p, XmlScan(p).pos)
    ensures exists q :: p <= q && Sniff(hint, q).mimeType != hint
  {
    hide Sniff, XmlScan, MayBecomeFeed, MayBecomeDeclaration;
    FeedCompletes(hint, p);
    var q :| p <= q && |q| <= SCAN_REACH && XmlScan(q).Feed?;
    FeedType(q);
    XmlVerdict(hint, q);
  }

  lemma DeclarationChanges(hint: string, p: seq<byte>)
    requires MayTurnTag(hint, p) && MayBecomeDeclaration(p, XmlScan(p).pos, XmlScan(p).round)
    ensures exists q :: p <= q && !Sniff(hint, q).enough
  {
    hide Sniff, XmlScan, MayBecomeFeed, MayBecomeDeclaration;
    DeclarationCompletes(p);
    var q :| p <= q && |q| <= SCAN_REACH && Undecided(XmlScan(q));
    XmlVerdict(hint, q);
  }

  lemma TagChanges(hint: string, p: seq<byte>)
    requires MayTurnTag(hint, p)
    ensures !Final(hint, p)
  {
    hide Sniff, XmlScan, MayBecomeFeed, MayBecomeDeclaration;
    XmlVerdict(hint, p);
    if MayBecomeFeed(p, XmlScan(p).pos) {
      FeedChanges(hint, p);
      var q :| p <= q && Sniff(hint, q).mimeType != hint;
    } else {
      DeclarationChanges(hint, p);
      var q :| p <= q && !Sniff(hint, q).enough;
    }
  }

  // The contract of the flag

  lemma WindowFinal(hint: string, p: seq<byte>, w: seq<byte>)
    requires p <= w && |p| < MAX_BYTES_TO_SNIFF && SniffWindow(hint, p).enough
    requires !MayTurnBinary(hint, p) && !MayTurnPostScript(hint, p) && !MayTurnTag(hint, p)
    ensures SniffWindow(hint, w) == SniffWindow(hint, p)
  {
    hide SniffWindow, MayTurnBinary, MayTurnPostScript, MayTurnTag;
    if IsUnknownMimeType(hint) {
      UnknownFinal(hint, p, w);
    } else if hint == TEXT_PLAIN {
      PlainTextFinal(p, w);
    } else if IsXmlHint(hint) {
      XmlFinal(hint, p, w);
    } else {
      OtherFinal(hint, p, w);
    }
  }

  /**
    * "Enough" means that no further byte can change the verdict, outside exactly three regions:
    * within each of them some continuation does change it.
    */
  lemma EnoughIsFinal(hint: string, p: seq<byte>)
    requires Sniff(hint, p).enough
    ensures Final(hint, p) <==> !MayTurnBinary(hint, p) && !MayTurnPostScript(hint, p) && !MayTurnTag(hint, p)
  {
    hide SniffWindow, MayTurnBinary, MayTurnPostScript, MayTurnTag;
    if MayTurnBinary(hint, p) {
      OnlyTextPlain(hint, p);
      BinaryChanges(p);
    } else if MayTurnPostScript(hint, p) {
      PostScriptChanges(hint, p);
    } else if MayTurnTag(hint, p) {
      TagChanges(hint, p);
    } else {
      forall q: seq<byte> | p <= q ensures Sniff(hint, q) == Sniff(hint, p) {
        var w := Take(q, MAX_BYTES_TO_SNIFF);
        if |p| < MAX_BYTES_TO_SNIFF {
          assert p <= w;
          WindowFinal(hint, p, w);
        } else {
          assert w == Take(p, MAX_BYTES_TO_SNIFF);
        }
      }
    }
  }

  lemma OnlyTextPlain(hint: string, p: seq<byte>)
    ensures MayTurnBinary(hint, p) ==> hint == TEXT_PLAIN
  {}

  /** For text/plain, the continuations that change the verdict are those with a binary byte in the window. */
  lemma BinaryByteDecides(p: seq<byte>, q: seq<byte>)
    requires p <= q && Sniff(TEXT_PLAIN, p).enough
    ensures Sniff(TEXT_PLAIN, q) != Sniff(TEXT_PLAIN, p) <==>
            MayTurnBinary(TEXT_PLAIN, p) && HasBinaryByte(Take(q, MAX_BYTES_TO_SNIFF))
  {
    hide HtmlType, MagicType, SniffXml, HasBinaryByte, HasByteOrderMark, MayTurnPostScript, MayTurnTag;
    KnownHints();
    var w := Take(q, MAX_BYTES_TO_SNIFF);
    if MayTurnBinary(TEXT_PLAIN, p) {
      assert p <= w;
      MagicSettled(p, w);
    } else {
      EnoughIsFinal(TEXT_PLAIN, p);
      OnlyBinaryForText(p);
    }
  }

  /** For the "%!" region, they are those that complete PostScript. */
  lemma PostScriptDecides(hint: string, p: seq<byte>, q: seq<byte>)
    requires p <= q && MayTurnPostScript(hint, p)
    ensures Sniff(hint, q) != Sniff(hint, p) <==> Matches(MAGIC_NUMBERS[POSTSCRIPT], q)
  {
    hide HtmlType, LooksBinary, SniffXml, MagicType, HasBinaryByte;
    var w := Take(q, MAX_BYTES_TO_SNIFF);
    PostScriptPrefix(p);
    assert p <= w;
    MagicExcludesHtml(p, p);
    MagicExcludesHtml(p, w);
    PostScriptOrScript(p, w);
    MatchGrows(MAGIC_NUMBERS[POSTSCRIPT], w, q);
    MagicNumberShape(POSTSCRIPT);
    assert Matches(MAGIC_NUMBERS[POSTSCRIPT], q) ==> Matches(MAGIC_NUMBERS[POSTSCRIPT], w);
  }

  lemma PostScriptOrScript(p: seq<byte>, w: seq<byte>)
    requires p <= w && 2 <= |p| && Partial(MAGIC_NUMBERS[POSTSCRIPT], p)
    ensures MagicType(w) ==
            Some(if Matches(MAGIC_NUMBERS[POSTSCRIPT], w) then "application/postscript" else TEXT_PLAIN)
  {
    PostScriptEntries();
    assert Agrees(MAGIC_NUMBERS[POSTSCRIPT], 0, p[0]) && Agrees(MAGIC_NUMBERS[POSTSCRIPT], 1, p[1]);
    assert Matches(MAGIC_NUMBERS[PERCENT_SCRIPT], w);
    TwoMagicNumbersMatch(w, FirstMatch(w, MAGIC_NUMBERS), PERCENT_SCRIPT);
  }

  /**
    * For the third region, they are those that turn the cut-off tag into a recognised opening tag, or into a
    * declaration after which a recognised opening tag follows or the scan is left undecided in an unfilled window.
    */
  lemma TagDecides(hint: string, p: seq<byte>, q: seq<byte>)
    requires p <= q && MayTurnTag(hint, p)
    ensures var t, round := XmlScan(p).pos, XmlScan(p).round;
            var w := Take(q, MAX_BYTES_TO_SNIFF);
            && t < |Header(w)|
            && (Sniff(hint, q) != Sniff(hint, p) <==>
                if IsDeclaration(w[t..]) then
                  var rest := XmlScan(w, t + 1, round + 1);
                  rest.Feed? || (Undecided(rest) && |q| < MAX_BYTES_TO_SNIFF)
                else TypeOf(Header(w)[t..], MAGIC_XML).Some?)
  {
    hide Sniff, XmlScan, IsDeclaration, TypeOf, MayBecomeFeed, MayBecomeDeclaration;
    var w := Take(q, MAX_BYTES_TO_SNIFF);
    var t, round := XmlScan(p).pos, XmlScan(p).round;
    assert p <= w && Take(p, MAX_BYTES_TO_SNIFF) == p;
    XmlVerdict(hint, p);
    XmlVerdict(hint, q);
    ScanResumes(p, w, 0, 0);
    FindsItself(w, t);
    XmlScanTurn(w, t, round, t);
    if XmlScan(w).Feed? {
      FeedType(w);
    }
  }

  lemma XmlVerdict(hint: string, content: seq<byte>)
    requires IsXmlHint(hint)
    ensures var s := XmlScan(Take(content, MAX_BYTES_TO_SNIFF));
            Sniff(hint, content) ==
            Verdict(!Undecided(s) || |content| >= MAX_BYTES_TO_SNIFF, if s.Feed? then s.mimeType else hint)
  {
    hide HtmlType, LooksBinary, MagicType, XmlScan;
    KnownHints();
  }

  lemma FindsItself(w: seq<byte>, t: nat)
    requires t < |Header(w)| && w[t] == LESS_THAN
    ensures Find(Header(w), LESS_THAN, t) == t
  {}

  lemma OnlyBinaryForText(p: seq<byte>)
    ensures !MayTurnPostScript(TEXT_PLAIN, p) && !MayTurnTag(TEXT_PLAIN, p)
  {
    assert TEXT_PLAIN[5] == 'p';
  }

  /** Each region is reached: the sniffer does say "enough" there. */
  lemma RegionsAreReached()
    ensures Sniff(TEXT_PLAIN, Letters(42)).enough && MayTurnBinary(TEXT_PLAIN, Letters(42))
    ensures Sniff("", [0x25, 0x21]).enough && MayTurnPostScript("", [0x25, 0x21])
    ensures Sniff(TEXT_XML, [LESS_THAN]).enough && MayTurnTag(TEXT_XML, [LESS_THAN])
  {
    LettersAreText();
    PercentScriptIsText();
    LessThanIsRejected();
  }

  function Letters(n: nat): (p: seq<byte>)
    ensures |p| == n && forall i | 0 <= i < n :: p[i] == 0x61
  {
    if n == 0 then [] else Letters(n - 1) + [0x61]
  }

  lemma LettersHaveNoMagic(p: seq<byte>)
    requires p != [] && p[0] == 0x61
    ensures MagicType(p).None?
  {
    forall k | 0 <= k < |MAGIC_NUMBERS| ensures !Matches(MAGIC_NUMBERS[k], p) {
      NoMagicStartsWithLetterA(k);
      assert !Agrees(MAGIC_NUMBERS[k], 0, p[0]);
    }
  }

  lemma LettersHaveNoMark(p: seq<byte>)
    requires p != [] && p[0] == 0x61
    ensures !HasByteOrderMark(p)
  {
    forall k | 0 <= k < |BYTE_ORDER_MARKS| ensures !Matches(BYTE_ORDER_MARKS[k], p) {
      MarkStart(k);
      assert !Agrees(BYTE_ORDER_MARKS[k], 0, p[0]);
    }
  }

  lemma LettersAreText()
    ensures Sniff(TEXT_PLAIN, Letters(42)).enough && MayTurnBinary(TEXT_PLAIN, Letters(42))
  {
    hide HtmlType, SniffXml, MagicType, HasByteOrderMark, Letters;
    KnownHints();
    LettersHaveNoMagic(Letters(42));
    LettersHaveNoMark(Letters(42));
  }

  lemma NoMagicStartsWithLetterA(k: nat)
    requires k < |MAGIC_NUMBERS|
    ensures MAGIC_NUMBERS[k].magic != "" && MAGIC_NUMBERS[k].magic[0] != 'a' && !MAGIC_NUMBERS[k].isString
  {}

  lemma MarkStart(k: nat)
    requires k < |BYTE_ORDER_MARKS|
    ensures BYTE_ORDER_MARKS[k].magic != "" && BYTE_ORDER_MARKS[k].magic[0] != 'a' && !BYTE_ORDER_MARKS[k].isString
  {}

  lemma PercentScriptIsText()
    ensures Sniff("", [0x25, 0x21]).enough && MayTurnPostScript("", [0x25, 0x21])
  {
    hide HtmlType, LooksBinary, SniffXml, MagicType;
    var p: seq<byte> := [0x25, 0x21];
    PostScriptEntries();
    assert Partial(MAGIC_NUMBERS[POSTSCRIPT], p);
    PostScriptPrefix(p);
    MagicExcludesHtml(p, p);
    assert TEXT_PLAIN != "" && TEXT_XML != "" && APPLICATION_XML != "";
  }

  lemma LessThanIsRejected()
    ensures Sniff(TEXT_XML, [LESS_THAN]).enough && MayTurnTag(TEXT_XML, [LESS_THAN])
  {
    hide HtmlType, LooksBinary, MagicType, XmlScan;
    KnownHints();
    var p: seq<byte> := [LESS_THAN];
    assert p[0..] == p && Find(p, LESS_THAN, 0) == 0;
    XmlScanTurn(p, 0, 0, 0);
    assert !IsDeclaration(p) && Partial(XML_DECLARATION, p);
    forall k | 0 <= k < |MAGIC_XML| ensures !Matches(MAGIC_XML[k], p) {
      MagicXmlShape(k);
    }
    assert XmlScan(p) == Rejected(0, 0);
  }
}
