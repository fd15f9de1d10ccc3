/** What the sniffer may answer to a given hint, and what happens when its answer is used as the next hint. */
module MimePolicy {
  import opened Basics
  import opened MimeTables
  import opened MimeMatching
  import opened MimeSpec
  import opened MimeOrder
  import opened MimeXmlScan
  import opened MimeStability

  // The window

  /** The verdict depends on the first 512 bytes only, and is always definitive once there are 512. */
  lemma WindowBound(hint: string, p: seq<byte>, q: seq<byte>)
    requires Take(p, MAX_BYTES_TO_SNIFF) == Take(q, MAX_BYTES_TO_SNIFF)
    ensures Sniff(hint, p) == Sniff(hint, q)
    ensures MAX_BYTES_TO_SNIFF <= |p| ==> Sniff(hint, p).enough
  {
    hide HtmlType, MagicType, SniffXml, LooksBinary;
  }

  // What the phases look at

  /** White space in front is skipped, all of it and nothing else, before the tags are tried. */
  lemma HtmlAfterWhitespace(space: seq<byte>, rest: seq<byte>)
    requires forall b | b in space :: b in {0x09, 0x0A, 0x0D, 0x20}
    requires rest != [] ==> rest[0] !in {0x09, 0x0A, 0x0D, 0x20}
    ensures HtmlType(space + rest) == TypeOf(rest, SNIFFABLE_TAGS)
  {
    var content := space + rest;
    var pos := SkipWhitespace(content);
    assert forall i | 0 <= i < |space| :: content[i] in space;
    assert rest != [] ==> content[|space|] == rest[0];
    assert content[pos..] == rest;
  }

  const SHOUTED_HTML: seq<byte> := [0x20, 0x3C, 0x48, 0x54, 0x4D, 0x4C]  // " <HTML"

  /** A shouted tag behind white space is HTML, for content of unknown type. */
  lemma ShoutedHtml()
    ensures Sniff("", SHOUTED_HTML) == Verdict(true, "text/html")
  {
    hide HtmlType, MagicType, LooksBinary, XmlScan;
    var space, rest := SHOUTED_HTML[..1], SHOUTED_HTML[1..];
    assert space + rest == SHOUTED_HTML;
    HtmlAfterWhitespace(space, rest);
    assert rest == [0x3C, 0x48, 0x54, 0x4D, 0x4C];
    assert Matches(SNIFFABLE_TAGS[3], rest);
    TagsAgree(rest, 3, FirstMatch(rest, SNIFFABLE_TAGS));
    UnknownTypes("");
  }

  /** Binary evidence is any control character other than these five, unless a byte order mark comes first. */
  lemma LooksBinaryExactly(content: seq<byte>)
    ensures LooksBinary(content) <==>
            && !([0xFE, 0xFF] <= content) && !([0xFF, 0xFE] <= content) && !([0xEF, 0xBB, 0xBF] <= content)
            && exists i | 0 <= i < |content| :: content[i] < 0x20 && content[i] !in {0x09, 0x0A, 0x0C, 0x0D, 0x1B}
  {
    assert Matches(BYTE_ORDER_MARKS[0], content) <==> [0xFE, 0xFF] <= content;
    assert Matches(BYTE_ORDER_MARKS[1], content) <==> [0xFF, 0xFE] <= content;
    assert Matches(BYTE_ORDER_MARKS[2], content) <==> [0xEF, 0xBB, 0xBF] <= content;
    TypeOfIsFirst(content, BYTE_ORDER_MARKS);
    forall b: byte ensures ByteLooksBinary(b) <==> b < 0x20 && b !in {0x09, 0x0A, 0x0C, 0x0D, 0x1B} {
      ControlCharacters(b);
    }
  }

  // When the flag is set

  /**
    * "Enough", for every hint. Unknown: on an HTML tag or a magic number. Plain text: from 42 bytes on while nothing
    * looks binary, and then only on a magic number. XML: once the scan has decided. Any other: from 42 bytes on or on
    * a magic number. And always once there are 512 bytes.
    */
  lemma EnoughExactly(hint: string, content: seq<byte>)
    ensures var w := if |content| <= 512 then content else content[..512];
            Sniff(hint, content).enough <==>
            || |content| >= 512
            || (IsUnknownMimeType(hint) && (HtmlType(w).Some? || MagicType(w).Some?))
            || (hint == TEXT_PLAIN && if LooksBinary(w) then MagicType(w).Some? else |content| >= 42)
            || (hint in {"text/xml", "application/xml"} && !Undecided(XmlScan(w)))
            || (!IsUnknownMimeType(hint) && hint != TEXT_PLAIN && !IsXmlHint(hint) &&
                (|content| >= 42 || MagicType(w).Some?))
  {
    hide HtmlType, MagicType, LooksBinary, XmlScan, IsUnknownMimeType;
    KnownHints();
    assert TEXT_PLAIN[5] == 'p';
  }

  // What a hint may turn into

  predicate IsMagicType(t: string) {
    exists k | 0 <= k < |MAGIC_NUMBERS| :: MAGIC_NUMBERS[k].mimeType == t
  }

  predicate IsFeedType(t: string) {
    exists k | 0 <= k < |MAGIC_XML| :: MAGIC_XML[k].mimeType == t
  }

  lemma MagicTypeIsListed(content: seq<byte>)
    requires MagicType(content).Some?
    ensures IsMagicType(MagicType(content).value)
    ensures var t := MagicType(content).value;
            !IsUnknownMimeType(t) && !IsXmlHint(t) && t != TEXT_HTML && !IsFeedType(t)
  {
    var k := FirstMatch(content, MAGIC_NUMBERS);
    assert MAGIC_NUMBERS[k].mimeType == MagicType(content).value;
    MagicNumberType(k);
  }

  lemma HtmlTypeIsListed(content: seq<byte>)
    requires HtmlType(content).Some?
    ensures HtmlType(content).value in {TEXT_HTML, TEXT_XML}
  {
    SniffableTagShape(FirstMatch(content[SkipWhitespace(content)..], SNIFFABLE_TAGS));
  }

  lemma FeedTypeIsListed(t: string)
    requires IsFeedType(t)
    ensures !IsUnknownMimeType(t) && !IsXmlHint(t) && !IsMagicType(t)
    ensures t != TEXT_HTML && t != TEXT_PLAIN && t != OCTET_STREAM
  {
    var k :| 0 <= k < |MAGIC_XML| && MAGIC_XML[k].mimeType == t;
    MagicXmlType(k);
    forall m | 0 <= m < |MAGIC_NUMBERS| ensures MAGIC_NUMBERS[m].mimeType != t {
      MagicNumberType(m);
    }
  }

  /** The types an answer is drawn from; text/html and the XML types never come from text/plain or octet-stream. */
  lemma HintPolicy(hint: string, content: seq<byte>)
    ensures var t := Sniff(hint, content).mimeType;
            && !IsUnknownMimeType(t)
            && (IsXmlHint(hint) ==> t == hint || IsFeedType(t))
            && (!IsXmlHint(hint) && !IsUnknownMimeType(hint) ==>
                  t == hint || t == TEXT_PLAIN || t == OCTET_STREAM || IsMagicType(t))
            && (IsUnknownMimeType(hint) ==>
                  t == TEXT_HTML || t == TEXT_XML || t == TEXT_PLAIN || t == OCTET_STREAM || IsMagicType(t))
            && (hint == TEXT_PLAIN || hint == OCTET_STREAM ==> t != TEXT_HTML && !IsXmlHint(t) && !IsFeedType(t))
  {
    hide HtmlType, MagicType, LooksBinary, XmlScan, IsUnknownMimeType, IsMagicType, IsFeedType;
    KnownHints();
    var w := Take(content, MAX_BYTES_TO_SNIFF);
    if IsXmlHint(hint) {
      if XmlScan(w).Feed? {
        FeedIsListed(w);
      }
    } else {
      if HtmlType(w).Some? {
        HtmlTypeIsListed(w);
      }
      if MagicType(w).Some? {
        MagicTypeIsListed(w);
      }
      PlainTypesAreNoFeeds();
    }
  }

  lemma FeedIsListed(content: seq<byte>)
    requires XmlScan(content).Feed?
    ensures IsFeedType(XmlScan(content).mimeType)
    ensures !IsUnknownMimeType(XmlScan(content).mimeType)
  {
    FeedType(content);
    FeedTypeIsListed(XmlScan(content).mimeType);
  }

  lemma PlainTypesAreNoFeeds()
    ensures !IsFeedType(TEXT_PLAIN) && !IsFeedType(OCTET_STREAM) && !IsFeedType(TEXT_HTML)
    ensures !IsXmlHint(TEXT_PLAIN) && !IsXmlHint(OCTET_STREAM) && !IsXmlHint(TEXT_HTML)
    ensures OCTET_STREAM != TEXT_PLAIN && OCTET_STREAM != TEXT_HTML && TEXT_PLAIN != TEXT_HTML
  {
    forall t | t in {TEXT_PLAIN, OCTET_STREAM, TEXT_HTML} && IsFeedType(t) ensures false {
      FeedTypeIsListed(t);
    }
  }

  // Sniffing again with the answer as the hint

  function Retype(hint: string, content: seq<byte>): string {
    Sniff(hint, content).mimeType
  }

  /** One more round changes the type: the answer was text/xml and a feed follows, or a known file holds a feed. */
  predicate ChangesOnce(hint: string, content: seq<byte>) {
    var w := Take(content, MAX_BYTES_TO_SNIFF);
    XmlScan(w).Feed? &&
    if IsXmlHint(hint) then MagicType(w).Some?
    else IsUnknownMimeType(hint) && HtmlType(w) == Some(TEXT_XML)
  }

  lemma KnownHintAnswer(hint: string, content: seq<byte>)
    requires !IsUnknownMimeType(hint) && !IsXmlHint(hint)
    ensures var w := Take(content, MAX_BYTES_TO_SNIFF);
            Retype(hint, content) ==
            if hint == TEXT_PLAIN && !LooksBinary(w) then TEXT_PLAIN
            else if MagicType(w).Some? then MagicType(w).value
            else if hint == TEXT_PLAIN then OCTET_STREAM else hint
  {
    hide HtmlType, MagicType, LooksBinary, SniffXml, IsUnknownMimeType;
  }

  lemma XmlHintAnswer(hint: string, content: seq<byte>)
    requires IsXmlHint(hint)
    ensures var s := XmlScan(Take(content, MAX_BYTES_TO_SNIFF));
            Retype(hint, content) == if s.Feed? then s.mimeType else hint
  {
    hide HtmlType, MagicType, LooksBinary, XmlScan, IsUnknownMimeType;
    KnownHints();
  }

  lemma UnknownHintAnswer(hint: string, content: seq<byte>)
    requires IsUnknownMimeType(hint)
    ensures var w := Take(content, MAX_BYTES_TO_SNIFF);
            Retype(hint, content) ==
            if HtmlType(w).Some? then HtmlType(w).value
            else if MagicType(w).Some? then MagicType(w).value
            else if LooksBinary(w) then OCTET_STREAM else TEXT_PLAIN
  {
    hide HtmlType, MagicType, LooksBinary, SniffXml, IsUnknownMimeType;
    KnownHints();
  }

  /** An answer other than text/xml, once it came from a known or an unknown hint, is kept. */
  lemma SettledAnswer(hint: string, content: seq<byte>)
    requires !IsXmlHint(hint) && !IsXmlHint(Retype(hint, content))
    ensures Retype(Retype(hint, content), content) == Retype(hint, content)
  {
    hide Retype, HtmlType, MagicType, LooksBinary, IsUnknownMimeType;
    var w := Take(content, MAX_BYTES_TO_SNIFF);
    KnownHints();
    PlainTypesAreNoFeeds();
    var t := Retype(hint, content);
    if MagicType(w).Some? {
      MagicTypeIsListed(w);
      MagicExcludesHtml(w, w);
    }
    if IsUnknownMimeType(hint) {
      UnknownHintAnswer(hint, content);
      if HtmlType(w).Some? {
        HtmlTypeIsListed(w);
      }
    } else {
      KnownHintAnswer(hint, content);
    }
    KnownHintAnswer(t, content);
  }

  /** An answer found by the XML scan is kept unless the content also starts with a magic number. */
  lemma FeedAnswer(content: seq<byte>)
    requires XmlScan(Take(content, MAX_BYTES_TO_SNIFF)).Feed?
    ensures var w := Take(content, MAX_BYTES_TO_SNIFF);
            var t := XmlScan(w).mimeType;
            && IsFeedType(t) && !IsXmlHint(t)
            && Retype(t, content) == (if MagicType(w).Some? then MagicType(w).value else t)
            && (MagicType(w).Some? ==> MagicType(w).value != t)
  {
    hide Retype, XmlScan, MagicType, LooksBinary, IsFeedType, IsUnknownMimeType;
    var w := Take(content, MAX_BYTES_TO_SNIFF);
    FeedIsListed(w);
    FeedTypeIsListed(XmlScan(w).mimeType);
    KnownHintAnswer(XmlScan(w).mimeType, content);
    if MagicType(w).Some? {
      MagicTypeIsListed(w);
    }
  }

  /** Only "<?xml" in content of unknown type gives an XML answer to another hint, and then no magic number matches. */
  lemma XmlAnswer(hint: string, content: seq<byte>)
    requires !IsXmlHint(hint) && IsXmlHint(Retype(hint, content))
    ensures var w := Take(content, MAX_BYTES_TO_SNIFF);
            && IsUnknownMimeType(hint) && HtmlType(w) == Some(TEXT_XML) && MagicType(w).None?
            && Retype(hint, content) == TEXT_XML
  {
    hide Retype, HtmlType, MagicType, LooksBinary, IsUnknownMimeType;
    var w := Take(content, MAX_BYTES_TO_SNIFF);
    PlainTypesAreNoFeeds();
    if MagicType(w).Some? {
      MagicTypeIsListed(w);
      MagicExcludesHtml(w, w);
    }
    if IsUnknownMimeType(hint) {
      UnknownHintAnswer(hint, content);
      if HtmlType(w).Some? {
        HtmlTypeIsListed(w);
      }
    } else {
      KnownHintAnswer(hint, content);
    }
  }

  /** One round is a fixpoint exactly outside the two cases of ChangesOnce. */
  lemma OneRoundFixpoint(hint: string, content: seq<byte>)
    ensures Retype(Retype(hint, content), content) == Retype(hint, content) <==> !ChangesOnce(hint, content)
  {
    hide Retype, XmlScan, HtmlType, MagicType, LooksBinary, IsFeedType, IsUnknownMimeType;
    var w := Take(content, MAX_BYTES_TO_SNIFF);
    var t := Retype(hint, content);
    KnownHints();
    if IsXmlHint(hint) {
      XmlHintAnswer(hint, content);
      if XmlScan(w).Feed? {
        FeedAnswer(content);
      }
    } else if IsXmlHint(t) {
      XmlAnswer(hint, content);
      XmlHintAnswer(t, content);
      if XmlScan(w).Feed? {
        FeedAnswer(content);
      }
    } else {
      SettledAnswer(hint, content);
      if ChangesOnce(hint, content) {
        UnknownHintAnswer(hint, content);
      }
    }
  }

  /** Two rounds always reach a fixpoint. */
  lemma TwoRoundsFixpoint(hint: string, content: seq<byte>)
    ensures var twice := Retype(Retype(hint, content), content);
            Retype(twice, content) == twice
  {
    hide Retype, XmlScan, HtmlType, MagicType, LooksBinary, IsFeedType, IsUnknownMimeType;
    var w := Take(content, MAX_BYTES_TO_SNIFF);
    var t := Retype(hint, content);
    OneRoundFixpoint(hint, content);
    if ChangesOnce(hint, content) {
      FeedAnswer(content);
      if IsXmlHint(hint) {
        XmlHintAnswer(hint, content);
        MagicTypeIsListed(w);
        SettledAnswer(t, content);
      } else {
        UnknownHintAnswer(hint, content);
        XmlAnswer(hint, content);
        XmlHintAnswer(t, content);
      }
    }
  }

  const FEED_IN_BITMAP: seq<byte> := [0x42, 0x4D, 0x3C, 0x72, 0x73, 0x73]  // BM<rss

  lemma FeedInBitmap()
    ensures XmlScan(FEED_IN_BITMAP) == Feed(2, 0, "application/rss+xml")
  {
    var c := FEED_IN_BITMAP;
    assert Find(c, LESS_THAN) == 2;
    assert c[2..] == [0x3C, 0x72, 0x73, 0x73];
    assert !Agrees(XML_DECLARATION, 1, c[2..][1]) && !Agrees(DOCTYPE_DECLARATION, 1, c[2..][1]);
    assert Matches(MAGIC_XML[2], c[2..]);
    XmlTagsAgree(c[2..], 2, FirstMatch(c[2..], MAGIC_XML));
    XmlScanTurn(c, 0, 0, 2);
  }

  lemma BitmapMagic()
    ensures MagicType(FEED_IN_BITMAP) == Some("image/bmp")
  {
    assert Matches(MAGIC_NUMBERS[6], FEED_IN_BITMAP);
    TwoMagicNumbersMatch(FEED_IN_BITMAP, 6, FirstMatch(FEED_IN_BITMAP, MAGIC_NUMBERS));
  }

  /** For an XML hint the second round can indeed change the type: XML, then RSS, then a bitmap. */
  lemma SecondRoundNeeded()
    ensures Retype(TEXT_XML, FEED_IN_BITMAP) == "application/rss+xml"
    ensures Retype("application/rss+xml", FEED_IN_BITMAP) == "image/bmp"
  {
    hide Retype, XmlScan, MagicType;
    XmlHintAnswer(TEXT_XML, FEED_IN_BITMAP);
    FeedInBitmap();
    BitmapMagic();
    FeedAnswer(FEED_IN_BITMAP);
  }

  const FEED_AFTER_DECLARATION: seq<byte> := [0x3C, 0x3F, 0x78, 0x6D, 0x6C, 0x3C, 0x72, 0x73, 0x73]  // <?xml<rss

  lemma FeedAfterDeclaration()
    ensures XmlScan(FEED_AFTER_DECLARATION) == Feed(5, 1, "application/rss+xml")
  {
    hide XmlScan;
    var c := FEED_AFTER_DECLARATION;
    assert Find(c, LESS_THAN) == 0 && Find(c, LESS_THAN, 1) == 5;
    assert c[0..] == c && Matches(XML_DECLARATION, c);
    XmlScanTurn(c, 0, 0, 0);
    assert c[5..] == [0x3C, 0x72, 0x73, 0x73];
    assert Matches(MAGIC_XML[2], c[5..]);
    FeedTagIsNoDeclaration(c[5..], 2);
    XmlTagsAgree(c[5..], 2, FirstMatch(c[5..], MAGIC_XML));
    XmlScanTurn(c, 1, 1, 5);
  }

  lemma DeclarationIsXml()
    ensures HtmlType(FEED_AFTER_DECLARATION) == Some(TEXT_XML)
  {
    var c := FEED_AFTER_DECLARATION;
    assert SkipWhitespace(c) == 0 && c[0..] == c;
    assert Matches(SNIFFABLE_TAGS[0], c);
    TagsAgree(c, 0, FirstMatch(c, SNIFFABLE_TAGS));
  }

  /** Without a hint too the second round can change the type: XML, then RSS. */
  lemma SecondRoundNeededWithoutHint()
    ensures ChangesOnce("", FEED_AFTER_DECLARATION)
    ensures Retype("", FEED_AFTER_DECLARATION) == TEXT_XML
    ensures Retype(TEXT_XML, FEED_AFTER_DECLARATION) == "application/rss+xml"
  {
    hide Retype, XmlScan, HtmlType, MagicType;
    FeedAfterDeclaration();
    DeclarationIsXml();
    UnknownHintAnswer("", FEED_AFTER_DECLARATION);
    XmlHintAnswer(TEXT_XML, FEED_AFTER_DECLARATION);
    assert TEXT_XML != "" && APPLICATION_XML != "";
  }
}
