/** The byte tables of the MIME sniffer and what every entry of each table has in common. */
module MimeTables {
  import opened Basics

  /** A pattern at the start of some content; `isString` patterns ignore the case of letters. */
  datatype MagicNumber = MagicNumber(mimeType: string, magic: string, isString: bool)

  const MAX_BYTES_TO_SNIFF: nat := 512
  const BYTES_REQUIRED_FOR_MAGIC: nat := 42

  const LESS_THAN: byte := 0x3C

  const TEXT_PLAIN := "text/plain"
  const TEXT_HTML := "text/html"
  const TEXT_XML := "text/xml"
  const APPLICATION_XML := "application/xml"
  const OCTET_STREAM := "application/octet-stream"

  function MagicBytes(mimeType: string, magic: string): MagicNumber {
    MagicNumber(mimeType, magic, false)
  }

  function MagicString(mimeType: string, magic: string): MagicNumber {
    MagicNumber(mimeType, magic, true)
  }

  function HtmlTag(tag: string): MagicNumber {
    MagicString(TEXT_HTML, "<" + tag)
  }

  // kMagicNumbers: types recognised by their first bytes alone.
  const MAGIC_NUMBERS: seq<MagicNumber> := [
    MagicBytes("application/pdf", "%PDF-"),
    MagicBytes("application/postscript", "%!PS-Adobe-"),
    MagicBytes("image/gif", "GIF87a"),
    MagicBytes("image/gif", "GIF89a"),
    MagicBytes("image/png", "\U{89}PNG\r\n\U{1A}\n"),
    MagicBytes("image/jpeg", "\U{FF}\U{D8}\U{FF}"),
    MagicBytes("image/bmp", "BM"),
    MagicBytes(TEXT_PLAIN, "#!"),
    MagicBytes(TEXT_PLAIN, "%!"),
    MagicBytes(TEXT_PLAIN, "From"),
    MagicBytes(TEXT_PLAIN, ">From"),
    MagicBytes("application/x-gzip", "\U{1F}\U{8B}\U{08}"),
    MagicBytes("audio/x-pn-realaudio", "\U{2E}\U{52}\U{4D}\U{46}"),
    MagicBytes("video/x-ms-asf",
               "\U{30}\U{26}\U{B2}\U{75}\U{8E}\U{66}\U{CF}\U{11}\U{A6}\U{D9}\U{00}\U{AA}\U{00}\U{62}\U{CE}\U{6C}"),
    MagicBytes("image/tiff", "I I"),
    MagicBytes("image/tiff", "II*"),
    MagicBytes("image/tiff", "MM\0*"),
    MagicBytes("audio/mpeg", "ID3"),
    MagicBytes("application/zip", "PK\U{03}\U{04}"),
    MagicBytes("application/x-rar-compressed", "Rar!\U{1A}\U{07}\0"),
    MagicBytes("application/x-msmetafile", "\U{D7}\U{CD}\U{C6}\U{9A}"),
    MagicBytes(OCTET_STREAM, "MZ")
  ]

  // kSniffableTags: the tags that make a document of unknown type HTML, or XML.
  const SNIFFABLE_TAGS: seq<MagicNumber> := [
    MagicBytes(TEXT_XML, "<?xml"),
    HtmlTag("!DOCTYPE html"),
    HtmlTag("script"),
    HtmlTag("html"),
    HtmlTag("!--"),
    HtmlTag("head"),
    HtmlTag("iframe"),
    HtmlTag("h1"),
    HtmlTag("div"),
    HtmlTag("font"),
    HtmlTag("table"),
    HtmlTag("a"),
    HtmlTag("style"),
    HtmlTag("title"),
    HtmlTag("b"),
    HtmlTag("body"),
    HtmlTag("br"),
    HtmlTag("p")
  ]

  // kMagicXML: the opening tags that refine an XML hint.
  const MAGIC_XML: seq<MagicNumber> := [
    MagicString("application/xhtml+xml", "<html xmlns=\"http://www.w3.org/1999/xhtml\""),
    MagicString("application/atom+xml", "<feed"),
    MagicString("application/rss+xml", "<rss")
  ]

  // kByteOrderMark.
  const BYTE_ORDER_MARKS: seq<MagicNumber> := [
    MagicBytes(TEXT_PLAIN, "\U{FE}\U{FF}"),
    MagicBytes(TEXT_PLAIN, "\U{FF}\U{FE}"),
    MagicBytes(TEXT_PLAIN, "\U{EF}\U{BB}\U{BF}")
  ]

  // The two declarations that the XML scan steps over.
  const XML_DECLARATION := MagicString("", "<?xml")
  const DOCTYPE_DECLARATION := MagicString("", "<!DOCTYPE")

  predicate IsAsciiWhitespace(b: byte) {
    b == 0x20 || b == 0x0D || b == 0x0A || b == 0x09
  }

  // kByteLooksBinary, indexed by the byte: its first two rows; the fourteen rows that follow are all zero.
  const LOW_BYTES_LOOK_BINARY: seq<bool> := [
    true, true, true, true, true, true, true, true, true, false, false, true, false, false, true, true,
    true, true, true, true, true, true, true, true, true, true, true, false, true, true, true, true
  ]

  predicate ByteLooksBinary(b: byte)
    ensures b >= 0x20 ==> !ByteLooksBinary(b)
    ensures IsAsciiWhitespace(b) ==> !ByteLooksBinary(b)
  {
    b < 0x20 && LOW_BYTES_LOOK_BINARY[b]
  }

  const UNKNOWN_MIME_TYPES: seq<string> := ["", "unknown/unknown", "application/unknown", "*/*"]

  /**
    * Binary are the control characters except tab, line feed, form feed, carriage return and escape; white space are
    * the blank and those of the exceptions that are neither form feed nor escape.
    */
  lemma ControlCharacters(b: byte)
    ensures ByteLooksBinary(b) <==> b < 0x20 && b !in {0x09, 0x0A, 0x0C, 0x0D, 0x1B}
    ensures IsAsciiWhitespace(b) <==> b == 0x20 || (b < 0x20 && !ByteLooksBinary(b) && b != 0x0C && b != 0x1B)
  {}

  // IsUnknownMimeType: hints that say nothing about the content.
  predicate IsUnknownMimeType(mimeType: string) {
    mimeType in UNKNOWN_MIME_TYPES || '/' !in mimeType
  }

  /** Three hints with a slash are unknown; the empty hint is one of those without. */
  lemma UnknownTypes(mimeType: string)
    ensures IsUnknownMimeType(mimeType) <==>
            mimeType in {"unknown/unknown", "application/unknown", "*/*"} || '/' !in mimeType
  {
    assert UNKNOWN_MIME_TYPES[1] in UNKNOWN_MIME_TYPES && UNKNOWN_MIME_TYPES[2] in UNKNOWN_MIME_TYPES;
    assert UNKNOWN_MIME_TYPES[3] in UNKNOWN_MIME_TYPES;
  }

  predicate IsXmlHint(mimeType: string) {
    mimeType == TEXT_XML || mimeType == APPLICATION_XML
  }

  /** How an entry of MAGIC_NUMBERS is told apart from the others: by its first two bytes. */
  function Slot(first: int, second: int): nat {
    if first == 0x25 then (if second == 0x50 then 0 else 1)
    else if first == 0x47 then 2
    else if first == 0x89 then 4
    else if first == 0xFF then 5
    else if first == 0x42 then 6
    else if first == 0x23 then 7
    else if first == 0x46 then 9
    else if first == 0x3E then 10
    else if first == 0x1F then 11
    else if first == 0x2E then 12
    else if first == 0x30 then 13
    else if first == 0x49 then (if second == 0x20 then 14 else if second == 0x49 then 15 else 17)
    else if first == 0x4D then (if second == 0x4D then 16 else 21)
    else if first == 0x50 then 18
    else if first == 0x52 then 19
    else 20
  }

  /** PostScript ("%!PS-Adobe-") and the script marker "%!" it begins with. */
  const POSTSCRIPT: nat := 1
  const PERCENT_SCRIPT: nat := 8

  lemma MagicNumberShape(k: nat)
    requires k < |MAGIC_NUMBERS|
    ensures var e := MAGIC_NUMBERS[k];
            && !e.isString
            && 2 <= |e.magic| <= BYTES_REQUIRED_FOR_MAGIC
            && e.magic[0] !in {'<', ' ', '\r', '\n', '\t'}
            && Slot(e.magic[0] as int, e.magic[1] as int) ==
               (if k == 3 then 2 else if k == PERCENT_SCRIPT then POSTSCRIPT else k)
  {}

  function Last(t: string): char
    requires t != ""
  {
    t[|t| - 1]
  }

  lemma MagicNumberTypeEnding(k: nat)
    requires k < |MAGIC_NUMBERS|
    ensures var t := MAGIC_NUMBERS[k].mimeType;
            t != "" && (Last(t) == 'n' ==> t == TEXT_PLAIN) && Last(t) != 'l' && Last(t) != '*'
  {}

  lemma MagicNumberTypeSlash(k: nat)
    requires k < |MAGIC_NUMBERS|
    ensures '/' in MAGIC_NUMBERS[k].mimeType
  {
    var t := MAGIC_NUMBERS[k].mimeType;
    assert (|t| > 11 && t[11] == '/') || (|t| > 5 && t[5] == '/') || (|t| > 4 && t[4] == '/');
  }

  /** No magic number yields an unknown type, an XML type, or text/html. */
  lemma MagicNumberType(k: nat)
    requires k < |MAGIC_NUMBERS|
    ensures var t := MAGIC_NUMBERS[k].mimeType;
            && !IsUnknownMimeType(t) && !IsXmlHint(t) && t != TEXT_HTML
            && forall m | 0 <= m < |MAGIC_XML| :: MAGIC_XML[m].mimeType != t
  {
    MagicNumberTypeEnding(k);
    MagicNumberTypeSlash(k);
    forall m | 0 <= m < |MAGIC_XML| ensures MAGIC_XML[m].mimeType != MAGIC_NUMBERS[k].mimeType {
      MagicXmlType(m);
    }
  }

  lemma SniffableTagShape(k: nat)
    requires k < |SNIFFABLE_TAGS|
    ensures var e := SNIFFABLE_TAGS[k];
            && 2 <= |e.magic| <= BYTES_REQUIRED_FOR_MAGIC
            && e.magic[0] == '<'
            && (e.magic[1] == '?' <==> k == 0)
            && e.isString == (k != 0)
            && e.mimeType == (if k == 0 then TEXT_XML else TEXT_HTML)
            && forall i | 0 <= i < |e.magic| :: e.magic[i] != '\0'
  {}

  /** The second byte tells the three opening tags apart, and from both declarations. */
  lemma MagicXmlShape(k: nat)
    requires k < |MAGIC_XML|
    ensures var e := MAGIC_XML[k];
            && e.isString
            && 2 <= |e.magic| <= BYTES_REQUIRED_FOR_MAGIC
            && e.magic[0] == '<'
            && e.magic[1] == (if k == 0 then 'h' else if k == 1 then 'f' else 'r')
  {}

  lemma MagicXmlText(k: nat, i: nat)
    requires k < |MAGIC_XML| && 0 < i < |MAGIC_XML[k].magic|
    ensures MAGIC_XML[k].magic[i] !in {'\0', '<'} && MAGIC_XML[k].magic[i] as int < 256
  {}

  lemma MagicXmlType(k: nat)
    requires k < |MAGIC_XML|
    ensures var t := MAGIC_XML[k].mimeType;
            && |t| > 15 && t[11] == '/' && Last(t) == 'l'
            && !IsUnknownMimeType(t) && !IsXmlHint(t) && t != TEXT_HTML
  {}

  lemma ByteOrderMarkShape(k: nat)
    requires k < |BYTE_ORDER_MARKS|
    ensures var e := BYTE_ORDER_MARKS[k];
            && !e.isString && 2 <= |e.magic| <= BYTES_REQUIRED_FOR_MAGIC
            && forall i | 0 <= i < |e.magic| :: 0x20 <= e.magic[i] as int
  {}
}
