/** The verdict of the sniffer as a function of the hint and the bytes seen so far. */
module MimeSpec {
  import opened Basics
  import opened MimeTables
  import opened MimeMatching

  /** `enough` is the sniffer's answer that no further content is needed. */
  datatype Verdict = Verdict(enough: bool, mimeType: string)

  function Take(content: seq<byte>, n: nat): (r: seq<byte>)
    ensures r <= content
  {
    if |content| <= n then content else content[..n]
  }

  function SkipWhitespace(content: seq<byte>, pos: nat := 0): (r: nat)
    requires pos <= |content|
    ensures pos <= r <= |content|
    ensures forall i | pos <= i < r :: IsAsciiWhitespace(content[i])
    ensures r < |content| ==> !IsAsciiWhitespace(content[r])
    decreases |content| - pos
  {
    if pos < |content| && IsAsciiWhitespace(content[pos]) then SkipWhitespace(content, pos + 1) else pos
  }

  function HtmlType(content: seq<byte>): Option<string> {
    TypeOf(content[SkipWhitespace(content)..], SNIFFABLE_TAGS)
  }

  function MagicType(content: seq<byte>): Option<string> {
    TypeOf(content, MAGIC_NUMBERS)
  }

  predicate HasByteOrderMark(content: seq<byte>) {
    TypeOf(content, BYTE_ORDER_MARKS).Some?
  }

  predicate HasBinaryByte(content: seq<byte>) {
    exists i | 0 <= i < |content| :: ByteLooksBinary(content[i])
  }

  predicate LooksBinary(content: seq<byte>) {
    !HasByteOrderMark(content) && HasBinaryByte(content)
  }

  // The XML scan

  const FEED_ALLOWED_HEADER_BYTES: nat := 300
  const MAX_TAG_ITERATIONS: nat := 5

  /** The first position from `pos` on holding `b`, or the end of the content. */
  function Find(content: seq<byte>, b: byte, pos: nat := 0): (r: nat)
    requires pos <= |content|
    ensures pos <= r <= |content|
    ensures forall i | pos <= i < r :: content[i] != b
    ensures r < |content| ==> content[r] == b
    decreases |content| - pos
  {
    if pos == |content| || content[pos] == b then pos else Find(content, b, pos + 1)
  }

  predicate IsDeclaration(content: seq<byte>) {
    Matches(XML_DECLARATION, content) || Matches(DOCTYPE_DECLARATION, content)
  }

  /** How the XML scan ends, and where: the tag at `pos` is the one looked at in round `round`. */
  datatype Stop =
    | NoTag
    | Exhausted(roomLeft: bool)
    | Feed(pos: nat, round: nat, mimeType: string)
    | Rejected(pos: nat, round: nat)

  /** The content shows no tag to decide on: the scan has run out of tags, or of header, too early. */
  predicate Undecided(s: Stop) {
    s == NoTag || s == Exhausted(false)
  }

  function Header(content: seq<byte>): seq<byte> {
    Take(content, FEED_ALLOWED_HEADER_BYTES)
  }

  function XmlScan(content: seq<byte>, pos: nat := 0, round: nat := 0): (s: Stop)
    requires pos <= |Header(content)|
    ensures s.Feed? || s.Rejected? ==>
              pos <= s.pos < |Header(content)| && round <= s.round < MAX_TAG_ITERATIONS && content[s.pos] == LESS_THAN
    decreases |content| - pos
  {
    var header := Header(content);
    if round >= MAX_TAG_ITERATIONS || pos == |header| then Exhausted(pos < |header|)
    else
      var tag := Find(header, LESS_THAN, pos);
      if tag == |header| then NoTag
      else if IsDeclaration(content[tag..]) then XmlScan(content, tag + 1, round + 1)
      else
        match TypeOf(header[tag..], MAGIC_XML)
        case Some(mimeType) => Feed(tag, round, mimeType)
        case None => Rejected(tag, round)
  }

  lemma XmlScanEnds(text: seq<byte>, pos: nat, round: nat)
    requires pos <= |Header(text)| && (pos == |Header(text)| || round >= MAX_TAG_ITERATIONS)
    ensures XmlScan(text, pos, round) == Exhausted(pos < |Header(text)|)
  {}

  /** One round of the scan, whose next tag is at `tag`. */
  lemma XmlScanTurn(text: seq<byte>, pos: nat, round: nat, tag: nat)
    requires pos < |Header(text)| && round < MAX_TAG_ITERATIONS && tag == Find(Header(text), LESS_THAN, pos)
    ensures tag == |Header(text)| ==> XmlScan(text, pos, round) == NoTag
    ensures tag < |Header(text)| && IsDeclaration(text[tag..]) ==>
              XmlScan(text, pos, round) == XmlScan(text, tag + 1, round + 1)
    ensures tag < |Header(text)| && !IsDeclaration(text[tag..]) ==>
              var t := TypeOf(Header(text)[tag..], MAGIC_XML);
              XmlScan(text, pos, round) == if t.Some? then Feed(tag, round, t.value) else Rejected(tag, round)
  {}

  function SniffXml(hint: string, content: seq<byte>): Verdict {
    match XmlScan(content)
    case NoTag => Verdict(false, hint)
    case Exhausted(roomLeft) => Verdict(roomLeft, hint)
    case Feed(_, _, mimeType) => Verdict(true, mimeType)
    case Rejected(_, _) => Verdict(true, hint)
  }

  // The whole decision

  function Sniff(hint: string, content: seq<byte>): Verdict {
    SniffWindow(hint, Take(content, MAX_BYTES_TO_SNIFF))
  }

  /** The verdict on content that has already been cut to the 512 bytes the sniffer considers. */
  function SniffWindow(hint: string, window: seq<byte>): Verdict {
    var unknown := IsUnknownMimeType(hint);
    var full := |window| >= MAX_BYTES_TO_SNIFF;
    if unknown && HtmlType(window).Some? then Verdict(true, HtmlType(window).value)
    else if hint == TEXT_PLAIN && !LooksBinary(window) then
      Verdict(|window| >= BYTES_REQUIRED_FOR_MAGIC, TEXT_PLAIN)
    else if IsXmlHint(hint) then
      var v := SniffXml(hint, window);
      v.(enough := v.enough || full)
    else if MagicType(window).Some? then Verdict(true, MagicType(window).value)
    else if unknown || hint == TEXT_PLAIN then
      Verdict(full, if LooksBinary(window) then OCTET_STREAM else TEXT_PLAIN)
    else Verdict(|window| >= BYTES_REQUIRED_FOR_MAGIC, hint)
  }
}
