/** The sniffer as it runs: loops over a byte buffer, verdicts written through `result`. */
module MimeSniffer {
  import opened Basics
  import opened MimeTables
  import opened MimeMatching
  import opened MimeSpec

  /** The caller's string that receives the type. */
  class MimeType {
    var value: string

    constructor (value: string)
      ensures this.value == value
    {
      this.value := value;
    }
  }

  // The C library routines that the sniffer calls

  /** memchr over content[pos..end]; None stands for NULL. */
  method Memchr(content: array<byte>, pos: nat, b: byte, end: nat) returns (found: Option<nat>)
    requires pos <= end <= content.Length
    ensures var at := Find(content[..end], b, pos);
            found == if at < end then Some(at) else None
  {
    var i := pos;
    while i < end
      invariant pos <= i <= end
      invariant Find(content[..end], b, pos) == Find(content[..end], b, i)
    {
      if content[i] == b {
        return Some(i);
      }
      i := i + 1;
    }
    return None;
  }

  /**
    * strncasecmp(a, b, n) == 0, where both strings end in a NUL just after their last element:
    * the comparison stops at n characters, at a difference, or at a NUL in both.
    */
  predicate StrNCaseEqual(a: string, b: seq<byte>, n: nat, i: nat := 0)
    decreases n - i
  {
    i >= n ||
    var x := if i < |a| then a[i] as int else 0;
    var y := if i < |b| then b[i] else 0;
    Lower(x) == Lower(y) && (x == 0 || StrNCaseEqual(a, b, n, i + 1))
  }

  /** A string pattern free of NULs is compared as a prefix, and never beyond the end of the content. */
  lemma {:induction false} StrNCaseEqualIsPrefix(e: MagicNumber, content: seq<byte>, i: nat)
    requires e.isString && i <= |e.magic| && i <= |content| && '\0' !in e.magic
    requires forall j | 0 <= j < i :: Agrees(e, j, content[j])
    ensures StrNCaseEqual(e.magic, content, |e.magic|, i) <==> Matches(e, content)
    decreases |e.magic| - i
  {
    if i < |e.magic| {
      assert e.magic[i] in e.magic;
      assert e.magic[i] as int != 0;
      if i < |content| && Agrees(e, i, content[i]) {
        StrNCaseEqualIsPrefix(e, content, i + 1);
      }
    }
  }

  /** A NUL in the content never agrees with a string pattern. */
  lemma MatchStopsAtNul(e: MagicNumber, content: seq<byte>, strlen: nat)
    requires e.isString && '\0' !in e.magic && strlen < |content| && content[strlen] == 0
    requires Matches(e, content)
    ensures |e.magic| <= strlen
  {
    forall j | 0 <= j < |e.magic| ensures content[j] != 0 {
      assert Agrees(e, j, content[j]) && e.magic[j] in e.magic;
    }
  }

  // Matching

  method MatchMagicNumber(content: array<byte>, pos: nat, size: nat, entry: MagicNumber, result: MimeType)
    returns (matched: bool)
    requires pos + size <= content.Length
    requires entry.isString ==> '\0' !in entry.magic
    modifies result
    ensures matched <==> Matches(entry, content[pos..pos + size])
    ensures result.value == if matched then entry.mimeType else old(result.value)
  {
    var len := |entry.magic|;
    var text := content[pos..pos + size];
    var end := Memchr(content, pos, 0, pos + size);
    var contentStrlen := if end.Some? then end.value - pos else size;
    matched := false;
    if entry.isString {
      if contentStrlen >= len {
        matched := StrNCaseEqual(entry.magic, text, len);
      }
      StrNCaseEqualIsPrefix(entry, text, 0);
      if contentStrlen < size && Matches(entry, text) {
        MatchStopsAtNul(entry, text, contentStrlen);
      }
    } else {
      if size >= len {
        matched := forall i | 0 <= i < len :: text[i] == entry.magic[i] as int;
      }
    }
    if matched {
      result.value := entry.mimeType;
    }
  }

  predicate NulFree(table: seq<MagicNumber>) {
    forall k | 0 <= k < |table| :: table[k].isString ==> '\0' !in table[k].magic
  }

  method CheckForMagicNumbers(content: array<byte>, pos: nat, size: nat, magic: seq<MagicNumber>, result: MimeType)
    returns (found: bool)
    requires pos + size <= content.Length
    requires NulFree(magic)
    modifies result
    ensures var t := TypeOf(content[pos..pos + size], magic);
            found == t.Some? && result.value == if found then t.value else old(result.value)
  {
    ghost var text := content[pos..pos + size];
    for i := 0 to |magic|
      invariant FirstMatch(text, magic) == FirstMatch(text, magic, i)
      invariant result.value == old(result.value)
    {
      var hit := MatchMagicNumber(content, pos, size, magic[i], result);
      if hit {
        return true;
      }
    }
    return false;
  }

  lemma TablesAreNulFree()
    ensures NulFree(MAGIC_NUMBERS) && NulFree(SNIFFABLE_TAGS) && NulFree(MAGIC_XML) && NulFree(BYTE_ORDER_MARKS)
  {
    forall k | 0 <= k < |MAGIC_NUMBERS| ensures !MAGIC_NUMBERS[k].isString { MagicNumberShape(k); }
    forall k | 0 <= k < |BYTE_ORDER_MARKS| ensures !BYTE_ORDER_MARKS[k].isString { ByteOrderMarkShape(k); }
    forall k | 0 <= k < |SNIFFABLE_TAGS| ensures '\0' !in SNIFFABLE_TAGS[k].magic { SniffableTagShape(k); }
    forall k | 0 <= k < |MAGIC_XML| ensures '\0' !in MAGIC_XML[k].magic {
      MagicXmlShape(k);
      forall i | 0 < i < |MAGIC_XML[k].magic| ensures MAGIC_XML[k].magic[i] != '\0' { MagicXmlText(k, i); }
    }
  }

  // The phases

  method SniffForHTML(content: array<byte>, size: nat, result: MimeType) returns (found: bool)
    requires size <= content.Length
    modifies result
    ensures var t := HtmlType(content[..size]);
            found == t.Some? && result.value == if found then t.value else old(result.value)
  {
    hide TypeOf, FirstMatch;
    var pos := 0;
    while pos < size
      invariant 0 <= pos <= size
      invariant SkipWhitespace(content[..size]) == SkipWhitespace(content[..size], pos)
    {
      if !IsAsciiWhitespace(content[pos]) {
        break;
      }
      pos := pos + 1;
    }
    TablesAreNulFree();
    assert content[..size][pos..] == content[pos..pos + (size - pos)];
    found := CheckForMagicNumbers(content, pos, size - pos, SNIFFABLE_TAGS, result);
  }

  method SniffForMagicNumbers(content: array<byte>, size: nat, result: MimeType) returns (found: bool)
    requires size <= content.Length
    modifies result
    ensures var t := MagicType(content[..size]);
            found == t.Some? && result.value == if found then t.value else old(result.value)
  {
    TablesAreNulFree();
    found := CheckForMagicNumbers(content, 0, size, MAGIC_NUMBERS, result);
    assert content[0..0 + size] == content[..size];
  }

  lemma DeclarationTests(text: seq<byte>)
    ensures IsDeclaration(text) <==> StrNCaseEqual("<?xml", text, 5) || StrNCaseEqual("<!DOCTYPE", text, 9)
  {
    StrNCaseEqualIsPrefix(XML_DECLARATION, text, 0);
    StrNCaseEqualIsPrefix(DOCTYPE_DECLARATION, text, 0);
  }

  method SniffXML(content: array<byte>, size: nat, result: MimeType) returns (enough: bool)
    requires size <= content.Length
    modifies result
    ensures Verdict(enough, result.value) == SniffXml(old(result.value), content[..size])
  {
    hide XmlScan, Find, IsDeclaration, StrNCaseEqual, TypeOf, FirstMatch;
    ghost var text := content[..size];
    var end := if size < FEED_ALLOWED_HEADER_BYTES then size else FEED_ALLOWED_HEADER_BYTES;
    var pos := 0;
    var i := 0;
    assert Header(text) == content[..end];
    assert NulFree(MAGIC_XML) by {
      TablesAreNulFree();
    }
    while i < MAX_TAG_ITERATIONS && pos < end
      invariant 0 <= i <= MAX_TAG_ITERATIONS && pos <= end
      invariant text == content[..size] && Header(text) == content[..end]
      invariant XmlScan(text) == XmlScan(text, pos, i)
      invariant result.value == old(result.value)
    {
      XmlScanTurn(text, pos, i, Find(Header(text), LESS_THAN, pos));
      var tag := Memchr(content, pos, LESS_THAN, end);
      if tag.None? {
        return false;
      }
      pos := tag.value;
      assert content[pos..size] == text[pos..];
      DeclarationTests(text[pos..]);
      if StrNCaseEqual("<?xml", content[pos..size], 5) {
        pos, i := pos + 1, i + 1;
        continue;
      } else if StrNCaseEqual("<!DOCTYPE", content[pos..size], 9) {
        pos, i := pos + 1, i + 1;
        continue;
      }
      assert content[pos..pos + (end - pos)] == Header(text)[pos..];
      var found := CheckForMagicNumbers(content, pos, end - pos, MAGIC_XML, result);
      if found {
        return true;
      }
      return true;
    }
    XmlScanEnds(text, pos, i);
    return pos < end;
  }

  // named apart from the specification predicate LooksBinary, which it computes
  method ScanForBinary(content: array<byte>, size: nat) returns (binary: bool)
    requires size <= content.Length
    ensures binary <==> LooksBinary(content[..size])
  {
    var unused := new MimeType("");
    TablesAreNulFree();
    assert content[0..0 + size] == content[..size];
    var marked := CheckForMagicNumbers(content, 0, size, BYTE_ORDER_MARKS, unused);
    if marked {
      return false;
    }
    for i := 0 to size
      invariant forall j | 0 <= j < i :: !ByteLooksBinary(content[j])
    {
      if ByteLooksBinary(content[i]) {
        assert content[..size][i] == content[i];
        return true;
      }
    }
    return false;
  }

  // named apart from the predicate IsUnknownMimeType, which it computes
  method CheckUnknownMimeType(mimeType: string) returns (unknown: bool)
    ensures unknown <==> IsUnknownMimeType(mimeType)
  {
    for i := 0 to |UNKNOWN_MIME_TYPES|
      invariant forall j | 0 <= j < i :: mimeType != UNKNOWN_MIME_TYPES[j]
    {
      if mimeType == UNKNOWN_MIME_TYPES[i] {
        return true;
      }
    }
    return '/' !in mimeType;
  }

  method SniffMimeType(content: array<byte>, contentSize: nat, typeHint: string, result: MimeType)
    returns (enough: bool)
    requires contentSize <= content.Length
    modifies result
    ensures Verdict(enough, result.value) == Sniff(typeHint, content[..contentSize])
  {
    result.value := typeHint;
    var haveEnoughContent := contentSize >= BYTES_REQUIRED_FOR_MAGIC;
    var size := contentSize;
    if size > MAX_BYTES_TO_SNIFF {
      size := MAX_BYTES_TO_SNIFF;
    }
    assert Take(content[..contentSize], MAX_BYTES_TO_SNIFF) == content[..size];

    var hintIsUnknownMimeType := CheckUnknownMimeType(typeHint);
    if hintIsUnknownMimeType {
      var html := SniffForHTML(content, size, result);
      if html {
        return true;
      }
    }

    var hintIsTextPlain := typeHint == TEXT_PLAIN;
    var looksBinary := ScanForBinary(content, size);
    if hintIsTextPlain && !looksBinary {
      result.value := TEXT_PLAIN;
      return haveEnoughContent;
    }

    if typeHint == TEXT_XML || typeHint == APPLICATION_XML {
      var xml := SniffXML(content, size, result);
      if xml {
        return true;
      }
      return size >= MAX_BYTES_TO_SNIFF;
    }

    var magic := SniffForMagicNumbers(content, size, result);
    if magic {
      return true;
    }

    if hintIsUnknownMimeType || hintIsTextPlain {
      if looksBinary {
        result.value := OCTET_STREAM;
      } else {
        result.value := TEXT_PLAIN;
      }
      return size >= MAX_BYTES_TO_SNIFF;
    }
    return haveEnoughContent;
  }
}
