/** What it means for content to match an entry, and which entry of a table is found first. */
module MimeMatching {
  import opened Basics
  import opened MimeTables

  // tolower in the C locale
  function Lower(c: int): int {
    if 0x41 <= c <= 0x5A then c + 0x20 else c
  }

  predicate Agrees(e: MagicNumber, i: nat, b: byte)
    requires i < |e.magic|
  {
    if e.isString then Lower(b) == Lower(e.magic[i] as int) else b == e.magic[i] as int
  }

  /** The content is at least as long as the pattern and agrees with all of it. */
  predicate Matches(e: MagicNumber, content: seq<byte>) {
    |e.magic| <= |content| && forall i | 0 <= i < |e.magic| :: Agrees(e, i, content[i])
  }

  /** The content is too short for the pattern but agrees with it so far. */
  predicate Partial(e: MagicNumber, content: seq<byte>) {
    |content| < |e.magic| && forall i | 0 <= i < |content| :: Agrees(e, i, content[i])
  }

  /** The same character, or the two cases of one letter. */
  predicate SameLetter(a: int, b: int) {
    a == b || (0x41 <= a <= 0x5A && b == a + 0x20) || (0x41 <= b <= 0x5A && a == b + 0x20)
  }

  /** String patterns ignore the case of letters and nothing else; other patterns ignore nothing. */
  lemma MatchIgnoresCase(e: MagicNumber, content: seq<byte>)
    ensures Matches(e, content) <==>
            |e.magic| <= |content| &&
            forall i | 0 <= i < |e.magic| ::
              if e.isString then SameLetter(content[i], e.magic[i] as int) else content[i] == e.magic[i] as int
  {
    forall i | 0 <= i < |e.magic| && i < |content|
      ensures Agrees(e, i, content[i]) <==>
              if e.isString then SameLetter(content[i], e.magic[i] as int) else content[i] == e.magic[i] as int
    {}
  }

  /** Index of the first entry from `from` on that the content matches; |table| if there is none. */
  function FirstMatch(content: seq<byte>, table: seq<MagicNumber>, from: nat := 0): (k: nat)
    requires from <= |table|
    ensures from <= k <= |table|
    ensures k < |table| ==> Matches(table[k], content)
    ensures forall j | from <= j < k :: !Matches(table[j], content)
    decreases |table| - from
  {
    if from == |table| || Matches(table[from], content) then from
    else FirstMatch(content, table, from + 1)
  }

  /** The type that a search of the table assigns, if any entry matches. */
  function TypeOf(content: seq<byte>, table: seq<MagicNumber>): Option<string> {
    var k := FirstMatch(content, table);
    if k < |table| then Some(table[k].mimeType) else None
  }

  /** The type is that of the one entry that matches and has no match before it. */
  lemma TypeOfIsFirst(content: seq<byte>, table: seq<MagicNumber>)
    ensures TypeOf(content, table).None? <==> forall k | 0 <= k < |table| :: !Matches(table[k], content)
    ensures forall k | 0 <= k < |table| && Matches(table[k], content) &&
                       (forall j | 0 <= j < k :: !Matches(table[j], content)) ::
              TypeOf(content, table) == Some(table[k].mimeType)
  {
    hide Matches;
  }

  /** More content keeps a match, and can only complete a pattern that was partial before. */
  lemma MatchGrows(e: MagicNumber, p: seq<byte>, q: seq<byte>)
    requires p <= q
    ensures Matches(e, p) ==> Matches(e, q)
    ensures Matches(e, q) ==> Matches(e, p) || Partial(e, p)
  {}

  /** A search whose misses are all final finds the same entry in every extension. */
  lemma FirstMatchStable(table: seq<MagicNumber>, p: seq<byte>, q: seq<byte>)
    requires p <= q
    requires forall j | 0 <= j < FirstMatch(p, table) :: !Partial(table[j], p)
    ensures FirstMatch(q, table) == FirstMatch(p, table)
  {
    var k := FirstMatch(p, table);
    var l := FirstMatch(q, table);
    if l < k {
      MatchGrows(table[l], p, q);
    } else if k < l {
      MatchGrows(table[k], p, q);
    }
  }

  /** kBytesRequiredForMagic is honest: 42 bytes settle every search of every table. */
  lemma EnoughForMagic(table: seq<MagicNumber>, p: seq<byte>, q: seq<byte>)
    requires table in {MAGIC_NUMBERS, SNIFFABLE_TAGS, MAGIC_XML, BYTE_ORDER_MARKS}
    requires p <= q && BYTES_REQUIRED_FOR_MAGIC <= |p|
    ensures TypeOf(q, table) == TypeOf(p, table)
  {
    forall j | 0 <= j < |table| ensures !Partial(table[j], p) {
      EntriesAreShort(table, j);
    }
    FirstMatchStable(table, p, q);
  }

  /** 42 is not more than needed: that is the length of the longest entry. */
  lemma BytesRequiredAreNeeded()
    ensures BYTES_REQUIRED_FOR_MAGIC == 42 == |MAGIC_XML[0].magic|
  {}

  lemma EntriesAreShort(table: seq<MagicNumber>, k: nat)
    requires table in {MAGIC_NUMBERS, SNIFFABLE_TAGS, MAGIC_XML, BYTE_ORDER_MARKS} && k < |table|
    ensures 2 <= |table[k].magic| <= BYTES_REQUIRED_FOR_MAGIC
  {
    if table == MAGIC_NUMBERS {
      MagicNumberShape(k);
    } else if table == SNIFFABLE_TAGS {
      SniffableTagShape(k);
    } else if table == MAGIC_XML {
      MagicXmlShape(k);
    } else {
      ByteOrderMarkShape(k);
    }
  }
}
