/** How much the order of the tables, and of the two table phases, matters. */
module MimeOrder {
  import opened Basics
  import opened MimeTables
  import opened MimeMatching
  import opened MimeSpec

  // The order of the entries

  /** Two magic numbers match the same content only if one is PostScript and the other its prefix "%!". */
  lemma TwoMagicNumbersMatch(content: seq<byte>, k: nat, l: nat)
    requires k < |MAGIC_NUMBERS| && l < |MAGIC_NUMBERS|
    requires Matches(MAGIC_NUMBERS[k], content) && Matches(MAGIC_NUMBERS[l], content)
    ensures k == l || {k, l} == {POSTSCRIPT, PERCENT_SCRIPT}
  {
    MagicNumberShape(k);
    MagicNumberShape(l);
    assert Agrees(MAGIC_NUMBERS[k], 0, content[0]) && Agrees(MAGIC_NUMBERS[k], 1, content[1]);
    assert Agrees(MAGIC_NUMBERS[l], 0, content[0]) && Agrees(MAGIC_NUMBERS[l], 1, content[1]);
    assert Slot(content[0], content[1]) == if k == 3 then 2 else if k == PERCENT_SCRIPT then POSTSCRIPT else k;
    assert Slot(content[0], content[1]) == if l == 3 then 2 else if l == PERCENT_SCRIPT then POSTSCRIPT else l;
    if {k, l} == {2, 3} {
      GifVersions();
      assert Agrees(MAGIC_NUMBERS[k], 4, content[4]) && Agrees(MAGIC_NUMBERS[l], 4, content[4]);
    }
  }

  lemma GifVersions()
    ensures |MAGIC_NUMBERS[2].magic| == |MAGIC_NUMBERS[3].magic| == 6
    ensures MAGIC_NUMBERS[2].magic[4] == '7' && MAGIC_NUMBERS[3].magic[4] == '9'
  {}

  lemma PostScriptEntries()
    ensures MAGIC_NUMBERS[POSTSCRIPT] == MagicBytes("application/postscript", "%!PS-Adobe-")
    ensures MAGIC_NUMBERS[PERCENT_SCRIPT] == MagicBytes(TEXT_PLAIN, "%!")
  {}

  /** First match is longest match: no magic number that the content also matches is longer. */
  lemma FirstMatchIsLongest(content: seq<byte>)
    ensures var k := FirstMatch(content, MAGIC_NUMBERS);
            forall l | 0 <= l < |MAGIC_NUMBERS| && Matches(MAGIC_NUMBERS[l], content) ::
              k <= l && |MAGIC_NUMBERS[l].magic| <= |MAGIC_NUMBERS[k].magic|
  {
    var k := FirstMatch(content, MAGIC_NUMBERS);
    forall l | 0 <= l < |MAGIC_NUMBERS| && Matches(MAGIC_NUMBERS[l], content)
      ensures k <= l && |MAGIC_NUMBERS[l].magic| <= |MAGIC_NUMBERS[k].magic|
    {
      TwoMagicNumbersMatch(content, k, l);
      PostScriptEntries();
    }
  }

  /** The same entries, in any order and with any repetitions. */
  ghost predicate SameEntries(t: seq<MagicNumber>, table: seq<MagicNumber>) {
    forall e :: e in t <==> e in table
  }

  /** If all matching entries of a table agree on the type, its order does not matter. */
  lemma OrderIrrelevant(content: seq<byte>, t: seq<MagicNumber>, table: seq<MagicNumber>)
    requires SameEntries(t, table)
    requires forall k, l | 0 <= k < |table| && 0 <= l < |table| &&
                           Matches(table[k], content) && Matches(table[l], content) ::
               table[k].mimeType == table[l].mimeType
    ensures TypeOf(content, t) == TypeOf(content, table)
  {
    var k, l := FirstMatch(content, t), FirstMatch(content, table);
    if k < |t| {
      assert t[k] in table;
      var m :| 0 <= m < |table| && table[m] == t[k];
      assert Matches(table[m], content);
    }
    if l < |table| {
      assert table[l] in t;
      var m :| 0 <= m < |t| && t[m] == table[l];
      assert Matches(t[m], content);
    }
  }

  lemma TagsAgree(content: seq<byte>, k: nat, l: nat)
    requires k < |SNIFFABLE_TAGS| && l < |SNIFFABLE_TAGS|
    requires Matches(SNIFFABLE_TAGS[k], content) && Matches(SNIFFABLE_TAGS[l], content)
    ensures SNIFFABLE_TAGS[k].mimeType == SNIFFABLE_TAGS[l].mimeType ==
            if content[1] == 0x3F then TEXT_XML else TEXT_HTML
  {
    SniffableTagShape(k);
    SniffableTagShape(l);
    assert Agrees(SNIFFABLE_TAGS[k], 1, content[1]) && Agrees(SNIFFABLE_TAGS[l], 1, content[1]);
  }

  lemma XmlTagsAgree(content: seq<byte>, k: nat, l: nat)
    requires k < |MAGIC_XML| && l < |MAGIC_XML|
    requires Matches(MAGIC_XML[k], content) && Matches(MAGIC_XML[l], content)
    ensures k == l
  {
    MagicXmlShape(k);
    MagicXmlShape(l);
    assert Agrees(MAGIC_XML[k], 1, content[1]) && Agrees(MAGIC_XML[l], 1, content[1]);
  }

  lemma TagOrderIrrelevant(content: seq<byte>, t: seq<MagicNumber>)
    requires SameEntries(t, SNIFFABLE_TAGS)
    ensures TypeOf(content, t) == TypeOf(content, SNIFFABLE_TAGS)
  {
    forall k, l | 0 <= k < |SNIFFABLE_TAGS| && 0 <= l < |SNIFFABLE_TAGS| &&
                  Matches(SNIFFABLE_TAGS[k], content) && Matches(SNIFFABLE_TAGS[l], content)
      ensures SNIFFABLE_TAGS[k].mimeType == SNIFFABLE_TAGS[l].mimeType
    {
      TagsAgree(content, k, l);
    }
    OrderIrrelevant(content, t, SNIFFABLE_TAGS);
  }

  lemma XmlTagOrderIrrelevant(content: seq<byte>, t: seq<MagicNumber>)
    requires SameEntries(t, MAGIC_XML)
    ensures TypeOf(content, t) == TypeOf(content, MAGIC_XML)
  {
    forall k, l | 0 <= k < |MAGIC_XML| && 0 <= l < |MAGIC_XML| &&
                  Matches(MAGIC_XML[k], content) && Matches(MAGIC_XML[l], content)
      ensures MAGIC_XML[k].mimeType == MAGIC_XML[l].mimeType
    {
      XmlTagsAgree(content, k, l);
    }
    OrderIrrelevant(content, t, MAGIC_XML);
  }

  const POSTSCRIPT_TEXT: seq<byte> := [0x25, 0x21, 0x50, 0x53, 0x2D, 0x41, 0x64, 0x6F, 0x62, 0x65, 0x2D]

  lemma PostScriptText()
    ensures Matches(MAGIC_NUMBERS[POSTSCRIPT], POSTSCRIPT_TEXT)
    ensures Matches(MAGIC_NUMBERS[PERCENT_SCRIPT], POSTSCRIPT_TEXT)
  {
    PostScriptEntries();
  }

  /** Content that matches two entries of the table matches the entries `a` and `b`, and no third one. */
  ghost predicate OnlyPair(content: seq<byte>, table: seq<MagicNumber>, a: nat, b: nat) {
    forall k, l | 0 <= k < |table| && 0 <= l < |table| && Matches(table[k], content) && Matches(table[l], content) ::
      k == l || {k, l} == {a, b}
  }

  lemma MagicNumbersOnlyPair(content: seq<byte>)
    ensures OnlyPair(content, MAGIC_NUMBERS, POSTSCRIPT, PERCENT_SCRIPT)
  {
    forall k, l | 0 <= k < |MAGIC_NUMBERS| && 0 <= l < |MAGIC_NUMBERS| &&
                  Matches(MAGIC_NUMBERS[k], content) && Matches(MAGIC_NUMBERS[l], content)
      ensures k == l || {k, l} == {POSTSCRIPT, PERCENT_SCRIPT}
    {
      TwoMagicNumbersMatch(content, k, l);
    }
  }

  /** Every occurrence of `e` in the table comes after an occurrence of `d`. */
  ghost predicate ComesFirst(d: MagicNumber, e: MagicNumber, t: seq<MagicNumber>) {
    forall j | 0 <= j < |t| && t[j] == e :: exists i | 0 <= i < j :: t[i] == d
  }

  lemma PairOrderSuffices(content: seq<byte>, t: seq<MagicNumber>, table: seq<MagicNumber>, a: nat, b: nat)
    requires SameEntries(t, table) && a < b < |table| && OnlyPair(content, table, a, b)
    requires ComesFirst(table[a], table[b], t)
    ensures TypeOf(content, t) == TypeOf(content, table)
  {
    hide Matches, FirstMatch, SameEntries;
    var k, l := FirstMatch(content, t), FirstMatch(content, table);
    BothFind(content, t, table);
    if k < |t| {
      var m := IndexOfEntry(t, table, k);
      assert l <= m && (m == l || {m, l} == {a, b});
      assert Matches(table[l], content) && forall i | 0 <= i < k :: t[i] != table[l];
    }
  }

  lemma IndexOfEntry(t: seq<MagicNumber>, table: seq<MagicNumber>, k: nat) returns (m: nat)
    requires SameEntries(t, table) && k < |t|
    ensures m < |table| && table[m] == t[k]
  {
    assert t[k] in table;
    m :| 0 <= m < |table| && table[m] == t[k];
  }

  lemma BothFind(content: seq<byte>, t: seq<MagicNumber>, table: seq<MagicNumber>)
    requires SameEntries(t, table)
    ensures FirstMatch(content, t) < |t| <==> FirstMatch(content, table) < |table|
  {
    hide Matches, FirstMatch, SameEntries;
    var k, l := FirstMatch(content, t), FirstMatch(content, table);
    if k < |t| {
      var m := IndexOfEntry(t, table, k);
      assert Matches(table[m], content);
    }
    if l < |table| {
      assert SameEntries(table, t) by {
        SameEntriesSwap(t, table);
      }
      var m := IndexOfEntry(table, t, l);
      assert Matches(t[m], content);
    }
  }

  lemma SameEntriesSwap(t: seq<MagicNumber>, table: seq<MagicNumber>)
    requires SameEntries(t, table)
    ensures SameEntries(table, t)
  {}

  lemma PairOrderNecessary(content: seq<byte>, t: seq<MagicNumber>, table: seq<MagicNumber>, a: nat, b: nat)
    requires SameEntries(t, table) && a < b < |table| && OnlyPair(content, table, a, b)
    requires Matches(table[a], content) && Matches(table[b], content) && table[a].mimeType != table[b].mimeType
    requires !ComesFirst(table[a], table[b], t)
    ensures TypeOf(content, t) != TypeOf(content, table)
  {
    var j :| 0 <= j < |t| && t[j] == table[b] && forall i | 0 <= i < j :: t[i] != table[a];
    var k := FirstMatch(content, t);
    assert Matches(t[j], content);
    assert t[k] in table;
    var m :| 0 <= m < |table| && table[m] == t[k];
    assert Matches(table[m], content);
    assert m == a || m == b;
  }

  /** The one order that matters in kMagicNumbers: a reordering keeps all types exactly if PostScript stays first. */
  lemma MagicNumberOrder(t: seq<MagicNumber>)
    requires SameEntries(t, MAGIC_NUMBERS)
    ensures (forall content: seq<byte> :: TypeOf(content, t) == TypeOf(content, MAGIC_NUMBERS)) <==>
            ComesFirst(MAGIC_NUMBERS[POSTSCRIPT], MAGIC_NUMBERS[PERCENT_SCRIPT], t)
  {
    hide TypeOf, OnlyPair, SameEntries;
    if ComesFirst(MAGIC_NUMBERS[POSTSCRIPT], MAGIC_NUMBERS[PERCENT_SCRIPT], t) {
      forall content: seq<byte> ensures TypeOf(content, t) == TypeOf(content, MAGIC_NUMBERS) {
        MagicNumbersOnlyPair(content);
        PairOrderSuffices(content, t, MAGIC_NUMBERS, POSTSCRIPT, PERCENT_SCRIPT);
      }
    } else {
      PostScriptEntries();
      PostScriptText();
      MagicNumbersOnlyPair(POSTSCRIPT_TEXT);
      PairOrderNecessary(POSTSCRIPT_TEXT, t, MAGIC_NUMBERS, POSTSCRIPT, PERCENT_SCRIPT);
    }
  }

  // The order of the phases

  /** Once a magic number has matched, no continuation of the content can match a sniffable tag. */
  lemma MagicExcludesHtml(p: seq<byte>, q: seq<byte>)
    requires p <= q && MagicType(p).Some?
    ensures HtmlType(q).None?
  {
    var k := FirstMatch(p, MAGIC_NUMBERS);
    MagicNumberShape(k);
    assert Agrees(MAGIC_NUMBERS[k], 0, p[0]);
    assert SkipWhitespace(q) == 0;
    assert q[0..] == q;
    forall l | 0 <= l < |SNIFFABLE_TAGS| ensures !Matches(SNIFFABLE_TAGS[l], q) {
      SniffableTagShape(l);
      assert !Agrees(SNIFFABLE_TAGS[l], 0, q[0]);
    }
  }

  /** The decision for an unknown hint with the magic numbers consulted before the HTML tags. */
  function SniffMagicFirst(hint: string, content: seq<byte>): Verdict
    requires IsUnknownMimeType(hint)
  {
    var window := Take(content, MAX_BYTES_TO_SNIFF);
    if MagicType(window).Some? then Verdict(true, MagicType(window).value)
    else if HtmlType(window).Some? then Verdict(true, HtmlType(window).value)
    else Verdict(|window| >= MAX_BYTES_TO_SNIFF, if LooksBinary(window) then OCTET_STREAM else TEXT_PLAIN)
  }

  lemma PhasesCommute(hint: string, content: seq<byte>)
    requires IsUnknownMimeType(hint)
    ensures SniffMagicFirst(hint, content) == Sniff(hint, content)
  {
    hide HtmlType, MagicType, LooksBinary, SniffXml;
    var window := Take(content, MAX_BYTES_TO_SNIFF);
    if MagicType(window).Some? {
      MagicExcludesHtml(window, window);
    }
    assert !IsXmlHint(hint) && hint != TEXT_PLAIN by {
      KnownHints();
    }
  }

  lemma KnownHints()
    ensures !IsUnknownMimeType(TEXT_PLAIN) && !IsUnknownMimeType(TEXT_HTML) && !IsUnknownMimeType(OCTET_STREAM)
    ensures !IsUnknownMimeType(TEXT_XML) && !IsUnknownMimeType(APPLICATION_XML)
  {
    assert TEXT_PLAIN[4] == '/' && TEXT_HTML[4] == '/' && TEXT_XML[4] == '/';
    assert APPLICATION_XML[11] == '/' && OCTET_STREAM[11] == '/';
    assert OCTET_STREAM[12] == 'o' && APPLICATION_XML[12] == 'x';
  }
}
