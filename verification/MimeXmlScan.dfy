/** The XML scan on a prefix of the content, compared with the same scan on all of it. */
module MimeXmlScan {
  import opened Basics
  import opened MimeTables
  import opened MimeMatching
  import opened MimeSpec
  import opened MimeOrder

  /** The scan never looks at or beyond this byte: a declaration that starts at byte 299 ends here. */
  const SCAN_REACH: nat := 308

  // What the scan looks for

  /** How many tags open in content[from..to]. */
  function Tags(content: seq<byte>, from: nat, to: nat): nat
    requires from <= to <= |content|
    decreases |content| - from
  {
    if from == to then 0 else (if content[from] == LESS_THAN then 1 else 0) + Tags(content, from + 1, to)
  }

  lemma {:induction false} NoTags(content: seq<byte>, from: nat, mid: nat, to: nat)
    requires from <= mid <= to <= |content| && forall i | from <= i < mid :: content[i] != LESS_THAN
    ensures Tags(content, from, to) == Tags(content, mid, to)
    decreases mid - from
  {
    if from < mid {
      NoTags(content, from + 1, mid, to);
    }
  }

  /** The tag at `tag` is the first from `from` on that opens no declaration, and at most `limit` others precede it. */
  predicate FirstPlainTag(content: seq<byte>, from: nat, tag: nat, limit: nat)
    requires from <= |content|
  {
    && from <= tag < |Header(content)|
    && content[tag] == LESS_THAN && !IsDeclaration(content[tag..])
    && (forall i | from <= i < tag && content[i] == LESS_THAN :: IsDeclaration(content[i..]))
    && Tags(content, from, tag) < limit
  }

  lemma {:induction false} ScanFindsPlainTag(content: seq<byte>, pos: nat, round: nat, tag: nat)
    requires pos <= |Header(content)| && round <= MAX_TAG_ITERATIONS
    ensures var s := XmlScan(content, pos, round);
            (s.Feed? || s.Rejected?) && s.pos == tag <==>
            FirstPlainTag(content, pos, tag, MAX_TAG_ITERATIONS - round)
    decreases |content| - pos
  {
    hide XmlScan, IsDeclaration, TypeOf;
    if round == MAX_TAG_ITERATIONS || pos == |Header(content)| {
      XmlScanEnds(content, pos, round);
    } else {
      var next := Find(Header(content), LESS_THAN, pos);
      XmlScanTurn(content, pos, round, next);
      if next < |Header(content)| {
        assert content[next] == LESS_THAN;
        if IsDeclaration(content[next..]) {
          ScanFindsPlainTag(content, next + 1, round + 1, tag);
          if next < tag <= |content| {
            NoTags(content, pos, next, tag);
          }
        } else if pos <= tag <= next {
          NoTags(content, pos, tag, tag);
        }
      }
    }
  }

  /** The scan decides on the first plain tag within 300 bytes, if fewer than five declarations come before it. */
  lemma ScanDecidesOnFirstPlainTag(content: seq<byte>, tag: nat)
    ensures var s := XmlScan(content);
            (s.Feed? || s.Rejected?) && s.pos == tag <==>
            && tag < |content| && tag < 300
            && content[tag] == LESS_THAN && !IsDeclaration(content[tag..])
            && (forall i | 0 <= i < tag && content[i] == LESS_THAN :: IsDeclaration(content[i..]))
            && Tags(content, 0, tag) < 5
  {
    hide XmlScan, IsDeclaration, Tags;
    ScanFindsPlainTag(content, 0, 0, tag);
  }

  /** It finds there the type of the opening tag that fits into the 300 bytes, if it is one of the three. */
  lemma FirstPlainTagType(content: seq<byte>)
    requires var s := XmlScan(content); s.Feed? || s.Rejected?
    ensures var s := XmlScan(content);
            var rest := content[s.pos..if |content| <= 300 then |content| else 300];
            && (s.Rejected? <==> forall k | 0 <= k < |MAGIC_XML| :: !Matches(MAGIC_XML[k], rest))
            && forall k | 0 <= k < |MAGIC_XML| && Matches(MAGIC_XML[k], rest) ::
                 s.Feed? && s.mimeType == MAGIC_XML[k].mimeType
  {
    hide XmlScan, IsDeclaration, Matches;
    var t, round := XmlScan(content).pos, XmlScan(content).round;
    ScanResumes(content, content, 0, 0);
    var rest := Header(content)[t..];
    assert rest == content[t..if |content| <= 300 then |content| else 300];
    assert Find(Header(content), LESS_THAN, t) == t;
    XmlScanTurn(content, t, round, t);
    forall k | 0 <= k < |MAGIC_XML| && Matches(MAGIC_XML[k], rest)
      ensures TypeOf(rest, MAGIC_XML) == Some(MAGIC_XML[k].mimeType)
    {
      XmlTagsAgree(rest, k, FirstMatch(rest, MAGIC_XML));
    }
  }

  /** The tag at `tag` is the last of `limit` declarations, all the tags from `from` on, and more header follows. */
  predicate LastDeclaration(content: seq<byte>, from: nat, tag: nat, limit: nat)
    requires from <= |content|
  {
    && from <= tag && tag + 1 < |Header(content)|
    && content[tag] == LESS_THAN
    && (forall i | from <= i <= tag && content[i] == LESS_THAN :: IsDeclaration(content[i..]))
    && Tags(content, from, tag) == limit - 1
  }

  lemma LastIsNext(content: seq<byte>, pos: nat, next: nat, tag: nat, limit: nat)
    requires pos <= next < |Header(content)| && content[next] == LESS_THAN && IsDeclaration(content[next..])
    requires forall i | pos <= i < next :: content[i] != LESS_THAN
    ensures LastDeclaration(content, pos, tag, limit) <==>
            if tag == next then limit == 1 && next + 1 < |Header(content)|
            else next < tag && limit > 1 && LastDeclaration(content, next + 1, tag, limit - 1)
  {
    hide IsDeclaration;
    if next <= tag < |Header(content)| {
      NoTags(content, pos, next, tag);
    }
  }

  lemma {:induction false} ScanEndsAtDeclaration(content: seq<byte>, pos: nat, round: nat, limit: nat)
    requires pos <= |Header(content)| && limit > 0 && round + limit == MAX_TAG_ITERATIONS
    ensures XmlScan(content, pos, round) == Exhausted(true) <==>
            exists tag: nat :: LastDeclaration(content, pos, tag, limit)
    decreases |content| - pos
  {
    hide XmlScan, IsDeclaration, TypeOf;
    if pos == |Header(content)| {
      XmlScanEnds(content, pos, round);
    } else {
      var next := Find(Header(content), LESS_THAN, pos);
      XmlScanTurn(content, pos, round, next);
      if next < |Header(content)| && IsDeclaration(content[next..]) {
        forall tag: nat
          ensures LastDeclaration(content, pos, tag, limit) <==>
                  if tag == next then limit == 1 && next + 1 < |Header(content)|
                  else next < tag && limit > 1 && LastDeclaration(content, next + 1, tag, limit - 1)
        {
          LastIsNext(content, pos, next, tag, limit);
        }
        if limit == 1 {
          XmlScanEnds(content, next + 1, round + 1);
          assert LastDeclaration(content, pos, next, 1) <==> next + 1 < |Header(content)|;
        } else {
          var after, left := next + 1, limit - 1;
          ScanEndsAtDeclaration(content, after, round + 1, left);
          assert !LastDeclaration(content, pos, next, limit);
          if tag: nat :| LastDeclaration(content, after, tag, left) {
            assert LastDeclaration(content, pos, tag, limit);
          }
        }
      }
    }
  }

  /** The scan gives up, with more header to look at, after exactly five declarations and no other tag. */
  lemma ScanGivesUpAfterFive(content: seq<byte>)
    ensures XmlScan(content) == Exhausted(true) <==>
            exists tag: nat ::
              && tag + 1 < |content| && tag + 1 < 300
              && content[tag] == LESS_THAN
              && (forall i | 0 <= i <= tag && content[i] == LESS_THAN :: IsDeclaration(content[i..]))
              && Tags(content, 0, tag) == 4
  {
    hide XmlScan, IsDeclaration, Tags;
    ScanEndsAtDeclaration(content, 0, 0, MAX_TAG_ITERATIONS);
    if tag: nat :|
      && tag + 1 < |content| && tag + 1 < 300
      && content[tag] == LESS_THAN
      && (forall i | 0 <= i <= tag && content[i] == LESS_THAN :: IsDeclaration(content[i..]))
      && Tags(content, 0, tag) == 4
    {
      assert LastDeclaration(content, 0, tag, MAX_TAG_ITERATIONS);
    }
  }

  function Blanks(n: nat): (p: seq<byte>)
    ensures |p| == n && forall i | 0 <= i < n :: p[i] == 0x20
  {
    if n == 0 then [] else Blanks(n - 1) + [0x20]
  }

  const DOCTYPE_TEXT: seq<byte> := [0x3C, 0x21, 0x44, 0x4F, 0x43, 0x54, 0x59, 0x50, 0x45]

  lemma TagAtTheEdge(text: seq<byte>)
    requires text != [] && text[0] == LESS_THAN
    ensures var content := Blanks(299) + text;
            Find(Header(content), LESS_THAN) == 299 && content[299..] == text && Header(content)[299..] == [LESS_THAN]
  {
    hide Blanks;
    var content := Blanks(299) + text;
    assert forall i | 0 <= i < 299 :: Header(content)[i] == 0x20;
    assert Header(content)[299] == LESS_THAN;
    assert |Header(content)| == 300;
  }

  lemma OneByteIsNoFeed()
    ensures TypeOf([LESS_THAN], MAGIC_XML).None?
  {
    forall k | 0 <= k < |MAGIC_XML| ensures !Matches(MAGIC_XML[k], [LESS_THAN]) {
      MagicXmlShape(k);
    }
  }

  /** The reach of 308 bytes is exact: a declaration at byte 299 is not recognised one byte earlier. */
  lemma ReachIsExact()
    ensures XmlScan(Blanks(299) + DOCTYPE_TEXT) == Exhausted(false)
    ensures XmlScan(Blanks(299) + DOCTYPE_TEXT[..8]) == Rejected(299, 0)
    ensures |Blanks(299) + DOCTYPE_TEXT| == SCAN_REACH
  {
    hide XmlScan, Blanks, TypeOf, Find;
    var whole, cut := Blanks(299) + DOCTYPE_TEXT, Blanks(299) + DOCTYPE_TEXT[..8];
    TagAtTheEdge(DOCTYPE_TEXT);
    assert Matches(DOCTYPE_DECLARATION, DOCTYPE_TEXT);
    XmlScanTurn(whole, 0, 0, 299);
    XmlScanEnds(whole, 300, 1);
    TagAtTheEdge(DOCTYPE_TEXT[..8]);
    assert !Agrees(XML_DECLARATION, 1, DOCTYPE_TEXT[..8][1]);
    OneByteIsNoFeed();
    XmlScanTurn(cut, 0, 0, 299);
  }

  // The scan of a prefix

  lemma FindStable(p: seq<byte>, q: seq<byte>, b: byte, pos: nat)
    requires p <= q && pos <= |p|
    ensures Find(p, b, pos) < |p| ==> Find(q, b, pos) == Find(p, b, pos)
    ensures Find(p, b, pos) == |p| ==> Find(q, b, pos) >= |p|
  {
    var i := Find(p, b, pos);
    assert forall j | pos <= j < i :: q[j] != b;
  }

  lemma HeaderGrows(p: seq<byte>, q: seq<byte>)
    requires p <= q
    ensures Header(p) <= Header(q) <= q
  {}

  lemma DeclarationGrows(p: seq<byte>, q: seq<byte>, tag: nat)
    requires p <= q && tag <= |p|
    ensures p[tag..] <= q[tag..]
    ensures IsDeclaration(p[tag..]) ==> IsDeclaration(q[tag..])
  {
    MatchGrows(XML_DECLARATION, p[tag..], q[tag..]);
    MatchGrows(DOCTYPE_DECLARATION, p[tag..], q[tag..]);
  }

  /** A tag that ends the scan of `p` is reached, in the same round, by the scan of every extension. */
  lemma {:induction false} ScanResumes(p: seq<byte>, q: seq<byte>, pos: nat, round: nat)
    requires p <= q && pos <= |Header(p)|
    requires var s := XmlScan(p, pos, round); s.Feed? || s.Rejected?
    ensures var s := XmlScan(p, pos, round);
            s.pos < |Header(p)| <= |Header(q)| && XmlScan(q, pos, round) == XmlScan(q, s.pos, s.round)
    decreases |p| - pos
  {
    hide XmlScan, IsDeclaration, TypeOf;
    HeaderGrows(p, q);
    if round >= MAX_TAG_ITERATIONS || pos == |Header(p)| {
      XmlScanEnds(p, pos, round);
      assert false;
    }
    var tag := Find(Header(p), LESS_THAN, pos);
    FindStable(Header(p), Header(q), LESS_THAN, pos);
    XmlScanTurn(p, pos, round, tag);
    XmlScanTurn(q, pos, round, tag);
    DeclarationGrows(p, q, tag);
    if IsDeclaration(p[tag..]) {
      ScanResumes(p, q, tag + 1, round + 1);
    } else {
      XmlScanTurn(q, tag, round, tag);
    }
  }

  /** Five declarations followed by more header stay so. */
  lemma {:induction false} ExhaustedStable(p: seq<byte>, q: seq<byte>, pos: nat, round: nat)
    requires p <= q && pos <= |Header(p)|
    requires XmlScan(p, pos, round) == Exhausted(true)
    ensures XmlScan(q, pos, round) == Exhausted(true)
    decreases |p| - pos
  {
    hide XmlScan, IsDeclaration, TypeOf;
    HeaderGrows(p, q);
    if round >= MAX_TAG_ITERATIONS || pos == |Header(p)| {
      XmlScanEnds(p, pos, round);
      XmlScanEnds(q, pos, round);
    } else {
      var tag := Find(Header(p), LESS_THAN, pos);
      FindStable(Header(p), Header(q), LESS_THAN, pos);
      XmlScanTurn(p, pos, round, tag);
      XmlScanTurn(q, pos, round, tag);
      DeclarationGrows(p, q, tag);
      ExhaustedStable(p, q, tag + 1, round + 1);
    }
  }

  /** The scan is local: content that agrees on the first 308 bytes is scanned alike. */
  lemma {:induction false} ScanIsLocal(p: seq<byte>, q: seq<byte>, pos: nat, round: nat)
    requires p <= q && SCAN_REACH <= |p| && pos <= |Header(p)|
    ensures XmlScan(q, pos, round) == XmlScan(p, pos, round)
    decreases |p| - pos
  {
    hide XmlScan, TypeOf;
    assert Header(p) == Header(q);
    var header := Header(p);
    if round >= MAX_TAG_ITERATIONS || pos == |header| {
      XmlScanEnds(p, pos, round);
      XmlScanEnds(q, pos, round);
    } else {
      var tag := Find(header, LESS_THAN, pos);
      XmlScanTurn(p, pos, round, tag);
      XmlScanTurn(q, pos, round, tag);
      if tag < |header| {
        DeclarationGrows(p, q, tag);
        MatchGrows(XML_DECLARATION, p[tag..], q[tag..]);
        MatchGrows(DOCTYPE_DECLARATION, p[tag..], q[tag..]);
        ScanIsLocal(p, q, tag + 1, round + 1);
      }
    }
  }

  lemma SniffXmlIsLocal(hint: string, p: seq<byte>, q: seq<byte>)
    requires Take(p, SCAN_REACH) == Take(q, SCAN_REACH)
    ensures SniffXml(hint, p) == SniffXml(hint, q)
  {
    var r := Take(p, SCAN_REACH);
    if |r| == SCAN_REACH {
      ScanIsLocal(r, p, 0, 0);
      ScanIsLocal(r, q, 0, 0);
    } else {
      assert p == r == q;
    }
  }

  // Positive matches

  lemma FeedTagIsNoDeclaration(content: seq<byte>, k: nat)
    requires k < |MAGIC_XML| && Matches(MAGIC_XML[k], content)
    ensures !IsDeclaration(content)
  {
    MagicXmlShape(k);
    assert Agrees(MAGIC_XML[k], 1, content[1]);
    assert !Agrees(XML_DECLARATION, 1, content[1]) && !Agrees(DOCTYPE_DECLARATION, 1, content[1]);
  }

  /** A recognised opening tag is final, however many declarations came before it. */
  lemma FeedIsFinal(p: seq<byte>, q: seq<byte>)
    requires p <= q && XmlScan(p).Feed?
    ensures XmlScan(q) == XmlScan(p)
  {
    ScanResumes(p, q, 0, 0);
    var t, round := XmlScan(p).pos, XmlScan(p).round;
    assert XmlScan(p) == XmlScan(p, t, round) by {
      ScanResumes(p, p, 0, 0);
    }
    HeaderGrows(p, q);
    var a, b := Header(p)[t..], Header(q)[t..];
    assert a <= b <= q[t..];
    var k := FirstMatch(a, MAGIC_XML);
    assert Find(Header(p), LESS_THAN, t) == t == Find(Header(q), LESS_THAN, t);
    MatchGrows(MAGIC_XML[k], a, b);
    MatchGrows(MAGIC_XML[k], b, q[t..]);
    FeedTagIsNoDeclaration(q[t..], k);
    XmlTagsAgree(b, k, FirstMatch(b, MAGIC_XML));
  }

  // Rejected tags

  /** The rejected tag may still become a declaration whose skipping makes a difference. */
  predicate MayBecomeDeclaration(content: seq<byte>, pos: nat, round: nat)
    requires pos <= |content|
  {
    (Partial(XML_DECLARATION, content[pos..]) || Partial(DOCTYPE_DECLARATION, content[pos..])) &&
    (round + 1 < MAX_TAG_ITERATIONS || pos + 1 == FEED_ALLOWED_HEADER_BYTES)
  }

  /** The rejected tag may still become a recognised opening tag within the first 300 bytes. */
  predicate MayBecomeFeed(content: seq<byte>, pos: nat)
    requires pos <= |content|
  {
    exists k | 0 <= k < |MAGIC_XML| ::
      Partial(MAGIC_XML[k], content[pos..]) && pos + |MAGIC_XML[k].magic| <= FEED_ALLOWED_HEADER_BYTES
  }

  /** The scan of `p` rejects the tag at s.pos in round s.round. */
  lemma RejectedTag(p: seq<byte>)
    requires XmlScan(p).Rejected?
    ensures var t, round := XmlScan(p).pos, XmlScan(p).round;
            && t < |Header(p)| && XmlScan(p) == XmlScan(p, t, round)
            && !IsDeclaration(p[t..]) && TypeOf(Header(p)[t..], MAGIC_XML).None?
  {
    ScanResumes(p, p, 0, 0);
    var t := XmlScan(p).pos;
    assert Find(Header(p), LESS_THAN, t) == t;
  }

  lemma RejectedStable(hint: string, p: seq<byte>, q: seq<byte>)
    requires p <= q && XmlScan(p).Rejected?
    requires !MayBecomeDeclaration(p, XmlScan(p).pos, XmlScan(p).round) && !MayBecomeFeed(p, XmlScan(p).pos)
    ensures SniffXml(hint, q) == SniffXml(hint, p)
  {
    var t, round := XmlScan(p).pos, XmlScan(p).round;
    RejectedTag(p);
    ScanResumes(p, q, 0, 0);
    HeaderGrows(p, q);
    assert Find(Header(q), LESS_THAN, t) == t;
    DeclarationGrows(p, q, t);
    MatchGrows(XML_DECLARATION, p[t..], q[t..]);
    MatchGrows(DOCTYPE_DECLARATION, p[t..], q[t..]);
    if IsDeclaration(q[t..]) {
      assert XmlScan(q, t, round) == XmlScan(q, t + 1, round + 1) == Exhausted(true);
    } else {
      NoLateFeed(p, q, t);
    }
  }

  lemma NoLateFeed(p: seq<byte>, q: seq<byte>, t: nat)
    requires p <= q && t < |Header(p)| && TypeOf(Header(p)[t..], MAGIC_XML).None? && !MayBecomeFeed(p, t)
    ensures t < |Header(q)| && TypeOf(Header(q)[t..], MAGIC_XML).None?
  {
    HeaderGrows(p, q);
    var a, b := Header(p)[t..], Header(q)[t..];
    forall k | 0 <= k < |MAGIC_XML| ensures !Matches(MAGIC_XML[k], b) {
      MatchGrows(MAGIC_XML[k], a, b);
      assert |p| <= FEED_ALLOWED_HEADER_BYTES ==> a == p[t..];
    }
  }
}
