/**
  * Downloads of many web apps, framed as messages by their senders and turned back into files by the storage
  * process: a first message with the name, one message per non-empty chunk, an empty message at the end.
  */
module DownloadFraming {
  import opened Basics

  type Bytes = seq<byte>

  /** A download: the web app that runs it, and its request id there. */
  type Key = (int, int)

  datatype Packet = Packet(webapp: int, reqId: int, data: Bytes) {
    function Key(): Key { (webapp, reqId) }
  }

  /** `buffer` is what the reply holds unread; `received` is all that has ever arrived. */
  datatype Download = Download(name: Bytes, buffer: Bytes, received: Bytes, finished: bool)

  datatype State = State(
    nextId: map<int, int>,  // s_reqId of each web app, 0 at first
    downloads: map<Key, Download>,
    sent: seq<Packet>
  )

  datatype Action =
    | Open(webapp: int, name: Bytes, available: Bytes)  // constructor, for a reply without error
    | OpenInError(webapp: int)                          // constructor, for a reply already in error
    | Arrive(key: Key, data: Bytes)                     // the network appends to the reply
    | ReadyRead(key: Key)
    | Finish(key: Key)

  function Init(): State {
    State(map[], map[], [])
  }

  function NextId(s: State, webapp: int): int {
    if webapp in s.nextId then s.nextId[webapp] else 0
  }

  predicate Running(s: State, key: Key) {
    key in s.downloads && !s.downloads[key].finished
  }

  predicate Enabled(s: State, a: Action) {
    match a
    case Open(_, name, _) => name != []
    case OpenInError(_) => true
    case Arrive(key, _) => Running(s, key)
    case ReadyRead(key) => Running(s, key)
    case Finish(key) => Running(s, key)
  }

  // the messages that downloadReadyRead sends for what it has read
  function Chunk(key: Key, data: Bytes): seq<Packet> {
    if |data| > 0 then [Packet(key.0, key.1, data)] else []
  }

  function Drain(s: State, key: Key): State
    requires key in s.downloads
  {
    var d := s.downloads[key];
    s.(sent := s.sent + Chunk(key, d.buffer), downloads := s.downloads[key := d.(buffer := [])])
  }

  function Start(s: State, webapp: int, name: Bytes, available: Bytes): State {
    var key := (webapp, NextId(s, webapp));
    s.(nextId := s.nextId[webapp := key.1 + 1],
       downloads := s.downloads[key := Download(name, available, available, false)],
       sent := s.sent + [Packet(key.0, key.1, name)])
  }

  function Step(s: State, a: Action): State
    requires Enabled(s, a)
  {
    match a
    case Open(webapp, name, available) =>
      Drain(Start(s, webapp, name, available), (webapp, NextId(s, webapp)))
    case OpenInError(webapp) => s.(nextId := s.nextId[webapp := NextId(s, webapp) + 1])
    case Arrive(key, data) =>
      var d := s.downloads[key];
      s.(downloads := s.downloads[key := d.(buffer := d.buffer + data, received := d.received + data)])
    case ReadyRead(key) => Drain(s, key)
    case Finish(key) =>
      s.(sent := s.sent + [Packet(key.0, key.1, [])],
         downloads := s.downloads[key := s.downloads[key].(finished := true)])
  }

  predicate Legal(s: State, run: seq<Action>)
    decreases |run|
  {
    run == [] || (Enabled(s, run[0]) && Legal(Step(s, run[0]), run[1..]))
  }

  function After(s: State, run: seq<Action>): State
    requires Legal(s, run)
    decreases |run|
  {
    if run == [] then s else After(Step(s, run[0]), run[1..])
  }

  // The receiver

  datatype File = File(name: Bytes, contents: Bytes, open: bool)

  /** How the receiver makes a file name of the first message of a stream. */
  type Decoder = Bytes -> Bytes

  function WriteFile(decode: Decoder, files: map<Key, File>, p: Packet): map<Key, File> {
    var key := p.Key();
    if key !in files then files[key := File(decode(p.data), [], true)]
    else
      var f := files[key];
      if |p.data| > 0 then
        if f.open then files[key := f.(contents := f.contents + p.data)] else files
      else files[key := f.(open := false)]
  }

  function Receive(decode: Decoder, sent: seq<Packet>): map<Key, File> {
    if sent == [] then map[] else WriteFile(decode, Receive(decode, sent[..|sent| - 1]), sent[|sent| - 1])
  }

  // One download's part of the traffic

  function Stream(sent: seq<Packet>, key: Key): seq<Bytes> {
    if sent == [] then []
    else
      var p := sent[|sent| - 1];
      Stream(sent[..|sent| - 1], key) + if p.Key() == key then [p.data] else []
  }

  function Concat(chunks: seq<Bytes>): Bytes {
    if chunks == [] then [] else Concat(chunks[..|chunks| - 1]) + chunks[|chunks| - 1]
  }

  /** The framing: a name, non-empty chunks, and an empty terminator once the download has finished. */
  ghost predicate Framed(stream: seq<Bytes>, name: Bytes, data: Bytes, finished: bool) {
    exists chunks: seq<Bytes> ::
      && stream == [name] + chunks + (if finished then [[]] else [])
      && name != [] && (forall c | c in chunks :: c != [])
      && data == Concat(chunks)
  }

  /** What the receiver makes of one stream by itself: the file of that stream, if it has begun. */
  function Parse(decode: Decoder, stream: seq<Bytes>): Option<File> {
    if stream == [] then None
    else
      var last := stream[|stream| - 1];
      match Parse(decode, stream[..|stream| - 1])
      case None => Some(File(decode(last), [], true))
      case Some(f) =>
        if |last| > 0 then Some(if f.open then f.(contents := f.contents + last) else f)
        else Some(f.(open := false))
  }

  lemma StreamOfSent(sent: seq<Packet>, p: Packet, key: Key)
    ensures Stream(sent + [p], key) == if p.Key() == key then Stream(sent, key) + [p.data] else Stream(sent, key)
  {
    assert (sent + [p])[..|sent|] == sent;
  }

  /** Demultiplexing: however the downloads interleave, each file depends on its own stream alone. */
  lemma {:induction false} ReceiveDemultiplexes(decode: Decoder, sent: seq<Packet>, key: Key)
    ensures (key in Receive(decode, sent)) == Parse(decode, Stream(sent, key)).Some?
    ensures key in Receive(decode, sent) ==> Parse(decode, Stream(sent, key)) == Some(Receive(decode, sent)[key])
    decreases |sent|
  {
    if sent != [] {
      var init, p := sent[..|sent| - 1], sent[|sent| - 1];
      ReceiveDemultiplexes(decode, init, key);
      if p.Key() == key {
        assert Stream(sent, key)[..|Stream(init, key)|] == Stream(init, key);
      } else {
        assert Stream(sent, key) == Stream(init, key);
      }
    }
  }

  /**
    * What any stream means, framed or not: the first message is the name, the messages up to the first empty one are
    * the contents, and nothing that comes after that one changes the file.
    */
  lemma {:induction false} ParseOfStream(decode: Decoder, name: Bytes, body: seq<Bytes>, n: nat)
    requires n <= |body| && (forall i | 0 <= i < n :: body[i] != []) && (n < |body| ==> body[n] == [])
    ensures Parse(decode, [name] + body) == Some(File(decode(name), Concat(body[..n]), n == |body|))
    decreases |body|
  {
    var stream := [name] + body;
    if body == [] {
      assert stream == [name] && stream[..|stream| - 1] == [];
      assert Parse(decode, []) == None;
    } else {
      var k := |body| - 1;
      assert stream[..|stream| - 1] == [name] + body[..k] && stream[|stream| - 1] == body[k];
      if n <= k {
        assert body[..k][..n] == body[..n];
        ParseOfStream(decode, name, body[..k], n);
      } else {
        assert body[..n] == body && body[..k][..k] == body[..k];
        ParseOfStream(decode, name, body[..k], k);
      }
    }
  }

  /** Parsing undoes framing. */
  lemma ParseOfFramed(decode: Decoder, name: Bytes, chunks: seq<Bytes>, finished: bool)
    requires forall c | c in chunks :: c != []
    ensures Parse(decode, [name] + chunks + (if finished then [[]] else [])) ==
            Some(File(decode(name), Concat(chunks), !finished))
  {
    var body := chunks + if finished then [[]] else [];
    assert [name] + chunks + (if finished then [[]] else []) == [name] + body;
    assert body[..|chunks|] == chunks && forall i | 0 <= i < |chunks| :: body[i] in chunks;
    ParseOfStream(decode, name, body, |chunks|);
  }

  // The invariant

  ghost predicate IdsUsed(s: State) {
    forall key | key in s.downloads :: key.1 < NextId(s, key.0)
  }

  ghost predicate StreamOf(s: State, key: Key, data: Bytes)
    requires key in s.downloads
  {
    var d := s.downloads[key];
    d.received == data + d.buffer && Framed(Stream(s.sent, key), d.name, data, d.finished)
  }

  ghost predicate Inv(s: State) {
    && IdsUsed(s)
    && (forall key | key in s.downloads :: exists data :: StreamOf(s, key, data))
    && (forall key | key !in s.downloads :: Stream(s.sent, key) == [])
  }

  lemma InitInv()
    ensures Inv(Init())
  {}

  lemma FramedGrows(stream: seq<Bytes>, name: Bytes, data: Bytes, chunk: Bytes)
    requires Framed(stream, name, data, false)
    ensures chunk != [] ==> Framed(stream + [chunk], name, data + chunk, false)
    ensures Framed(stream + [[]], name, data, true)
  {
    var chunks: seq<Bytes> :|
      stream == [name] + chunks + [] && name != [] && (forall c | c in chunks :: c != []) && data == Concat(chunks);
    if chunk != [] {
      assert stream + [chunk] == [name] + (chunks + [chunk]) + [];
      assert (chunks + [chunk])[..|chunks|] == chunks;
      assert Concat(chunks + [chunk]) == data + chunk;
    }
    assert stream + [[]] == [name] + chunks + [[]];
  }

  lemma FramedStarts(name: Bytes)
    requires name != []
    ensures Framed([name], name, [], false)
  {
    var none: seq<Bytes> := [];
    assert [name] == [name] + none + [] && Concat(none) == [];
  }

  lemma StartInv(s: State, webapp: int, name: Bytes, available: Bytes)
    requires Inv(s) && name != []
    ensures Inv(Start(s, webapp, name, available))
    ensures Running(Start(s, webapp, name, available), (webapp, NextId(s, webapp)))
  {
    hide Framed, Stream;
    var s' := Start(s, webapp, name, available);
    var key := (webapp, NextId(s, webapp));
    forall k ensures Stream(s'.sent, k) == if k == key then Stream(s.sent, k) + [name] else Stream(s.sent, k) {
      StreamOfSent(s.sent, Packet(key.0, key.1, name), k);
    }
    assert key !in s.downloads;
    forall k | k in s'.downloads ensures exists data :: StreamOf(s', k, data) {
      if k == key {
        FramedStarts(name);
        assert [] + [name] == [name];
        assert StreamOf(s', k, []);
      } else {
        var data :| StreamOf(s, k, data);
        assert StreamOf(s', k, data);
      }
    }
  }

  lemma DrainInv(s: State, key: Key)
    requires Inv(s) && Running(s, key)
    ensures Inv(Drain(s, key))
  {
    hide Framed, Stream;
    var d := s.downloads[key];
    var s' := Drain(s, key);
    forall k
      ensures Stream(s'.sent, k) ==
              if k == key && d.buffer != [] then Stream(s.sent, k) + [d.buffer] else Stream(s.sent, k)
    {
      if d.buffer != [] {
        StreamOfSent(s.sent, Packet(key.0, key.1, d.buffer), k);
      } else {
        assert s'.sent == s.sent;
      }
    }
    forall k | k in s'.downloads ensures exists data :: StreamOf(s', k, data) {
      var data :| StreamOf(s, k, data);
      if k == key {
        FramedGrows(Stream(s.sent, key), d.name, data, d.buffer);
        assert data + [] == data;
        assert StreamOf(s', k, data + d.buffer);
      } else {
        assert StreamOf(s', k, data);
      }
    }
  }

  lemma OpenInErrorInv(s: State, a: Action)
    requires Inv(s) && Enabled(s, a) && a.OpenInError?
    ensures Inv(Step(s, a))
  {
    hide Framed, Stream;
    forall k | k in s.downloads ensures exists data :: StreamOf(Step(s, a), k, data) {
      var data :| StreamOf(s, k, data);
      assert StreamOf(Step(s, a), k, data);
    }
  }

  lemma ArriveInv(s: State, a: Action)
    requires Inv(s) && Enabled(s, a) && a.Arrive?
    ensures Inv(Step(s, a))
  {
    hide Framed, Stream;
    var s' := Step(s, a);
    forall k | k in s'.downloads ensures exists data :: StreamOf(s', k, data) {
      var data :| StreamOf(s, k, data);
      assert k == a.key ==> data + s'.downloads[k].buffer == (data + s.downloads[k].buffer) + a.data;
      assert StreamOf(s', k, data);
    }
  }

  lemma FinishInv(s: State, a: Action)
    requires Inv(s) && Enabled(s, a) && a.Finish?
    ensures Inv(Step(s, a))
  {
    hide Framed, Stream;
    var s', key := Step(s, a), a.key;
    forall k ensures Stream(s'.sent, k) == if k == key then Stream(s.sent, k) + [[]] else Stream(s.sent, k) {
      StreamOfSent(s.sent, Packet(key.0, key.1, []), k);
    }
    forall k | k in s'.downloads ensures exists data :: StreamOf(s', k, data) {
      var data :| StreamOf(s, k, data);
      if k == key {
        FramedGrows(Stream(s.sent, key), s.downloads[key].name, data, []);
      }
      assert StreamOf(s', k, data);
    }
  }

  lemma StepInv(s: State, a: Action)
    requires Inv(s) && Enabled(s, a)
    ensures Inv(Step(s, a))
  {
    hide Inv, Drain, Start;
    match a
    case Open(webapp, name, available) =>
      StartInv(s, webapp, name, available);
      DrainInv(Start(s, webapp, name, available), (webapp, NextId(s, webapp)));
    case OpenInError(_) => OpenInErrorInv(s, a);
    case Arrive(_, _) => ArriveInv(s, a);
    case ReadyRead(key) => DrainInv(s, key);
    case Finish(_) => FinishInv(s, a);
  }

  lemma {:induction false} RunInv(s: State, run: seq<Action>)
    requires Inv(s) && Legal(s, run)
    ensures Inv(After(s, run))
    decreases |run|
  {
    hide Inv, Step;
    if run != [] {
      StepInv(s, run[0]);
      RunInv(Step(s, run[0]), run[1..]);
    }
  }

  /**
    * In every reachable state, the storage process has exactly the files of the downloads, under the decoded names,
    * closed when finished; a file lacks just the bytes its download has not read from the reply.
    */
  lemma FilesMatchDownloads(decode: Decoder, run: seq<Action>)
    requires Legal(Init(), run)
    ensures var s := After(Init(), run);
            var files := Receive(decode, s.sent);
            && files.Keys == s.downloads.Keys
            && forall key | key in files ::
                 var f, d := files[key], s.downloads[key];
                 && f.name == decode(d.name) && f.open == !d.finished
                 && f.contents + d.buffer == d.received
                 && Framed(Stream(s.sent, key), d.name, f.contents, d.finished)
  {
    hide Legal, After, Step;
    var s := After(Init(), run);
    InitInv();
    RunInv(Init(), run);
    var files := Receive(decode, s.sent);
    forall key: Key
      ensures key in files <==> key in s.downloads
      ensures key in files ==>
                var f, d := files[key], s.downloads[key];
                && f.name == decode(d.name) && f.open == !d.finished && f.contents + d.buffer == d.received
                && Framed(Stream(s.sent, key), d.name, f.contents, d.finished)
    {
      ReceiveDemultiplexes(decode, s.sent, key);
      if key in s.downloads {
        var d := s.downloads[key];
        var data :| StreamOf(s, key, data);
        var chunks: seq<Bytes> :|
          && Stream(s.sent, key) == [d.name] + chunks + (if d.finished then [[]] else [])
          && (forall c | c in chunks :: c != []) && data == Concat(chunks);
        ParseOfFramed(decode, d.name, chunks, d.finished);
      }
    }
  }

  lemma LegalPrefix(s: State, a: Action, run: seq<Action>)
    requires Enabled(s, a) && Legal(Step(s, a), run)
    ensures Legal(s, [a] + run) && After(s, [a] + run) == After(Step(s, a), run)
  {
    hide Step, Enabled;
    assert ([a] + run)[1..] == run;
  }

  // What a run asks for

  /** The request ids that the constructions of one web app take. */
  function Taken(run: seq<Action>, webapp: int): nat {
    if run == [] then 0
    else
      Taken(run[..|run| - 1], webapp) +
      match run[|run| - 1]
      case Open(w, _, _) => if w == webapp then 1 else 0
      case OpenInError(w) => if w == webapp then 1 else 0
      case _ => 0
  }

  /** The key of the download that the i-th action opens. */
  function OpenedKey(run: seq<Action>, i: nat): Key
    requires i < |run| && run[i].Open?
  {
    (run[i].webapp, Taken(run[..i], run[i].webapp))
  }

  /** All that arrives for a download. */
  function Arrived(run: seq<Action>, key: Key): Bytes {
    if run == [] then []
    else
      var last := run[|run| - 1];
      Arrived(run[..|run| - 1], key) + if last.Arrive? && last.key == key then last.data else []
  }

  /** What arrives for a download after the last time that it has read its reply. */
  function Unread(run: seq<Action>, key: Key): Bytes {
    if run == [] || run[|run| - 1] == ReadyRead(key) then []
    else
      var last := run[|run| - 1];
      Unread(run[..|run| - 1], key) + if last.Arrive? && last.key == key then last.data else []
  }

  lemma {:induction false} LegalSplit(s: State, a: seq<Action>, b: seq<Action>)
    requires Legal(s, a + b)
    ensures Legal(s, a) && Legal(After(s, a), b) && After(s, a + b) == After(After(s, a), b)
    decreases |a|
  {
    hide Step, Enabled;
    if a == [] {
      assert a + b == b;
    } else {
      assert (a + b)[0] == a[0] && (a + b)[1..] == a[1..] + b;
      LegalSplit(Step(s, a[0]), a[1..], b);
    }
  }

  /** The last action of a run. */
  lemma LegalInit(s: State, run: seq<Action>) returns (init: seq<Action>, last: Action, before: State)
    requires Legal(s, run) && run != []
    ensures init == run[..|run| - 1] && last == run[|run| - 1]
    ensures Legal(s, init) && before == After(s, init) && Enabled(before, last) && After(s, run) == Step(before, last)
  {
    hide Step, Enabled;
    init, last := run[..|run| - 1], run[|run| - 1];
    assert run == init + [last];
    LegalSplit(s, init, [last]);
    before := After(s, init);
    assert [last][1..] == [] && After(before, [last]) == After(Step(before, last), []);
  }

  lemma {:induction false} IdsTaken(run: seq<Action>, webapp: int)
    requires Legal(Init(), run)
    ensures NextId(After(Init(), run), webapp) == Taken(run, webapp)
    decreases |run|
  {
    if run != [] {
      hide Legal, After;
      var init, last, before := LegalInit(Init(), run);
      IdsTaken(init, webapp);
    }
  }

  /** What one action does to a download that is already there. */
  lemma StepHistory(s: State, a: Action, key: Key)
    requires Enabled(s, a) && key in s.downloads && key.1 < NextId(s, key.0)
    ensures var d := s.downloads[key];
            var more := if a.Arrive? && a.key == key then a.data else [];
            && key in Step(s, a).downloads
            && Step(s, a).downloads[key] ==
               Download(d.name, if a == ReadyRead(key) then [] else d.buffer + more, d.received + more,
                        d.finished || a == Finish(key))
  {
    var d := s.downloads[key];
    assert d.buffer + [] == d.buffer && d.received + [] == d.received;
  }

  lemma HistoryGrows(run: seq<Action>, a: Action, key: Key)
    ensures var more := if a.Arrive? && a.key == key then a.data else [];
            && Arrived(run + [a], key) == Arrived(run, key) + more
            && Unread(run + [a], key) == if a == ReadyRead(key) then [] else Unread(run, key) + more
  {
    assert (run + [a])[..|run|] == run;
  }

  /** A download after its opening and the actions `rest` that followed. */
  function OpenedDownload(opening: Action, rest: seq<Action>, key: Key): Download
    requires opening.Open?
  {
    Download(opening.name, Unread(rest, key), opening.available + Arrived(rest, key), Finish(key) in rest)
  }

  lemma OpenedDownloadGrows(opening: Action, rest: seq<Action>, s: State, a: Action, key: Key)
    requires opening.Open? && Enabled(s, a) && key in s.downloads && key.1 < NextId(s, key.0)
    requires s.downloads[key] == OpenedDownload(opening, rest, key)
    ensures key in Step(s, a).downloads && Step(s, a).downloads[key] == OpenedDownload(opening, rest + [a], key)
  {
    hide Step, Enabled, Arrived, Unread;
    StepHistory(s, a, key);
    HistoryGrows(rest, a, key);
    var more := if a.Arrive? && a.key == key then a.data else [];
    assert opening.available + (Arrived(rest, key) + more) == (opening.available + Arrived(rest, key)) + more;
  }

  /** The state of a download after a run is what the run has done to it since it was opened. */
  lemma {:induction false} DownloadOfRun(run: seq<Action>, i: nat)
    requires Legal(Init(), run) && i < |run| && run[i].Open?
    ensures var key, s := OpenedKey(run, i), After(Init(), run);
            key in s.downloads && s.downloads[key] == OpenedDownload(run[i], run[i + 1..], key)
    decreases |run|
  {
    hide Legal, After, Enabled, Step, Inv, Taken;
    var key := OpenedKey(run, i);
    var init, last, before := LegalInit(Init(), run);
    if i == |init| {
      IdsTaken(init, last.webapp);
      OpeningStep(before, last);
      assert run[i + 1..] == [] && last.available + [] == last.available;
    } else {
      hide OpenedDownload;
      assert run[..i] == init[..i];
      DownloadOfRun(init, i);
      InitInv();
      RunInv(Init(), init);
      IdsAreUsed(before);
      OpenedDownloadGrows(init[i], init[i + 1..], before, last, key);
      assert init[i + 1..] + [last] == run[i + 1..];
    }
  }

  lemma IdsAreUsed(s: State)
    requires Inv(s)
    ensures IdsUsed(s)
  {}

  /** A new download has the name and the bytes that it was opened with, all of them read. */
  lemma OpeningStep(s: State, a: Action)
    requires Enabled(s, a) && a.Open?
    ensures var key := (a.webapp, NextId(s, a.webapp));
            Step(s, a).downloads == s.downloads[key := Download(a.name, [], a.available, false)]
  {}

  /** Every download was opened by the run. */
  lemma {:induction false} EveryDownloadWasOpened(run: seq<Action>, key: Key)
    requires Legal(Init(), run) && key in After(Init(), run).downloads
    ensures exists i :: 0 <= i < |run| && run[i].Open? && OpenedKey(run, i) == key
    decreases |run|
  {
    if run != [] {
      hide Legal, After, Taken;
      var init, last, before := LegalInit(Init(), run);
      if key in before.downloads {
        EveryDownloadWasOpened(init, key);
        var i :| 0 <= i < |init| && init[i].Open? && OpenedKey(init, i) == key;
        assert run[..i] == init[..i];
        assert run[i] == init[i] && OpenedKey(run, i) == key;
      } else {
        IdsTaken(init, last.webapp);
        assert run[|init|] == last && OpenedKey(run, |init|) == key;
      }
    }
  }

  /**
    * The round trip, over every interleaving: each construction for a reply without error makes one file, under the
    * decoded name, and there are no others. The file holds what the reply held at the construction and all that has
    * arrived for it since, but for what has arrived after the last read; it is closed once the reply has finished.
    */
  lemma RoundTrip(decode: Decoder, run: seq<Action>)
    requires Legal(Init(), run)
    ensures var files := Receive(decode, After(Init(), run).sent);
            && (forall i | 0 <= i < |run| && run[i].Open? ::
                  var key, rest := OpenedKey(run, i), run[i + 1..];
                  && key in files
                  && files[key].name == decode(run[i].name)
                  && files[key].open == (Finish(key) !in rest)
                  && files[key].contents + Unread(rest, key) == run[i].available + Arrived(rest, key))
            && (forall key | key in files ::
                  exists i :: 0 <= i < |run| && run[i].Open? && OpenedKey(run, i) == key)
  {
    hide Legal, After, Receive, Framed, OpenedKey, Unread, Arrived;
    FilesMatchDownloads(decode, run);
    var files := Receive(decode, After(Init(), run).sent);
    forall i | 0 <= i < |run| && run[i].Open?
      ensures var key, rest := OpenedKey(run, i), run[i + 1..];
              && key in files
              && files[key].name == decode(run[i].name)
              && files[key].open == (Finish(key) !in rest)
              && files[key].contents + Unread(rest, key) == run[i].available + Arrived(rest, key)
    {
      DownloadOfRun(run, i);
    }
    forall key | key in files
      ensures exists i :: 0 <= i < |run| && run[i].Open? && OpenedKey(run, i) == key
    {
      EveryDownloadWasOpened(run, key);
    }
  }

  /** No two constructions share a key. */
  lemma KeysAreDistinct(run: seq<Action>, i: nat, j: nat)
    requires Legal(Init(), run) && i < j < |run| && run[i].Open? && run[j].Open?
    ensures OpenedKey(run, i) != OpenedKey(run, j)
  {
    hide Legal, After, Step, Taken, Inv;
    assert run == run[..j] + run[j..];
    LegalSplit(Init(), run[..j], run[j..]);
    assert run[..j][..i] == run[..i];
    DownloadOfRun(run[..j], i);
    IdsTaken(run[..j], run[j].webapp);
    InitInv();
    RunInv(Init(), run[..j]);
    IdsAreUsed(After(Init(), run[..j]));
  }

  const UNREAD_AT_FINISH: seq<Action> := [Open(0, [1], []), Arrive((0, 0), [7]), Finish((0, 0))]

  // the one download of that run
  function OneDownload(buffer: Bytes, finished: bool): State {
    State(map[0 := 1], map[(0, 0) := Download([1], buffer, buffer, finished)],
          [Packet(0, 0, [1])] + if finished then [Packet(0, 0, [])] else [])
  }

  lemma UnreadSteps()
    ensures Step(Init(), Open(0, [1], [])) == OneDownload([], false)
    ensures Enabled(OneDownload([], false), Arrive((0, 0), [7]))
    ensures Step(OneDownload([], false), Arrive((0, 0), [7])) == OneDownload([7], false)
    ensures Enabled(OneDownload([7], false), Finish((0, 0)))
    ensures Step(OneDownload([7], false), Finish((0, 0))) == OneDownload([7], true)
  {
    var none: Bytes := [];
    assert none + [7] == [7];
  }

  /** A finish before the last bytes have been read loses them: the file is closed without its one byte. */
  lemma FinishLosesUnreadBytes(decode: Decoder)
    ensures Legal(Init(), UNREAD_AT_FINISH)
    ensures var s := After(Init(), UNREAD_AT_FINISH);
            && s.downloads == map[(0, 0) := Download([1], [7], [7], true)]
            && (0, 0) in Receive(decode, s.sent)
            && Receive(decode, s.sent)[(0, 0)] == File(decode([1]), [], false)
  {
    hide Step, Receive;
    UnreadSteps();
    LegalPrefix(OneDownload([7], false), Finish((0, 0)), []);
    LegalPrefix(OneDownload([], false), Arrive((0, 0), [7]), [Finish((0, 0))]);
    LegalPrefix(Init(), Open(0, [1], []), [Arrive((0, 0), [7]), Finish((0, 0))]);
    assert UNREAD_AT_FINISH == [Open(0, [1], [])] + ([Arrive((0, 0), [7])] + ([Finish((0, 0))] + []));
    FilesMatchDownloads(decode, UNREAD_AT_FINISH);
  }
}
