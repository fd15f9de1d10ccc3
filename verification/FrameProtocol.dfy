/**
  * A frame and the X11 container it is: calls that ask for a client, and the container's later answers.
  * One request to the container is outstanding at a time; its answer may come at any later time. A request made
  * before that takes its place, and a window that is embedded takes the place of one that is held.
  */
module FrameProtocol {
  datatype Message =
    | UpdateContainer(clientId: int)
    | WebAppClose(clientId: int)
    | WebAppShow(clientId: int)

  /** The outstanding request to the container. */
  datatype Request = Nothing | Embed(window: int) | Discard

  datatype State = State(
    clientId: int,
    clientWId: int,
    embedded: int,       // clientWinId(): the window in the container, 0 if there is none
    request: Request,
    sent: seq<Message>
  )

  datatype Action =
    | HandleEmbed(clientId: int, clientWId: int)
    | Embedded  // the container has taken the window asked for
    | Closed    // the container has let go of the discarded window
    | Vanished  // the embedded window went away by itself

  function Init(): State {
    State(0, 0, 0, Nothing, [])
  }

  predicate Enabled(s: State, a: Action) {
    match a
    case HandleEmbed(_, _) => true
    case Embedded => s.request.Embed?
    case Closed => s.request.Discard?
    case Vanished => s.request.Nothing? && s.embedded != 0
  }

  function Send(s: State, m: Message): State {
    s.(sent := s.sent + [m])
  }

  // embedClient: the container refuses window 0
  function EmbedClient(s: State, window: int): State {
    if window == 0 then s else s.(request := Embed(window))
  }

  // discardClient: nothing happens in an empty container
  function DiscardClient(s: State): State {
    if s.embedded == 0 then s else s.(request := Discard)
  }

  function SlotClientClosed(s: State): State {
    EmbedClient(s, s.clientWId)
  }

  function SlotClientIsEmbeded(s: State): State {
    if s.clientWId != s.embedded then DiscardClient(s)
    else if s.clientId != 0 then Send(s, WebAppShow(s.clientId))
    else s
  }

  function Step(s: State, a: Action): State
    requires Enabled(s, a)
  {
    match a
    case HandleEmbed(id, wid) =>
      var s1 := Send(s.(clientId := id, clientWId := wid), UpdateContainer(id));
      if s.clientId != 0 then
        var s2 := Send(s1, WebAppClose(s.clientId));
        if s2.embedded != 0 then DiscardClient(s2) else s2
      else EmbedClient(s1, wid)
    case Embedded => SlotClientIsEmbeded(s.(embedded := s.request.window, request := Nothing))
    case Closed => SlotClientClosed(s.(embedded := 0, request := Nothing))
    case Vanished => SlotClientClosed(s.(embedded := 0))
  }

  function Destroy(s: State): State {
    if s.clientId != 0 then Send(s, WebAppClose(s.clientId)) else s
  }

  // Runs

  predicate Legal(s: State, run: seq<Action>)
    decreases |run|
  {
    run == [] || (Enabled(s, run[0]) && Legal(Step(s, run[0]), run[1..]))
  }

  function After(s: State, run: seq<Action>): State
    requires Legal(s, run)
    decreases |run|
  {
    if run == [] then s else After(Step(s, run[0]), run[1..])
  }

  /** The ids passed to handleEmbed, in order. */
  function Ids(run: seq<Action>): seq<int> {
    if run == [] then [] else (if run[0].HandleEmbed? then [run[0].clientId] else []) + Ids(run[1..])
  }

  // When requests meet an idle container

  /** Nothing is in the container, and it has nothing to answer. */
  predicate Idle(s: State) {
    s.embedded == 0 && s.request.Nothing?
  }

  /**
    * The container is never asked for a window while it holds one or still owes an answer: a call made while the
    * frame has no client, the only kind that asks at once, finds the container idle.
    */
  predicate AsksWhenIdle(s: State, run: seq<Action>)
    requires Legal(s, run)
    decreases |run|
  {
    run == [] ||
    ((run[0].HandleEmbed? && s.clientId == 0 ==> Idle(s)) && AsksWhenIdle(Step(s, run[0]), run[1..]))
  }

  predicate NonZeroClients(run: seq<Action>) {
    forall a | a in run && a.HandleEmbed? :: a.clientId != 0
  }

  /** So it is for calls with non-zero clients, whatever windows they name and whatever happens in between. */
  lemma {:induction false} NonZeroClientsAskWhenIdle(s: State, run: seq<Action>)
    requires Legal(s, run) && NonZeroClients(run) && (s.clientId == 0 ==> Idle(s))
    ensures AsksWhenIdle(s, run)
    decreases |run|
  {
    if run != [] {
      NonZeroClientsAskWhenIdle(Step(s, run[0]), run[1..]);
    }
  }

  // Convergence

  predicate Shown(s: State) {
    s.sent != [] && s.sent[|s.sent| - 1] == WebAppShow(s.clientId)
  }

  /**
    * Without an outstanding request the container is empty, or holds the wanted window, of which its client has been
    * told, or the frame wants window 0. A request is an embedding of a real window or a discarding of the window held.
    */
  ghost predicate Inv(s: State) {
    match s.request
    case Nothing =>
      s.embedded == 0 || s.clientWId == 0 || (s.embedded == s.clientWId && (s.clientId != 0 ==> Shown(s)))
    case Embed(w) => w != 0
    case Discard => s.embedded != 0
  }

  lemma {:induction false} RunInv(s: State, run: seq<Action>)
    requires Inv(s) && Legal(s, run)
    ensures Inv(After(s, run))
    decreases |run|
  {
    if run != [] {
      RunInv(Step(s, run[0]), run[1..]);
    }
  }

  /** Embeddings meet an empty container, and a frame that wants window 0 and has nothing outstanding holds nothing. */
  ghost predicate Orderly(s: State) {
    && (s.request.Embed? ==> s.embedded == 0)
    && (s.request.Nothing? && s.clientWId == 0 ==> s.embedded == 0)
  }

  lemma {:induction false} RunOrderly(s: State, run: seq<Action>)
    requires Inv(s) && Orderly(s) && Legal(s, run) && AsksWhenIdle(s, run)
    ensures Orderly(After(s, run))
    decreases |run|
  {
    if run != [] {
      RunOrderly(Step(s, run[0]), run[1..]);
    }
  }

  /** The answers still to come; the container does not answer a request for window 0. */
  function Distance(s: State): nat {
    var last := if s.clientWId == 0 then 0 else 1;
    match s.request
    case Nothing => 0
    case Embed(w) => if w == s.clientWId then 1 else 2 + last
    case Discard => 1 + last
  }

  /** The container's one possible answer to the outstanding request. */
  function Answer(s: State): Action
    requires !s.request.Nothing?
  {
    if s.request.Embed? then Embedded else Closed
  }

  lemma AnswerApproaches(s: State)
    requires Inv(s) && !s.request.Nothing?
    ensures Enabled(s, Answer(s)) && forall a | Enabled(s, a) && !a.HandleEmbed? :: a == Answer(s)
    ensures var s' := Step(s, Answer(s));
            && Inv(s') && Distance(s') == Distance(s) - 1
            && s'.clientId == s.clientId && s'.clientWId == s.clientWId
            && (s.clientWId != 0 ==> !Idle(s')) && (Orderly(s) ==> Orderly(s'))
  {}

  /** The n next answers of the container, as long as a request is outstanding. */
  function Settle(s: State, n: nat): State
    decreases n
  {
    if n == 0 || s.request.Nothing? then s else Settle(Step(s, Answer(s)), n - 1)
  }

  lemma {:induction false} SettlesInDistance(s: State, n: nat)
    requires Inv(s)
    ensures Settle(s, n).request.Nothing? <==> Distance(s) <= n
    ensures Settle(s, n).clientId == s.clientId && Settle(s, n).clientWId == s.clientWId && Inv(Settle(s, n))
    ensures s.clientWId != 0 ==> (Idle(Settle(s, n)) <==> Idle(s))
    ensures Orderly(s) ==> Orderly(Settle(s, n))
    decreases n
  {
    if n > 0 && !s.request.Nothing? {
      AnswerApproaches(s);
      SettlesInDistance(Step(s, Answer(s)), n - 1);
    }
  }

  /**
    * How long a call takes: one answer if the frame had no client, two if it held its client's window, which has to go
    * first, one less if it now wants window 0; a request made before does not delay it.
    */
  lemma CallSettles(s: State, id: int, wid: int)
    requires Inv(s) && (s.clientId != 0 ==> s.embedded != 0)
    requires s.clientId == 0 && wid == 0 ==> s.request.Nothing?
    ensures var s' := Step(s, HandleEmbed(id, wid));
            var n := (if s.clientId != 0 then 1 else 0) + (if wid != 0 then 1 else 0);
            && Distance(s') == n
            && (wid != 0 ==> Settle(s', n).embedded == wid)
            && (s.clientId != 0 && wid == 0 ==> Settle(s', n).embedded == 0)
  {
    var s' := Step(s, HandleEmbed(id, wid));
    if !s'.request.Nothing? {
      var s1 := Step(s', Answer(s'));
      assert Settle(s', 1) == s1;
      if !s1.request.Nothing? {
        assert Settle(s', 2) == Settle(s1, 1) == Step(s1, Answer(s1));
      }
    }
  }

  /** Client and window of the latest call; those given if there was none. */
  function LatestCall(id: int, wid: int, run: seq<Action>): (int, int)
    decreases |run|
  {
    if run == [] then (id, wid)
    else if run[0].HandleEmbed? then LatestCall(run[0].clientId, run[0].clientWId, run[1..])
    else LatestCall(id, wid, run[1..])
  }

  lemma {:induction false} LatestCallKept(s: State, run: seq<Action>)
    requires Legal(s, run)
    ensures (After(s, run).clientId, After(s, run).clientWId) == LatestCall(s.clientId, s.clientWId, run)
    decreases |run|
  {
    if run != [] {
      LatestCallKept(Step(s, run[0]), run[1..]);
    }
  }

  /**
    * The frame asks for a window at a call made while it has no client, and whenever its window has gone. Since its
    * window last went, has it asked for window 0 only? If its window never went, so far the answer is `zero`.
    */
  predicate AskedOnlyForZero(id: int, wid: int, zero: bool, run: seq<Action>)
    decreases |run|
  {
    if run == [] then zero
    else
      match run[0]
      case HandleEmbed(i, w) => AskedOnlyForZero(i, w, zero && (id == 0 ==> w == 0), run[1..])
      case Embedded => AskedOnlyForZero(id, wid, zero, run[1..])
      case Closed => AskedOnlyForZero(id, wid, wid == 0, run[1..])
      case Vanished => AskedOnlyForZero(id, wid, wid == 0, run[1..])
  }

  lemma {:induction false} IdleAfterAskingForZero(s: State, run: seq<Action>)
    requires Inv(s) && Legal(s, run)
    ensures Idle(After(s, run)) <==> AskedOnlyForZero(s.clientId, s.clientWId, Idle(s), run)
    decreases |run|
  {
    if run != [] {
      IdleAfterAskingForZero(Step(s, run[0]), run[1..]);
    }
  }

  /**
    * The right window wins in the end, unless the frame has stopped asking: after any run, three answers of the
    * container leave nothing outstanding. If the latest call named a window, that window is then embedded, and its
    * client told to show itself, if and only if the frame has not asked for window 0 only since its window last went.
    * If it named window 0, the container is left empty, provided that it was never asked while not idle. The number of
    * answers is exactly that given by Distance.
    */
  lemma Convergence(run: seq<Action>)
    requires Legal(Init(), run)
    ensures var s := After(Init(), run);
            var (id, wid) := LatestCall(0, 0, run);
            var f := Settle(s, 3);
            && f.request.Nothing? && f.clientId == id
            && (wid != 0 ==> (f.embedded == wid <==> !AskedOnlyForZero(0, 0, true, run)))
            && (wid != 0 && id != 0 && f.embedded == wid ==> Shown(f))
            && (wid == 0 && AsksWhenIdle(Init(), run) ==> f.embedded == 0)
            && (forall n: nat :: Settle(s, n).request.Nothing? <==> Distance(s) <= n)
  {
    hide Step, Legal, After, AsksWhenIdle, LatestCall, AskedOnlyForZero, Settle;
    var s := After(Init(), run);
    RunInv(Init(), run);
    LatestCallKept(Init(), run);
    IdleAfterAskingForZero(Init(), run);
    if AsksWhenIdle(Init(), run) {
      RunOrderly(Init(), run);
    }
    forall n: nat ensures Settle(s, n).request.Nothing? <==> Distance(s) <= n {
      SettlesInDistance(s, n);
    }
    SettlesInDistance(s, 3);
  }

  predicate NonZeroCalls(run: seq<Action>) {
    forall a | a in run && a.HandleEmbed? :: a.clientId != 0 && a.clientWId != 0
  }

  lemma {:induction false} NonZeroCallsAsk(s: State, run: seq<Action>)
    requires Inv(s) && Legal(s, run) && NonZeroCalls(run)
    requires if s.clientId == 0 then Idle(s) && run != [] else s.clientWId != 0 && !Idle(s)
    ensures var (id, wid) := LatestCall(s.clientId, s.clientWId, run);
            id != 0 && wid != 0 && !AskedOnlyForZero(s.clientId, s.clientWId, Idle(s), run)
    decreases |run|
  {
    if run != [] {
      var s', rest := Step(s, run[0]), run[1..];
      assert run[0] in run && forall a | a in rest :: a in run;
      NonZeroCallsAsk(s', rest);
    }
  }

  /** With non-zero ids the right window always wins. */
  lemma NonZeroCallsConverge(run: seq<Action>)
    requires Legal(Init(), run) && NonZeroCalls(run) && run != []
    ensures var (id, wid) := LatestCall(0, 0, run);
            var f := Settle(After(Init(), run), 3);
            f.request.Nothing? && f.embedded == wid && f.clientId == id && Shown(f)
  {
    hide Legal, After, LatestCall, AskedOnlyForZero, Settle;
    NonZeroCallsAsk(Init(), run);
    Convergence(run);
  }

  // Window 0

  /** A frame that has a client, nothing embedded and nothing outstanding stays so. */
  lemma {:induction false} StalledForever(s: State, run: seq<Action>)
    requires Idle(s) && s.clientId != 0 && Legal(s, run) && NonZeroClients(run)
    ensures Idle(After(s, run)) && After(s, run).clientId != 0
    decreases |run|
  {
    if run != [] {
      StalledForever(Step(s, run[0]), run[1..]);
    }
  }

  /** The first call names window 0, or the frame's window goes while the latest call names 0. */
  predicate EverAsksForZero(started: bool, wid: int, run: seq<Action>)
    decreases |run|
  {
    run != [] &&
    match run[0]
    case HandleEmbed(_, w) => (!started && w == 0) || EverAsksForZero(true, w, run[1..])
    case Embedded => EverAsksForZero(started, wid, run[1..])
    case Closed => wid == 0 || EverAsksForZero(started, wid, run[1..])
    case Vanished => wid == 0 || EverAsksForZero(started, wid, run[1..])
  }

  lemma {:induction false} IdleOnceAskedForZero(s: State, run: seq<Action>)
    requires Inv(s) && Legal(s, run) && NonZeroClients(run)
    requires s.clientId == 0 ==> Idle(s) && run != []
    ensures Idle(After(s, run)) <==>
            (s.clientId != 0 && Idle(s)) || EverAsksForZero(s.clientId != 0, s.clientWId, run)
    decreases |run|
  {
    if run != [] {
      assert run[0] in run && forall a | a in run[1..] :: a in run;
      IdleOnceAskedForZero(Step(s, run[0]), run[1..]);
    }
  }

  /** With non-zero clients, asking for window 0 once is asking for nothing else from then on. */
  lemma OneZeroIsEnough(run: seq<Action>)
    requires Legal(Init(), run) && NonZeroClients(run) && run != []
    ensures AskedOnlyForZero(0, 0, true, run) <==> EverAsksForZero(false, 0, run)
  {
    hide Legal, After, AskedOnlyForZero, EverAsksForZero;
    IdleAfterAskingForZero(Init(), run);
    IdleOnceAskedForZero(Init(), run);
  }

  const STALLING_FIRST: seq<Action> := [HandleEmbed(1, 0), HandleEmbed(3, 7)]
  const STALLING_LATER: seq<Action> := [HandleEmbed(1, 5), Embedded, HandleEmbed(2, 0), Closed, HandleEmbed(3, 7)]

  /** Window 0 in the first call, or while the previous window is going away, leaves the next window out for good. */
  lemma ZeroWindowStalls()
    ensures Legal(Init(), STALLING_FIRST) && Idle(After(Init(), STALLING_FIRST))
    ensures After(Init(), STALLING_FIRST).clientWId == 7
    ensures Legal(Init(), STALLING_LATER) && Idle(After(Init(), STALLING_LATER))
    ensures After(Init(), STALLING_LATER).clientWId == 7
  {}

  // Close accounting, for any ids

  function Last(replaced: int, ids: seq<int>): int {
    if ids == [] then replaced else ids[|ids| - 1]
  }

  function CloseOf(id: int): seq<Message> {
    if id != 0 then [WebAppClose(id)] else []
  }

  /** What the calls send to the kernel: each container update, followed by the closing of the client it replaces. */
  function KernelTrace(replaced: int, ids: seq<int>): seq<Message>
    decreases |ids|
  {
    if ids == [] then []
    else [UpdateContainer(ids[0])] + CloseOf(replaced) + KernelTrace(ids[0], ids[1..])
  }

  function ToKernel(sent: seq<Message>): seq<Message> {
    if sent == [] then []
    else ToKernel(sent[..|sent| - 1]) + if sent[|sent| - 1].WebAppShow? then [] else [sent[|sent| - 1]]
  }

  function Closes(sent: seq<Message>): seq<int> {
    if sent == [] then [] else (if sent[0].WebAppClose? then [sent[0].clientId] else []) + Closes(sent[1..])
  }

  function NonZero(ids: seq<int>): seq<int> {
    if ids == [] then [] else (if ids[0] != 0 then [ids[0]] else []) + NonZero(ids[1..])
  }

  lemma SendToKernel(sent: seq<Message>, m: Message)
    ensures ToKernel(sent + [m]) == ToKernel(sent) + if m.WebAppShow? then [] else [m]
  {
    assert (sent + [m])[..|sent|] == sent;
  }

  lemma CallToKernel(s: State, a: Action)
    requires a.HandleEmbed?
    ensures ToKernel(Step(s, a).sent) == ToKernel(s.sent) + [UpdateContainer(a.clientId)] + CloseOf(s.clientId)
  {
    SendToKernel(s.sent, UpdateContainer(a.clientId));
    SendToKernel(s.sent + [UpdateContainer(a.clientId)], WebAppClose(s.clientId));
  }

  lemma EventToKernel(s: State, a: Action)
    requires Enabled(s, a) && !a.HandleEmbed?
    ensures ToKernel(Step(s, a).sent) == ToKernel(s.sent) && Step(s, a).clientId == s.clientId
  {
    hide ToKernel;
    SendToKernel(s.sent, WebAppShow(s.clientId));
  }

  lemma {:induction false} RunToKernel(s: State, run: seq<Action>)
    requires Legal(s, run)
    ensures ToKernel(After(s, run).sent) == ToKernel(s.sent) + KernelTrace(s.clientId, Ids(run))
    ensures After(s, run).clientId == Last(s.clientId, Ids(run))
    decreases |run|
  {
    hide ToKernel;
    if run != [] {
      var a, rest := run[0], run[1..];
      RunToKernel(Step(s, a), rest);
      if a.HandleEmbed? {
        CallToKernel(s, a);
        assert Ids(run)[0] == a.clientId && Ids(run)[1..] == Ids(rest);
      } else {
        EventToKernel(s, a);
        assert Ids(run) == Ids(rest);
      }
    }
  }

  lemma {:induction false} ClosesConcat(a: seq<Message>, b: seq<Message>)
    ensures Closes(a + b) == Closes(a) + Closes(b)
    decreases |a|
  {
    if a == [] {
      assert a + b == b;
    } else {
      var first := if a[0].WebAppClose? then [a[0].clientId] else [];
      assert (a + b)[0] == a[0] && (a + b)[1..] == a[1..] + b;
      ClosesConcat(a[1..], b);
      assert Closes(a + b) == first + (Closes(a[1..]) + Closes(b)) == (first + Closes(a[1..])) + Closes(b);
    }
  }

  lemma {:induction false} ClosesAreToKernel(sent: seq<Message>)
    ensures Closes(sent) == Closes(ToKernel(sent))
    decreases |sent|
  {
    if sent != [] {
      var init, m := sent[..|sent| - 1], sent[|sent| - 1];
      assert sent == init + [m];
      ClosesAreToKernel(init);
      ClosesConcat(init, [m]);
      ClosesConcat(ToKernel(init), if m.WebAppShow? then [] else [m]);
    }
  }

  /** Every client embedded is closed once, in order: when it is replaced, or at the end. */
  lemma {:induction false} ClosesOfTrace(replaced: int, ids: seq<int>)
    ensures Closes(KernelTrace(replaced, ids) + CloseOf(Last(replaced, ids))) == NonZero([replaced] + ids)
    decreases |ids|
  {
    assert ([replaced] + ids)[1..] == ids;
    if ids == [] {
      assert KernelTrace(replaced, ids) + CloseOf(replaced) == CloseOf(replaced);
    } else {
      var head := [UpdateContainer(ids[0])] + CloseOf(replaced);
      var tail := KernelTrace(ids[0], ids[1..]) + CloseOf(Last(ids[0], ids[1..]));
      assert KernelTrace(replaced, ids) + CloseOf(Last(replaced, ids)) == head + tail;
      ClosesConcat(head, tail);
      assert Closes(head) == if replaced != 0 then [replaced] else [];
      ClosesOfTrace(ids[0], ids[1..]);
      assert [ids[0]] + ids[1..] == ids;
    }
  }

  /**
    * Close accounting, for any ids: over a run of calls ended by destruction the clients closed are the non-zero
    * clients embedded, in order, each once per embedding; and every close made by a call directly follows
    * the container update for the replacement.
    */
  lemma CloseAccounting(run: seq<Action>)
    requires Legal(Init(), run)
    ensures var sent := Destroy(After(Init(), run)).sent;
            && Closes(sent) == NonZero(Ids(run))
            && ToKernel(sent) == KernelTrace(0, Ids(run)) + CloseOf(Last(0, Ids(run)))
  {
    hide Step;
    var s, ids := After(Init(), run), Ids(run);
    RunToKernel(Init(), run);
    assert Init().sent == [] && ToKernel([]) == [];
    SendToKernel(s.sent, WebAppClose(s.clientId));
    assert ToKernel(Destroy(s).sent) == KernelTrace(0, ids) + CloseOf(Last(0, ids));
    ClosesAreToKernel(Destroy(s).sent);
    ClosesOfTrace(0, ids);
    assert ([0] + ids)[0] == 0 && ([0] + ids)[1..] == ids;
  }

  // Show accounting

  function Shows(sent: seq<Message>): seq<int> {
    if sent == [] then []
    else Shows(sent[..|sent| - 1]) + if sent[|sent| - 1].WebAppShow? then [sent[|sent| - 1].clientId] else []
  }

  lemma SendShows(sent: seq<Message>, m: Message)
    ensures Shows(sent + [m]) == Shows(sent) + if m.WebAppShow? then [m.clientId] else []
  {
    assert (sent + [m])[..|sent|] == sent;
  }

  /** Only the embedding of the window wanted now sends a show message, to the client that wants it. */
  lemma StepShows(s: State, a: Action)
    requires Enabled(s, a)
    ensures Shows(Step(s, a).sent) == Shows(s.sent) +
            if a.Embedded? && s.request == Embed(s.clientWId) && s.clientId != 0 then [s.clientId] else []
  {
    hide Shows;
    if a.HandleEmbed? {
      SendShows(s.sent, UpdateContainer(a.clientId));
      SendShows(s.sent + [UpdateContainer(a.clientId)], WebAppClose(s.clientId));
    } else {
      SendShows(s.sent, WebAppShow(s.clientId));
    }
  }

  /** The clients of the run that were in charge when the window they wanted came in, in that order. */
  function ShowsDue(s: State, run: seq<Action>): seq<int>
    requires Legal(s, run)
    decreases |run|
  {
    if run == [] then []
    else
      (if run[0].Embedded? && s.request == Embed(s.clientWId) && s.clientId != 0 then [s.clientId] else [])
      + ShowsDue(Step(s, run[0]), run[1..])
  }

  /** Show accounting, for any ids: a client is told to show itself once whenever its window comes in, and only then. */
  lemma {:induction false} ShowAccounting(s: State, run: seq<Action>)
    requires Legal(s, run)
    ensures Shows(After(s, run).sent) == Shows(s.sent) + ShowsDue(s, run)
    decreases |run|
  {
    hide Step, Enabled, Shows;
    if run != [] {
      StepShows(s, run[0]);
      ShowAccounting(Step(s, run[0]), run[1..]);
    }
  }
}
