/**
  * The keyed mailbox as a monitor: many threads run addMsg and getMsg, one atomic statement at a time,
  * under one lock and one wait set. Lists live on a heap and are shared by reference.
  */
module MailboxProtocol {
  import opened Basics

  datatype Message = Message(value: int, body: int)

  type Thread = int
  type ListRef = nat

  /** Where a thread is. All points but Outside, Parked and Notified are inside the critical section. */
  datatype Point =
    | Outside
    | AddLookup(msg: Message)
    | AddAppend(msg: Message, list: ListRef)
    | AddNotify
    | GetLookup(key: int)
    | GetTest(key: int, list: ListRef)
    | GetRemove(key: int, list: ListRef)
    | Parked(key: int, list: ListRef)    // in wait()
    | Notified(key: int, list: ListRef)  // woken, competing for the lock
  {
    predicate InCriticalSection() {
      !Outside? && !Parked? && !Notified?
    }

    // a thread in getMsg that holds a reference to the list of its key
    predicate Waits() {
      GetTest? || GetRemove? || Parked? || Notified?
    }
  }

  datatype Delivery = Delivery(thread: Thread, key: int, msg: Message)

  datatype State = State(
    lock: Option<Thread>,
    threads: map<Thread, Point>,
    queue: map<int, ListRef>,
    lists: seq<seq<Message>>,
    added: seq<Message>,         // history of addLast
    delivered: seq<Delivery>,    // history of getMsg results
    failed: bool                 // remove() met an empty list
  )

  datatype Action =
    | EnterAdd(thread: Thread, msg: Message)
    | EnterGet(thread: Thread, key: int)
    | Run(thread: Thread)        // the lock holder executes its next statement
    | Reacquire(thread: Thread)  // a notified thread gets the lock back
    | WakeUp(thread: Thread)     // a spurious wake-up

  function At(s: State, t: Thread): Point {
    if t in s.threads then s.threads[t] else Outside
  }

  function Move(s: State, t: Thread, p: Point): State {
    s.(threads := s.threads[t := p])
  }

  function Init(): State {
    State(None, map[], map[], [], [], [], false)
  }

  predicate Enabled(s: State, a: Action) {
    match a
    case EnterAdd(t, _) => s.lock.None? && At(s, t).Outside?
    case EnterGet(t, _) => s.lock.None? && At(s, t).Outside?
    case Run(t) => s.lock == Some(t) && Executable(s, At(s, t))
    case Reacquire(t) => s.lock.None? && At(s, t).Notified?
    case WakeUp(t) => At(s, t).Parked?
  }

  // references are valid on the heap
  predicate Executable(s: State, p: Point) {
    p.InCriticalSection() && (p.AddAppend? || p.GetTest? || p.GetRemove? ==> p.list < |s.lists|)
  }

  // queue.get(id), or a new list put into the queue under id
  function FindOrCreate(s: State, key: int): (State, ListRef) {
    if key in s.queue then (s, s.queue[key])
    else (s.(queue := s.queue[key := |s.lists|], lists := s.lists + [[]]), |s.lists|)
  }

  function NotifyAll(threads: map<Thread, Point>): map<Thread, Point> {
    map t | t in threads :: match threads[t] case Parked(k, l) => Notified(k, l) case p => p
  }

  function Step(s: State, a: Action): State
    requires Enabled(s, a)
  {
    match a
    case EnterAdd(t, msg) => Move(s.(lock := Some(t)), t, AddLookup(msg))
    case EnterGet(t, key) => Move(s.(lock := Some(t)), t, GetLookup(key))
    case Run(t) => Execute(s, t)
    case Reacquire(t) => Move(s.(lock := Some(t)), t, GetTest(At(s, t).key, At(s, t).list))
    case WakeUp(t) => Move(s, t, Notified(At(s, t).key, At(s, t).list))
  }

  function Execute(s: State, t: Thread): State
    requires Executable(s, At(s, t))
  {
    match At(s, t)
    case AddLookup(msg) =>
      var (s', list) := FindOrCreate(s, msg.value);
      Move(s', t, AddAppend(msg, list))
    case AddAppend(msg, list) =>
      Move(s.(lists := s.lists[list := s.lists[list] + [msg]], added := s.added + [msg]), t, AddNotify)
    case AddNotify =>
      Move(s.(threads := NotifyAll(s.threads), lock := None), t, Outside)
    case GetLookup(key) =>
      var (s', list) := FindOrCreate(s, key);
      Move(s', t, GetTest(key, list))
    case GetTest(key, list) =>
      if s.lists[list] == [] then Move(s.(lock := None), t, Parked(key, list))
      else Move(s, t, GetRemove(key, list))
    case GetRemove(key, list) =>
      if s.lists[list] == [] then Move(s.(lock := None, failed := true), t, Outside)
      else
        Move(s.(lock := None, lists := s.lists[list := s.lists[list][1..]],
                delivered := s.delivered + [Delivery(t, key, s.lists[list][0])]), t, Outside)
  }

  // Runs

  predicate Legal(s: State, run: seq<Action>)
    decreases |run|
  {
    run == [] || (Enabled(s, run[0]) && Legal(Step(s, run[0]), run[1..]))
  }

  function After(s: State, run: seq<Action>): State
    requires Legal(s, run)
    decreases |run|
  {
    if run == [] then s else After(Step(s, run[0]), run[1..])
  }

  // What is added, delivered and queued under a key

  function WithValue(msgs: seq<Message>, key: int): seq<Message> {
    if msgs == [] then []
    else
      var rest := WithValue(msgs[..|msgs| - 1], key);
      var last := msgs[|msgs| - 1];
      if last.value == key then rest + [last] else rest
  }

  function DeliveredTo(ds: seq<Delivery>, key: int): seq<Message> {
    if ds == [] then []
    else
      var rest := DeliveredTo(ds[..|ds| - 1], key);
      var last := ds[|ds| - 1];
      if last.key == key then rest + [last.msg] else rest
  }

  function Queued(s: State, key: int): seq<Message> {
    if key in s.queue && s.queue[key] < |s.lists| then s.lists[s.queue[key]] else []
  }

  // The invariant

  /** Every key has its own list. */
  ghost predicate OneListPerKey(s: State) {
    && (forall k | k in s.queue :: s.queue[k] < |s.lists|)
    && (forall j, k | j in s.queue && k in s.queue && s.queue[j] == s.queue[k] :: j == k)
  }

  /** The list a thread refers to is still the list of its key. */
  ghost predicate ReferencesCurrent(s: State) {
    && (forall t | t in s.threads && s.threads[t].Waits() ::
          s.threads[t].key in s.queue && s.queue[s.threads[t].key] == s.threads[t].list)
    && (forall t | t in s.threads && s.threads[t].AddAppend? ::
          s.threads[t].msg.value in s.queue && s.queue[s.threads[t].msg.value] == s.threads[t].list)
  }

  ghost predicate MutualExclusion(s: State) {
    && (forall t | t in s.threads && s.threads[t].InCriticalSection() :: s.lock == Some(t))
    && (s.lock.Some? ==> At(s, s.lock.value).InCriticalSection())
  }

  /** The lock is held by a producer that has added its message and is about to call notifyAll. */
  predicate NotificationDue(s: State) {
    s.lock.Some? && At(s, s.lock.value).AddNotify?
  }

  /** A parked thread sees an empty list, or is about to be notified. */
  ghost predicate NoLostWakeUp(s: State) {
    forall t | t in s.threads && s.threads[t].Parked? ::
      Queued(s, s.threads[t].key) == [] || NotificationDue(s)
  }

  ghost predicate RemovesSomething(s: State) {
    forall t | t in s.threads && s.threads[t].GetRemove? :: Queued(s, s.threads[t].key) != []
  }

  ghost predicate Conserved(s: State) {
    forall k :: WithValue(s.added, k) == DeliveredTo(s.delivered, k) + Queued(s, k)
  }

  ghost predicate Inv(s: State) {
    && OneListPerKey(s)
    && ReferencesCurrent(s)
    && MutualExclusion(s)
    && NoLostWakeUp(s)
    && RemovesSomething(s)
    && Conserved(s)
    && !s.failed
  }

  lemma InitInv()
    ensures Inv(Init())
  {}

  /** A step that leaves the store and the histories alone. */
  lemma StoreUntouched(s: State, s': State)
    requires s'.queue == s.queue && s'.lists == s.lists && s'.added == s.added && s'.delivered == s.delivered
    ensures forall k :: Queued(s', k) == Queued(s, k)
    ensures OneListPerKey(s) ==> OneListPerKey(s')
    ensures Conserved(s) ==> Conserved(s')
  {}

  lemma EnterInv(s: State, a: Action)
    requires Inv(s) && Enabled(s, a) && !a.Run?
    ensures Inv(Step(s, a))
  {
    hide Queued, OneListPerKey, Conserved;
    StoreUntouched(s, Step(s, a));
  }

  lemma FindOrCreateKeepsContents(s: State, key: int)
    requires OneListPerKey(s)
    ensures var (s', list) := FindOrCreate(s, key);
            && OneListPerKey(s') && key in s'.queue && s'.queue[key] == list
            && s' == s.(queue := s'.queue, lists := s'.lists)
            && (forall k | k in s.queue :: k in s'.queue && s'.queue[k] == s.queue[k])
            && (forall k :: Queued(s', k) == Queued(s, k))
  {}

  lemma AddLookupInv(s: State, t: Thread)
    requires Inv(s) && Enabled(s, Run(t)) && At(s, t).AddLookup?
    ensures Inv(Step(s, Run(t)))
  {
    hide WithValue, DeliveredTo, FindOrCreate;
    var msg := At(s, t).msg;
    FindOrCreateKeepsContents(s, msg.value);
    var (s', list) := FindOrCreate(s, msg.value);
    assert forall k :: Queued(Move(s', t, AddAppend(msg, list)), k) == Queued(s, k);
  }

  lemma GetLookupInv(s: State, t: Thread)
    requires Inv(s) && Enabled(s, Run(t)) && At(s, t).GetLookup?
    ensures Inv(Step(s, Run(t)))
  {
    hide WithValue, DeliveredTo, FindOrCreate;
    var key := At(s, t).key;
    FindOrCreateKeepsContents(s, key);
    var (s', list) := FindOrCreate(s, key);
    assert forall k :: Queued(Move(s', t, GetTest(key, list)), k) == Queued(s, k);
  }

  /** An update of one key's list is an update of that key's contents alone. */
  lemma UpdateOneKey(s: State, s': State, key: int, msgs: seq<Message>)
    requires OneListPerKey(s) && key in s.queue
    requires s'.queue == s.queue && s'.lists == s.lists[s.queue[key] := msgs]
    ensures forall k :: Queued(s', k) == if k == key then msgs else Queued(s, k)
  {}

  lemma AppendInv(s: State, t: Thread)
    requires Inv(s) && Enabled(s, Run(t)) && At(s, t).AddAppend?
    ensures Inv(Step(s, Run(t)))
  {
    hide WithValue, DeliveredTo, Queued;
    var msg := At(s, t).msg;
    var s' := Step(s, Run(t));
    assert Queued(s, msg.value) == s.lists[At(s, t).list] by {
      QueuedIsList(s, msg.value);
    }
    UpdateOneKey(s, s', msg.value, Queued(s, msg.value) + [msg]);
    forall k ensures WithValue(s'.added, k) == DeliveredTo(s'.delivered, k) + Queued(s', k) {
      AddedGrows(s.added, msg, k);
      assert WithValue(s.added, k) == DeliveredTo(s.delivered, k) + Queued(s, k);
    }
    assert NotificationDue(s');
  }

  lemma QueuedIsList(s: State, key: int)
    requires OneListPerKey(s) && key in s.queue
    ensures Queued(s, key) == s.lists[s.queue[key]]
  {}

  lemma AddedGrows(added: seq<Message>, msg: Message, key: int)
    ensures WithValue(added + [msg], key) == WithValue(added, key) + if msg.value == key then [msg] else []
  {
    assert (added + [msg])[..|added|] == added;
  }

  lemma NotifyInv(s: State, t: Thread)
    requires Inv(s) && Enabled(s, Run(t)) && At(s, t).AddNotify?
    ensures Inv(Step(s, Run(t)))
  {
    hide Queued, OneListPerKey, Conserved;
    var s' := Step(s, Run(t));
    StoreUntouched(s, s');
    assert forall u | u in s'.threads :: !s'.threads[u].Parked?;
  }

  lemma TestInv(s: State, t: Thread)
    requires Inv(s) && Enabled(s, Run(t)) && At(s, t).GetTest?
    ensures Inv(Step(s, Run(t)))
  {
    hide OneListPerKey, Conserved;
    StoreUntouched(s, Step(s, Run(t)));
  }

  lemma RemoveInv(s: State, t: Thread)
    requires Inv(s) && Enabled(s, Run(t)) && At(s, t).GetRemove?
    ensures Inv(Step(s, Run(t)))
  {
    var key, list := At(s, t).key, At(s, t).list;
    var s' := Step(s, Run(t));
    UpdateOneKey(s, s', key, Queued(s, key)[1..]);
    assert s'.delivered[..|s.delivered|] == s.delivered;
    forall k ensures WithValue(s'.added, k) == DeliveredTo(s'.delivered, k) + Queued(s', k) {
      assert WithValue(s.added, k) == DeliveredTo(s.delivered, k) + Queued(s, k);
    }
  }

  lemma StepInv(s: State, a: Action)
    requires Inv(s) && Enabled(s, a)
    ensures Inv(Step(s, a))
  {
    hide Inv, Step;
    if a.Run? {
      match At(s, a.thread)
      case AddLookup(_) => AddLookupInv(s, a.thread);
      case AddAppend(_, _) => AppendInv(s, a.thread);
      case AddNotify => NotifyInv(s, a.thread);
      case GetLookup(_) => GetLookupInv(s, a.thread);
      case GetTest(_, _) => TestInv(s, a.thread);
      case GetRemove(_, _) => RemoveInv(s, a.thread);
    } else {
      EnterInv(s, a);
    }
  }

  lemma {:induction false} RunInv(s: State, run: seq<Action>)
    requires Inv(s) && Legal(s, run)
    ensures Inv(After(s, run))
    decreases |run|
  {
    hide Inv, Step;
    if run != [] {
      StepInv(s, run[0]);
      RunInv(Step(s, run[0]), run[1..]);
    }
  }

  // Safety of every run

  /**
    * In every reachable state: no remove() has failed; under every key the messages added are those delivered
    * followed by those still queued, in order; and with the lock free, a parked thread's list is empty.
    */
  lemma MailboxSafety(run: seq<Action>)
    requires Legal(Init(), run)
    ensures var s := After(Init(), run);
            && !s.failed
            && (forall k :: WithValue(s.added, k) == DeliveredTo(s.delivered, k) + Queued(s, k))
            && (forall t | At(s, t).Parked? :: Queued(s, At(s, t).key) == [] || NotificationDue(s))
            && (forall t, u | At(s, t).InCriticalSection() && At(s, u).InCriticalSection() :: t == u)
  {
    hide Queued, WithValue, DeliveredTo;
    InitInv();
    RunInv(Init(), run);
  }

  lemma {:induction false} WithValueHasValue(msgs: seq<Message>, key: int)
    ensures forall m | m in WithValue(msgs, key) :: m.value == key && m in msgs
  {
    if msgs != [] {
      WithValueHasValue(msgs[..|msgs| - 1], key);
      assert msgs[..|msgs| - 1] + [msgs[|msgs| - 1]] == msgs;
    }
  }

  lemma {:induction false} DeliveredToHolds(ds: seq<Delivery>, d: Delivery)
    requires d in ds
    ensures d.msg in DeliveredTo(ds, d.key)
  {
    var n := |ds| - 1;
    if d != ds[n] {
      assert ds == ds[..n] + [ds[n]];
      DeliveredToHolds(ds[..n], d);
    }
  }

  /** Nothing crosses keys or appears from nowhere: a delivered message was added, with the value asked for. */
  lemma NothingCrossesKeys(run: seq<Action>)
    requires Legal(Init(), run)
    ensures var s := After(Init(), run);
            forall d | d in s.delivered :: d.msg.value == d.key && d.msg in s.added
  {
    hide Legal, After, Step;
    var s := After(Init(), run);
    MailboxSafety(run);
    forall d | d in s.delivered ensures d.msg.value == d.key && d.msg in s.added {
      DeliveredToHolds(s.delivered, d);
      WithValueHasValue(s.added, d.key);
      assert WithValue(s.added, d.key) == DeliveredTo(s.delivered, d.key) + Queued(s, d.key);
    }
  }

  // What a run asks for

  /** The messages passed to addMsg, in the order in which the calls got the lock. */
  function Posted(run: seq<Action>): seq<Message> {
    if run == [] then [] else (if run[0].EnterAdd? then [run[0].msg] else []) + Posted(run[1..])
  }

  /** The message of a producer that holds the lock and has not appended it yet. */
  function Pending(s: State): seq<Message> {
    if s.lock.None? then []
    else
      match At(s, s.lock.value)
      case AddLookup(msg) => [msg]
      case AddAppend(msg, _) => [msg]
      case _ => []
  }

  lemma Regroup<T>(a: seq<T>, b: seq<T>, c: seq<T>)
    ensures (a + b) + c == a + (b + c)
  {}

  lemma StepPosts(s: State, a: Action)
    requires Inv(s) && Enabled(s, a)
    ensures Step(s, a).added + Pending(Step(s, a)) == s.added + Pending(s) + if a.EnterAdd? then [a.msg] else []
  {}

  lemma {:induction false} RunPosts(s: State, run: seq<Action>)
    requires Inv(s) && Legal(s, run)
    ensures After(s, run).added + Pending(After(s, run)) == s.added + Pending(s) + Posted(run)
    decreases |run|
  {
    hide Inv, Step, Enabled, Pending;
    if run == [] {
      assert s.added + Pending(s) + [] == s.added + Pending(s);
    } else {
      var post := if run[0].EnterAdd? then [run[0].msg] else [];
      StepPosts(s, run[0]);
      StepInv(s, run[0]);
      RunPosts(Step(s, run[0]), run[1..]);
      Regroup(s.added + Pending(s), post, Posted(run[1..]));
    }
  }

  /** The keys that a thread passes to getMsg, in order. */
  function Asked(run: seq<Action>, t: Thread): seq<int> {
    if run == [] then []
    else (if run[0].EnterGet? && run[0].thread == t then [run[0].key] else []) + Asked(run[1..], t)
  }

  /** The keys under which a thread has been served, in order. */
  function Served(ds: seq<Delivery>, t: Thread): seq<int> {
    if ds == [] then []
    else
      var last := ds[|ds| - 1];
      Served(ds[..|ds| - 1], t) + if last.thread == t then [last.key] else []
  }

  /** The key of a thread that is inside getMsg. */
  function Asking(p: Point): seq<int> {
    if p.GetLookup? || p.Waits() then [p.key] else []
  }

  lemma StepAsks(s: State, a: Action, t: Thread)
    requires Inv(s) && Enabled(s, a)
    ensures Served(Step(s, a).delivered, t) + Asking(At(Step(s, a), t)) ==
            Served(s.delivered, t) + Asking(At(s, t)) + if a.EnterGet? && a.thread == t then [a.key] else []
  {
    hide Served, Queued, OneListPerKey, ReferencesCurrent, MutualExclusion, NoLostWakeUp, Conserved;
    if a.Run? && At(s, a.thread).GetRemove? {
      RemoveStatement(s, a.thread);
      ServedGrows(s.delivered, Delivery(a.thread, At(s, a.thread).key, Queued(s, At(s, a.thread).key)[0]), t);
    }
  }

  lemma ServedGrows(ds: seq<Delivery>, d: Delivery, t: Thread)
    ensures Served(ds + [d], t) == Served(ds, t) + if d.thread == t then [d.key] else []
  {
    assert (ds + [d])[..|ds|] == ds;
  }

  lemma {:induction false} RunAsks(s: State, run: seq<Action>, t: Thread)
    requires Inv(s) && Legal(s, run)
    ensures Served(After(s, run).delivered, t) + Asking(At(After(s, run), t)) ==
            Served(s.delivered, t) + Asking(At(s, t)) + Asked(run, t)
    decreases |run|
  {
    hide Inv, Step, Enabled, Asking, Served, At;
    if run == [] {
      assert Served(s.delivered, t) + Asking(At(s, t)) + [] == Served(s.delivered, t) + Asking(At(s, t));
    } else {
      var ask := if run[0].EnterGet? && run[0].thread == t then [run[0].key] else [];
      StepAsks(s, run[0], t);
      StepInv(s, run[0]);
      RunAsks(Step(s, run[0]), run[1..], t);
      Regroup(Served(s.delivered, t) + Asking(At(s, t)), ask, Asked(run[1..], t));
    }
  }

  /**
    * The histories are those of the run: what has been added is what the calls of addMsg have brought, in the order of
    * the lock, but for the message that its holder is about to append; and each thread has been served exactly for the
    * keys that it has asked for, in order, but for the one that it is waiting for.
    */
  lemma HistoriesOfRun(run: seq<Action>, t: Thread)
    requires Legal(Init(), run)
    ensures var s := After(Init(), run);
            && s.added + Pending(s) == Posted(run)
            && Served(s.delivered, t) + Asking(At(s, t)) == Asked(run, t)
  {
    hide Legal, After, Step;
    InitInv();
    RunPosts(Init(), run);
    RunAsks(Init(), run, t);
    assert [] + Posted(run) == Posted(run) && [] + Asked(run, t) == Asked(run, t);
  }

  // Progress

  /** Statements left before the critical section is left at the latest. */
  function Remaining(p: Point): nat {
    match p
    case AddLookup(_) => 3 case AddAppend(_, _) => 2 case AddNotify => 1
    case GetLookup(_) => 3 case GetTest(_, _) => 2 case GetRemove(_, _) => 1
    case _ => 0
  }

  /** The lock holder can always go on, and each statement brings it closer to giving up the lock. */
  lemma HolderAdvances(s: State, t: Thread)
    requires Inv(s) && s.lock == Some(t)
    ensures Enabled(s, Run(t))
    ensures var s' := Step(s, Run(t));
            (s'.lock.None? || s'.lock == s.lock) && Remaining(At(s', t)) < Remaining(At(s, t))
  {}

  function RunTimes(t: Thread, n: nat): seq<Action> {
    if n == 0 then [] else [Run(t)] + RunTimes(t, n - 1)
  }

  /** At most three statements of the holder free the lock. */
  lemma {:induction false} LockIsFreed(s: State, t: Thread)
    requires Inv(s) && s.lock == Some(t)
    ensures Remaining(At(s, t)) <= 3
    ensures exists n | 0 < n <= Remaining(At(s, t)) :: Legal(s, RunTimes(t, n)) && After(s, RunTimes(t, n)).lock.None?
    decreases Remaining(At(s, t))
  {
    hide Step, Inv, Executable;
    HolderAdvances(s, t);
    StepInv(s, Run(t));
    var s' := Step(s, Run(t));
    if s'.lock.None? {
      assert RunTimes(t, 1) == [Run(t)] && RunTimes(t, 1)[1..] == [];
      assert Legal(s', []) && After(s', []) == s';
      assert Legal(s, RunTimes(t, 1)) && After(s, RunTimes(t, 1)).lock.None?;
    } else {
      LockIsFreed(s', t);
      var n :| 0 < n <= Remaining(At(s', t)) && Legal(s', RunTimes(t, n)) && After(s', RunTimes(t, n)).lock.None?;
      assert RunTimes(t, n + 1)[1..] == RunTimes(t, n);
      assert Legal(s, RunTimes(t, n + 1)) && After(s, RunTimes(t, n + 1)).lock.None?;
    }
  }

  /** With the lock free and a message queued, no consumer of that key is asleep: three steps serve any of them. */
  lemma ConsumerIsServed(s: State, t: Thread)
    requires Inv(s) && s.lock.None? && At(s, t).Waits() && Queued(s, At(s, t).key) != []
    ensures At(s, t).Notified?
    ensures var key := At(s, t).key;
            var steps := [Reacquire(t), Run(t), Run(t)];
            && Legal(s, steps)
            && var s' := After(s, steps);
            s'.lock.None? && At(s', t).Outside? && s'.delivered == s.delivered + [Delivery(t, key, Queued(s, key)[0])]
  {
    var s1 := Step(s, Reacquire(t));
    StepInv(s, Reacquire(t));
    var s2 := Step(s1, Run(t));
    StepInv(s1, Run(t));
    RunOfThree(s, Reacquire(t), Run(t), Run(t));
  }

  /** A statement of the lock holder that does not serve the key keeps its oldest message, and its consumers waiting. */
  lemma KeyUnserved(s: State, h: Thread, t: Thread)
    requires Inv(s) && s.lock == Some(h) && At(s, t).Waits() && Queued(s, At(s, t).key) != []
    requires !(At(s, h).GetRemove? && At(s, h).key == At(s, t).key)
    ensures Enabled(s, Run(h))
    ensures var s' := Step(s, Run(h));
            var key := At(s, t).key;
            && Queued(s', key) != [] && Queued(s', key)[0] == Queued(s, key)[0]
            && DeliveredTo(s'.delivered, key) == DeliveredTo(s.delivered, key)
            && At(s', t).Waits() && At(s', t).key == key
  {
    var key := At(s, t).key;
    var s' := Step(s, Run(h));
    match At(s, h)
    case AddLookup(msg) => FindOrCreateKeepsContents(s, msg.value);
    case AddAppend(msg, _) => UpdateOneKey(s, s', msg.value, Queued(s, msg.value) + [msg]);
    case AddNotify =>
    case GetLookup(k) => FindOrCreateKeepsContents(s, k);
    case GetTest(_, _) =>
    case GetRemove(k, _) =>
      UpdateOneKey(s, s', k, Queued(s, k)[1..]);
      assert s'.delivered[..|s.delivered|] == s.delivered;
  }

  lemma LegalPrefix(s: State, a: Action, run: seq<Action>)
    requires Enabled(s, a) && Legal(Step(s, a), run)
    ensures Legal(s, [a] + run) && After(s, [a] + run) == After(Step(s, a), run)
  {
    hide Step, Enabled;
    assert ([a] + run)[1..] == run;
  }

  lemma {:induction false} LegalConcat(s: State, a: seq<Action>, b: seq<Action>)
    requires Legal(s, a) && Legal(After(s, a), b)
    ensures Legal(s, a + b) && After(s, a + b) == After(After(s, a), b)
    decreases |a|
  {
    hide Step, Enabled;
    if a == [] {
      assert a + b == b;
    } else {
      LegalConcat(Step(s, a[0]), a[1..], b);
      assert (a + b)[0] == a[0] && (a + b)[1..] == a[1..] + b;
    }
  }

  /** The steps before the key of a waiting consumer is served: those of the lock holder, then three of the consumer. */
  function StepsToServe(s: State): nat {
    3 + if s.lock.Some? then Remaining(At(s, s.lock.value)) else 0
  }

  lemma {:induction false} ServeKey(s: State, t: Thread) returns (steps: seq<Action>, u: Thread)
    requires Inv(s) && At(s, t).Waits() && Queued(s, At(s, t).key) != []
    ensures |steps| <= StepsToServe(s) <= 6 && Legal(s, steps)
    ensures var key := At(s, t).key;
            var s' := After(s, steps);
            && s'.delivered != [] && s'.delivered[|s'.delivered| - 1] == Delivery(u, key, Queued(s, key)[0])
            && DeliveredTo(s'.delivered, key) == DeliveredTo(s.delivered, key) + [Queued(s, key)[0]]
    decreases StepsToServe(s)
  {
    hide Step, Inv, DeliveredTo, Queued;
    var key, head := At(s, t).key, Queued(s, At(s, t).key)[0];
    if s.lock.None? {
      ConsumerIsServed(s, t);
      steps, u := [Reacquire(t), Run(t), Run(t)], t;
      DeliveredGrows(s.delivered, Delivery(t, key, head));
    } else {
      var h := s.lock.value;
      HolderAdvances(s, h);
      StepInv(s, Run(h));
      var s' := Step(s, Run(h));
      if At(s, h).GetRemove? && At(s, h).key == key {
        RemoveStatement(s, h);
        steps, u := [Run(h)], h;
        assert Legal(s', []) && After(s', []) == s' && [Run(h)] == [Run(h)] + [];
        LegalPrefix(s, Run(h), []);
        DeliveredGrows(s.delivered, Delivery(h, key, head));
      } else {
        KeyUnserved(s, h, t);
        var rest;
        rest, u := ServeKey(s', t);
        steps := [Run(h)] + rest;
        LegalPrefix(s, Run(h), rest);
      }
    }
  }

  lemma DeliveredGrows(ds: seq<Delivery>, d: Delivery)
    ensures DeliveredTo(ds + [d], d.key) == DeliveredTo(ds, d.key) + [d.msg]
  {
    assert (ds + [d])[..|ds|] == ds;
  }

  /**
    * In every reachable state in which a thread waits for a key that has messages, whoever holds the lock, at most
    * six steps deliver the oldest of them to some thread that asked for this key.
    */
  lemma KeyIsServed(run: seq<Action>, t: Thread)
    requires Legal(Init(), run)
    requires var s := After(Init(), run); At(s, t).Waits() && Queued(s, At(s, t).key) != []
    ensures var s := After(Init(), run);
            var key := At(s, t).key;
            exists steps, u ::
              && |steps| <= 6 && Legal(s, steps)
              && var s' := After(s, steps);
              && s'.delivered != [] && s'.delivered[|s'.delivered| - 1] == Delivery(u, key, Queued(s, key)[0])
              && DeliveredTo(s'.delivered, key) == DeliveredTo(s.delivered, key) + [Queued(s, key)[0]]
  {
    hide Step, Inv, DeliveredTo, Queued;
    InitInv();
    RunInv(Init(), run);
    var steps, u := ServeKey(After(Init(), run), t);
  }

  lemma RunOfThree(s: State, a: Action, b: Action, c: Action)
    requires Enabled(s, a) && Enabled(Step(s, a), b) && Enabled(Step(Step(s, a), b), c)
    ensures Legal(s, [a, b, c]) && After(s, [a, b, c]) == Step(Step(Step(s, a), b), c)
  {
    hide Step, Enabled;
    assert [a, b, c][1..] == [b, c] && [b, c][1..] == [c] && [c][1..] == [];
    var s3 := Step(Step(Step(s, a), b), c);
    assert Legal(s3, []) && After(s3, []) == s3;
    assert Legal(Step(Step(s, a), b), [c]) && After(Step(Step(s, a), b), [c]) == s3;
    assert Legal(Step(s, a), [b, c]) && After(Step(s, a), [b, c]) == s3;
  }

  // What an undisturbed call does to the contents of the mailbox

  function Contents(s: State): map<int, seq<Message>> {
    map k | k in s.queue :: Queued(s, k)
  }

  // looking a key up creates its list
  function WithKey(c: map<int, seq<Message>>, key: int): map<int, seq<Message>> {
    if key in c then c else c[key := []]
  }

  function Put(c: map<int, seq<Message>>, msg: Message): map<int, seq<Message>> {
    WithKey(c, msg.value)[msg.value := WithKey(c, msg.value)[msg.value] + [msg]]
  }

  lemma SameContents(s: State, s': State)
    requires s'.queue == s.queue && s'.lists == s.lists
    ensures Contents(s') == Contents(s)
  {
    assert forall k :: Queued(s', k) == Queued(s, k);
  }

  lemma FindOrCreateContents(s: State, key: int)
    requires OneListPerKey(s)
    ensures Contents(FindOrCreate(s, key).0) == WithKey(Contents(s), key)
  {
    FindOrCreateKeepsContents(s, key);
  }

  lemma EnterStatement(s: State, a: Action)
    requires Inv(s) && Enabled(s, a) && (a.EnterAdd? || a.EnterGet?)
    ensures var s' := Step(s, a);
            && Inv(s') && s'.lock == Some(a.thread) && Contents(s') == Contents(s) && s'.delivered == s.delivered
            && At(s', a.thread) == if a.EnterAdd? then AddLookup(a.msg) else GetLookup(a.key)
  {
    StepInv(s, a);
  }

  lemma LookupStatement(s: State, t: Thread, key: int)
    requires Inv(s) && s.lock == Some(t)
    requires At(s, t) == GetLookup(key) || (At(s, t).AddLookup? && At(s, t).msg.value == key)
    ensures Enabled(s, Run(t))
    ensures var s' := Step(s, Run(t));
            && Inv(s') && s'.lock == s.lock && s'.delivered == s.delivered
            && Contents(s') == WithKey(Contents(s), key)
            && key in s'.queue
            && At(s', t) ==
               if At(s, t).AddLookup? then AddAppend(At(s, t).msg, s'.queue[key]) else GetTest(key, s'.queue[key])
  {
    hide Contents, Queued, NoLostWakeUp, RemovesSomething, Conserved;
    StepInv(s, Run(t));
    FindOrCreateContents(s, key);
    FindOrCreateKeepsContents(s, key);
    SameContents(FindOrCreate(s, key).0, Step(s, Run(t)));
  }

  lemma AppendStatement(s: State, t: Thread)
    requires Inv(s) && s.lock == Some(t) && At(s, t).AddAppend?
    ensures Enabled(s, Run(t))
    ensures var s' := Step(s, Run(t));
            var msg := At(s, t).msg;
            && Inv(s') && s'.lock == s.lock && At(s', t).AddNotify?
            && msg.value in s.queue
            && Contents(s') == Contents(s)[msg.value := Queued(s, msg.value) + [msg]]
  {
    StepInv(s, Run(t));
    UpdateOneKey(s, Step(s, Run(t)), At(s, t).msg.value, Queued(s, At(s, t).msg.value) + [At(s, t).msg]);
  }

  lemma NotifyStatement(s: State, t: Thread)
    requires Inv(s) && s.lock == Some(t) && At(s, t).AddNotify?
    ensures Enabled(s, Run(t))
    ensures var s' := Step(s, Run(t));
            s'.lock.None? && At(s', t).Outside? && Contents(s') == Contents(s) && forall u :: !At(s', u).Parked?
  {}

  lemma TestStatement(s: State, t: Thread)
    requires Inv(s) && s.lock == Some(t) && At(s, t).GetTest?
    ensures Enabled(s, Run(t))
    ensures var s' := Step(s, Run(t));
            var key := At(s, t).key;
            && Inv(s') && Contents(s') == Contents(s) && s'.delivered == s.delivered
            && if Queued(s, key) == [] then s'.lock.None? && At(s', t) == Parked(key, At(s, t).list)
               else s'.lock == s.lock && At(s', t) == GetRemove(key, At(s, t).list)
  {
    StepInv(s, Run(t));
  }

  lemma RemoveStatement(s: State, t: Thread)
    requires Inv(s) && s.lock == Some(t) && At(s, t).GetRemove?
    ensures Enabled(s, Run(t))
    ensures var s' := Step(s, Run(t));
            var key := At(s, t).key;
            && s'.lock.None? && At(s', t).Outside?
            && Queued(s, key) != [] && key in s.queue
            && s'.delivered == s.delivered + [Delivery(t, key, Queued(s, key)[0])]
            && Contents(s') == Contents(s)[key := Queued(s, key)[1..]]
  {
    UpdateOneKey(s, Step(s, Run(t)), At(s, t).key, Queued(s, At(s, t).key)[1..]);
  }

  /** addMsg, run to its end: the message is last under its value, nothing else changes, and nobody is left asleep. */
  lemma AddMsgCall(s: State, t: Thread, msg: Message)
    requires Inv(s) && s.lock.None? && At(s, t).Outside?
    ensures Legal(Step(s, EnterAdd(t, msg)), [Run(t), Run(t), Run(t)])
    ensures var s' := After(Step(s, EnterAdd(t, msg)), [Run(t), Run(t), Run(t)]);
            && s'.lock.None? && At(s', t).Outside?
            && Contents(s') == Put(Contents(s), msg)
            && forall u :: !At(s', u).Parked?
  {
    hide Step, Inv, Legal, After;
    var s1 := Step(s, EnterAdd(t, msg));
    EnterStatement(s, EnterAdd(t, msg));
    LookupStatement(s1, t, msg.value);
    var s2 := Step(s1, Run(t));
    AppendStatement(s2, t);
    NotifyStatement(Step(s2, Run(t)), t);
    RunOfThree(s1, Run(t), Run(t), Run(t));
    assert msg.value in Contents(s2) && Contents(s2)[msg.value] == Queued(s2, msg.value);
  }

  /** getMsg on a key with messages returns the oldest one and takes only it out. */
  lemma GetMsgCall(s: State, t: Thread, key: int)
    requires Inv(s) && s.lock.None? && At(s, t).Outside? && Queued(s, key) != []
    ensures Legal(Step(s, EnterGet(t, key)), [Run(t), Run(t), Run(t)])
    ensures var s' := After(Step(s, EnterGet(t, key)), [Run(t), Run(t), Run(t)]);
            && s'.lock.None? && At(s', t).Outside?
            && s'.delivered == s.delivered + [Delivery(t, key, Queued(s, key)[0])]
            && Contents(s') == Contents(s)[key := Queued(s, key)[1..]]
  {
    hide Step, Inv, Legal, After;
    var s1 := Step(s, EnterGet(t, key));
    EnterStatement(s, EnterGet(t, key));
    LookupStatement(s1, t, key);
    var s2 := Step(s1, Run(t));
    assert Contents(s)[key] == Queued(s, key) && Contents(s2)[key] == Queued(s2, key);
    TestStatement(s2, t);
    var s3 := Step(s2, Run(t));
    assert key in Contents(s3) && Contents(s3)[key] == Queued(s3, key);
    RemoveStatement(s3, t);
    RunOfThree(s1, Run(t), Run(t), Run(t));
  }

  /** getMsg on a key without messages goes to sleep and gives up the lock. */
  lemma GetMsgWaits(s: State, t: Thread, key: int)
    requires Inv(s) && s.lock.None? && At(s, t).Outside? && Queued(s, key) == []
    ensures Legal(s, [EnterGet(t, key), Run(t), Run(t)])
    ensures var s' := After(s, [EnterGet(t, key), Run(t), Run(t)]);
            && s'.lock.None? && At(s', t).Parked? && At(s', t).key == key
            && Contents(s') == WithKey(Contents(s), key) && s'.delivered == s.delivered
  {
    hide Step, Inv, Legal, After;
    var s1 := Step(s, EnterGet(t, key));
    EnterStatement(s, EnterGet(t, key));
    LookupStatement(s1, t, key);
    var s2 := Step(s1, Run(t));
    assert key in Contents(s2) && Contents(s2)[key] == Queued(s2, key);
    assert key in Contents(s) ==> Contents(s)[key] == Queued(s, key);
    TestStatement(s2, t);
    RunOfThree(s, EnterGet(t, key), Run(t), Run(t));
  }
}
