/** The mailbox as a Java object: a map of linked lists, updated in place by the bodies of addMsg and getMsg. */
module MessageQueues {
  import opened Basics
  import opened MailboxProtocol

  class LinkedList {
    var items: seq<Message>

    constructor ()
      ensures items == []
    {
      items := [];
    }

    method AddLast(msg: Message)
      modifies this
      ensures items == old(items) + [msg]
    {
      items := items + [msg];
    }

    // Java throws on an empty list; getMsg never gets there
    method Remove() returns (msg: Message)
      requires items != []
      modifies this
      ensures [msg] + items == old(items)
    {
      msg := items[0];
      items := items[1..];
    }
  }

  /** A call that another thread runs to its end while this one waits; Take finds its message at once, or none. */
  datatype Call = Add(msg: Message) | Take(key: int)

  function Effect(c: map<int, seq<Message>>, call: Call): map<int, seq<Message>> {
    match call
    case Add(msg) => Put(c, msg)
    case Take(key) =>
      var d := WithKey(c, key);
      if d[key] == [] then d else d[key := d[key][1..]]
  }

  function Effects(c: map<int, seq<Message>>, calls: seq<Call>): (d: map<int, seq<Message>>)
    ensures c.Keys <= d.Keys
    decreases |calls|
  {
    if calls == [] then c else Effects(Effect(c, calls[0]), calls[1..])
  }

  /** What getMsg returns and leaves when its successive waits are filled by these calls; None if it still waits. */
  function Getting(c: map<int, seq<Message>>, key: int, waits: seq<seq<Call>>)
    : (Option<Message>, map<int, seq<Message>>)
    requires key in c
    decreases |waits|
  {
    if c[key] != [] then (Some(c[key][0]), c[key := c[key][1..]])
    else if waits == [] then (None, c)
    else Getting(Effects(c, waits[0]), key, waits[1..])
  }

  class MessageQueue {
    var queue: map<int, LinkedList>

    ghost predicate Valid()
      reads this
    {
      forall j, k | j in queue && k in queue && queue[j] == queue[k] :: j == k
    }

    ghost function Contents(): map<int, seq<Message>>
      reads this, queue.Values
    {
      map k | k in queue :: queue[k].items
    }

    constructor ()
      ensures Valid() && Contents() == map[]
    {
      queue := map[];
    }

    // queue.get(id), and queue.put of a new list if that is null: the opening lines of both methods
    method FindOrPut(id: int) returns (list: LinkedList)
      requires Valid()
      modifies this
      ensures Valid() && id in queue && queue[id] == list
      ensures old(queue.Keys) <= queue.Keys && forall k | k in old(queue) :: queue[k] == old(queue[k])
      ensures fresh(queue.Values - old(queue.Values))
      ensures Contents() == WithKey(old(Contents()), id)
    {
      if id in queue {
        list := queue[id];
      } else {
        list := new LinkedList();
        queue := queue[id := list];
      }
    }

    method AddMsg(msg: Message)
      requires Valid()
      modifies this, queue.Values
      ensures Valid()
      ensures old(queue.Keys) <= queue.Keys && forall k | k in old(queue) :: queue[k] == old(queue[k])
      ensures fresh(queue.Values - old(queue.Values))
      ensures Contents() == Put(old(Contents()), msg)
    {
      var list := FindOrPut(msg.value);
      ghost var found := Contents();
      list.AddLast(msg);
      assert forall k | k in queue && k != msg.value :: queue[k].items == found[k];
      assert Contents() == found[msg.value := found[msg.value] + [msg]];
    }

    // list.remove() on the list of a key
    method TakeFrom(key: int, list: LinkedList) returns (msg: Message)
      requires Valid() && key in queue && queue[key] == list && list.items != []
      modifies list
      ensures Contents() == old(Contents())[key := old(Contents())[key][1..]]
      ensures msg == old(Contents())[key][0]
    {
      msg := list.Remove();
      assert forall k | k in queue && k != key :: queue[k] != list;
      assert forall k | k in queue :: queue[k].items == if k == key then old(list.items)[1..] else old(queue[k].items);
    }

    method OtherThread(call: Call)
      requires Valid()
      modifies this, queue.Values
      ensures Valid()
      ensures old(queue.Keys) <= queue.Keys && forall k | k in old(queue) :: queue[k] == old(queue[k])
      ensures fresh(queue.Values - old(queue.Values))
      ensures Contents() == Effect(old(Contents()), call)
    {
      match call
      case Add(msg) => AddMsg(msg);
      case Take(key) =>
        var list := FindOrPut(key);
        if list.items != [] {
          var msg := TakeFrom(key, list);
        }
    }

    /** wait() with what the other threads do before this one runs again. */
    method Wait(calls: seq<Call>)
      requires Valid()
      modifies this, queue.Values
      ensures Valid()
      ensures old(queue.Keys) <= queue.Keys && forall k | k in old(queue) :: queue[k] == old(queue[k])
      ensures fresh(queue.Values - old(queue.Values))
      ensures Contents() == Effects(old(Contents()), calls)
    {
      if calls != [] {
        OtherThread(calls[0]);
        Wait(calls[1..]);
      }
    }

    method GetMsg(msgValue: int, waits: seq<seq<Call>>) returns (r: Option<Message>)
      requires Valid()
      modifies this, queue.Values
      ensures Valid()
      ensures (r, Contents()) == Getting(WithKey(old(Contents()), msgValue), msgValue, waits)
    {
      var list := FindOrPut(msgValue);
      ghost var start := Contents();
      var n := 0;
      while list.items == []
        invariant Valid() && msgValue in queue && queue[msgValue] == list
        invariant fresh(queue.Values - old(queue.Values))
        invariant n <= |waits|
        invariant Getting(start, msgValue, waits) == Getting(Contents(), msgValue, waits[n..])
        decreases |waits| - n
      {
        if n == |waits| {
          return None;
        }
        Wait(waits[n]);
        n := n + 1;
      }
      var msg := TakeFrom(msgValue, list);
      return Some(msg);
    }
  }

  // What getMsg means for its caller

  /** The mailbox after the first n waits. */
  function AfterWaits(c: map<int, seq<Message>>, waits: seq<seq<Call>>, n: nat): (d: map<int, seq<Message>>)
    requires n <= |waits|
    ensures c.Keys <= d.Keys
    decreases n
  {
    if n == 0 then c else AfterWaits(Effects(c, waits[0]), waits[1..], n - 1)
  }

  /** getMsg sleeps through exactly the waits that leave its key empty, and then takes the oldest message. */
  lemma {:induction false} GetMsgReturnsAtFirstMessage(c: map<int, seq<Message>>, key: int,
                                                       waits: seq<seq<Call>>, n: nat)
    requires key in c && n <= |waits|
    requires forall j | 0 <= j < n :: AfterWaits(c, waits, j)[key] == []
    ensures var d := AfterWaits(c, waits, n);
            && (d[key] != [] ==> Getting(c, key, waits) == (Some(d[key][0]), d[key := d[key][1..]]))
            && (d[key] == [] && n == |waits| ==> Getting(c, key, waits) == (None, d))
    decreases n
  {
    if n > 0 {
      assert AfterWaits(c, waits, 0)[key] == [];
      var d, rest := Effects(c, waits[0]), waits[1..];
      forall j | 0 <= j < n - 1 ensures AfterWaits(d, rest, j)[key] == [] {
        assert AfterWaits(c, waits, j + 1) == AfterWaits(d, rest, j);
      }
      GetMsgReturnsAtFirstMessage(d, key, rest, n - 1);
    }
  }

  // The effects are those of runs of the protocol

  /** A call by a thread that is outside, run to its end, or until it waits. */
  function CallRun(s: State, u: Thread, call: Call): seq<Action> {
    match call
    case Add(msg) => [EnterAdd(u, msg), Run(u), Run(u), Run(u)]
    case Take(key) =>
      if Queued(s, key) == [] then [EnterGet(u, key), Run(u), Run(u)] else [EnterGet(u, key), Run(u), Run(u), Run(u)]
  }

  /** So run, a call has the effect given for it. */
  lemma CallIsARun(s: State, u: Thread, call: Call)
    requires Inv(s) && s.lock.None? && At(s, u).Outside?
    ensures Legal(s, CallRun(s, u, call))
    ensures var s' := After(s, CallRun(s, u, call));
            Inv(s') && s'.lock.None? && Contents(s') == Effect(Contents(s), call)
  {
    hide Inv, Step, Legal, After, Contents, Queued, Enabled;
    var calls: seq<Action> := [Run(u), Run(u), Run(u)];
    match call {
      case Add(msg) =>
        AddMsgCall(s, u, msg);
        CanEnter(s, EnterAdd(u, msg));
        LegalPrefix(s, EnterAdd(u, msg), calls);
        assert CallRun(s, u, call) == [EnterAdd(u, msg)] + calls;
      case Take(key) =>
        ContentsAt(s, key);
        if Queued(s, key) == [] {
          GetMsgWaits(s, u, key);
        } else {
          GetMsgCall(s, u, key);
          CanEnter(s, EnterGet(u, key));
          LegalPrefix(s, EnterGet(u, key), calls);
          assert CallRun(s, u, call) == [EnterGet(u, key)] + calls;
        }
    }
    RunInv(s, CallRun(s, u, call));
  }

  lemma CanEnter(s: State, a: Action)
    requires (a.EnterAdd? || a.EnterGet?) && s.lock.None? && At(s, a.thread).Outside?
    ensures Enabled(s, a)
  {}

  lemma ContentsAt(s: State, key: int)
    requires Inv(s)
    ensures key in Contents(s) ==> Contents(s)[key] == Queued(s, key)
    ensures Queued(s, key) != [] ==> key in Contents(s)
  {}

  /** In wait(), or woken from it, within getMsg(key). */
  predicate Sleeps(p: Point, key: int) {
    (p.Parked? || p.Notified?) && p.key == key
  }

  lemma OtherLetsSleep(s: State, a: Action, t: Thread, key: int)
    requires Enabled(s, a) && Sleeps(At(s, t), key) && a.thread != t
    ensures Sleeps(At(Step(s, a), t), key)
  {}

  lemma {:induction false} OthersLetSleep(s: State, run: seq<Action>, t: Thread, key: int)
    requires Legal(s, run) && Sleeps(At(s, t), key) && forall a | a in run :: a.thread != t
    ensures Sleeps(At(After(s, run), t), key)
    decreases |run|
  {
    hide Step, Enabled, At, Sleeps;
    if run != [] {
      assert run[0] in run && forall a | a in run[1..] :: a in run;
      OtherLetsSleep(s, run[0], t, key);
      OthersLetSleep(Step(s, run[0]), run[1..], t, key);
    }
  }

  lemma {:induction false} BoundOf(ts: set<int>) returns (b: int)
    ensures forall t | t in ts :: t < b
  {
    if t :| t in ts {
      b := BoundOf(ts - {t});
      assert forall u | u in ts :: u == t || u in ts - {t};
      b := if t < b then b else t + 1;
    } else {
      b := 0;
    }
  }

  /** While one thread sleeps, others can make any calls, and these have the effects given for them. */
  lemma {:induction false} CallsAreARun(s: State, calls: seq<Call>, t: Thread, key: int) returns (run: seq<Action>)
    requires Inv(s) && s.lock.None? && Sleeps(At(s, t), key)
    ensures Legal(s, run)
    ensures var s' := After(s, run);
            Inv(s') && s'.lock.None? && Sleeps(At(s', t), key) && Contents(s') == Effects(Contents(s), calls)
    decreases |calls|
  {
    hide Inv, Contents, Queued, Enabled, Step, Legal, After;
    if calls == [] {
      run := [];
      NoSteps(s);
    } else {
      var u := BoundOf(s.threads.Keys);
      var first := CallRun(s, u, calls[0]);
      CallIsARun(s, u, calls[0]);
      OthersLetSleep(s, first, t, key);
      var rest := CallsAreARun(After(s, first), calls[1..], t, key);
      LegalConcat(s, first, rest);
      run := first + rest;
    }
  }

  lemma NoSteps(s: State)
    ensures Legal(s, []) && After(s, []) == s
  {}

  /** A sleeping thread can test its list again whenever the lock is free. */
  lemma WakesAndTests(s: State, t: Thread, key: int) returns (run: seq<Action>)
    requires Inv(s) && s.lock.None? && Sleeps(At(s, t), key)
    ensures Legal(s, run)
    ensures var s' := After(s, run);
            Inv(s') && s'.lock == Some(t) && At(s', t).GetTest? && At(s', t).key == key && Contents(s') == Contents(s)
  {
    hide Inv, Contents;
    var s1 := if At(s, t).Parked? then Step(s, WakeUp(t)) else s;
    var s2 := Step(s1, Reacquire(t));
    assert Legal(s2, []) && After(s2, []) == s2;
    LegalPrefix(s1, Reacquire(t), []);
    run := [Reacquire(t)] + [];
    if At(s, t).Parked? {
      LegalPrefix(s, WakeUp(t), run);
      run := [WakeUp(t)] + run;
    }
    RunInv(s, run);
    SameContents(s, s2);
  }

  predicate DeliversLast(s: State, d: Delivery) {
    s.delivered != [] && s.delivered[|s.delivered| - 1] == d
  }

  /** What the loop of getMsg makes of its waits is what a run of the protocol makes of them. */
  lemma {:induction false} LoopIsARun(s: State, t: Thread, key: int, waits: seq<seq<Call>>) returns (run: seq<Action>)
    requires Inv(s) && s.lock == Some(t) && At(s, t).GetTest? && At(s, t).key == key && key in Contents(s)
    ensures Legal(s, run)
    ensures var s' := After(s, run);
            var (r, left) := Getting(Contents(s), key, waits);
            && s'.lock.None? && Contents(s') == left
            && match r
               case None => Sleeps(At(s', t), key)
               case Some(msg) => At(s', t).Outside? && DeliversLast(s', Delivery(t, key, msg))
    decreases |waits|
  {
    hide Inv, Contents, Queued, Enabled, Step, Effects;
    TestStatement(s, t);
    var s1 := Step(s, Run(t));
    ContentsAt(s, key);
    NoSteps(s1);
    LegalPrefix(s, Run(t), []);
    run := [Run(t)] + [];
    if Contents(s)[key] != [] {
      RemoveStatement(s1, t);
      ContentsAt(s1, key);
      NoSteps(Step(s1, Run(t)));
      LegalPrefix(s1, Run(t), []);
      LegalPrefix(s, Run(t), run);
      run := [Run(t)] + run;
    } else if waits != [] {
      var calls := CallsAreARun(s1, waits[0], t, key);
      var s2 := After(s1, calls);
      var wake := WakesAndTests(s2, t, key);
      var s3 := After(s2, wake);
      var rest := LoopIsARun(s3, t, key, waits[1..]);
      LegalConcat(s2, wake, rest);
      LegalConcat(s1, calls, wake + rest);
      run := calls + (wake + rest);
      LegalPrefix(s, Run(t), run);
      run := [Run(t)] + run;
    }
  }

  /**
    * Every execution of getMsg that the class describes is a run of the protocol: with the same waits, it delivers the
    * same message to the calling thread and leaves the same contents.
    */
  lemma GetMsgIsARun(s: State, t: Thread, key: int, waits: seq<seq<Call>>) returns (run: seq<Action>)
    requires Inv(s) && s.lock.None? && At(s, t).Outside?
    ensures Legal(s, [EnterGet(t, key)] + run)
    ensures var s' := After(s, [EnterGet(t, key)] + run);
            var (r, left) := Getting(WithKey(Contents(s), key), key, waits);
            && s'.lock.None? && Contents(s') == left
            && match r
               case None => Sleeps(At(s', t), key)
               case Some(msg) => At(s', t).Outside? && DeliversLast(s', Delivery(t, key, msg))
  {
    hide Inv, Contents, Queued, Step, Getting;
    var s1 := Step(s, EnterGet(t, key));
    CanEnter(s, EnterGet(t, key));
    EnterStatement(s, EnterGet(t, key));
    LookupStatement(s1, t, key);
    var s2 := Step(s1, Run(t));
    var rest := LoopIsARun(s2, t, key, waits);
    run := [Run(t)] + rest;
    LegalPrefix(s1, Run(t), rest);
    LegalPrefix(s, EnterGet(t, key), run);
  }
}
