/**
  * Asynchronous writes: control blocks and buffers on the heap, the list that remembers them, and a kernel
  * that may finish any request between any two system calls of the process.
  */
module AioProtocol {
  import opened Basics

  type Address = int

  const EINPROGRESS := 115

  /** An aiocb as submitted; `submission` is its place in the history of accepted requests. */
  datatype Block = Block(fildes: int, buffer: Address, nbytes: nat, submission: nat)

  /** A buffer, and the block it was allocated for. */
  datatype Buffer = Buffer(block: Address, bytes: seq<byte>)

  datatype Request = Request(fildes: int, payload: seq<byte>)

  /** What the kernel knows of a request: its status, and the result once it has one. */
  datatype Status = InProgress | Finished(error: int, result: int)

  /**
    * A pass of gc: the list it began with and the blocks whose requests were complete by then, the statuses seen
    * so far, and the position of the iterator.
    */
  datatype Pass = Pass(start: seq<Address>, done: set<Address>, seen: seq<int>, position: nat)

  datatype State = State(
    cbs: seq<Address>,              // m_cbs
    blocks: map<Address, Block>,    // allocated control blocks
    buffers: map<Address, Buffer>,  // allocated buffers
    kernel: map<Address, Status>,
    gc: Option<Pass>,
    requests: seq<Request>,         // history of successful aio_write calls
    live: map<nat, Address>,        // the block of every submission not yet reclaimed
    freed: seq<nat>,                // history of reclaimed submissions
    completed: set<nat>             // history of submissions that the kernel has finished
  )

  datatype Action =
    // aioWrite is the result of aio_write; cb and buffer are what new and malloc return
    | Write(fildes: int, payload: seq<byte>, aioWrite: int, cb: Address, buffer: Address)
    // the kernel finishes a request
    | Complete(cb: Address, error: int, result: int)
    | BeginGc
    // one turn of the loop in gc
    | Visit
    | EndGc

  function Init(): State {
    State([], map[], map[], map[], None, [], map[], [], {})
  }

  function AioError(s: State, cb: Address): int {
    if cb in s.kernel && s.kernel[cb].Finished? then s.kernel[cb].error else EINPROGRESS
  }

  /** An allocation returns any address that is not in use; one freed before may come again. */
  predicate Free(s: State, a: Address) {
    a !in s.blocks && a !in s.buffers
  }

  predicate Enabled(s: State, a: Action) {
    match a
    case Write(_, _, _, cb, buffer) => s.gc.None? && cb != buffer && Free(s, cb) && Free(s, buffer)
    case Complete(cb, error, _) => cb in s.kernel && s.kernel[cb].InProgress? && cb in s.blocks && error != EINPROGRESS
    case BeginGc => s.gc.None?
    case Visit => s.gc.Some? && s.gc.value.position < |s.cbs| && s.cbs[s.gc.value.position] in s.blocks
    case EndGc => s.gc.Some? && s.gc.value.position == |s.cbs|
  }

  function Step(s: State, a: Action): State
    requires Enabled(s, a)
  {
    match a
    case Write(fildes, payload, aioWrite, cb, buffer) =>
      if aioWrite != 0 then s  // both allocations are freed at once
      else Submit(s, fildes, payload, cb, buffer)
    case Complete(cb, error, result) =>
      s.(kernel := s.kernel[cb := Finished(error, result)], completed := s.completed + {s.blocks[cb].submission})
    case BeginGc => s.(gc := Some(Pass(s.cbs, set cb | cb in s.kernel && s.kernel[cb].Finished?, [], 0)))
    case Visit =>
      var pass := s.gc.value;
      var cb := s.cbs[pass.position];
      var status := AioError(s, cb);
      var seen := pass.seen + [status];
      if status != EINPROGRESS then Reclaim(s, cb).(cbs := Erase(s.cbs, pass.position), gc := Some(pass.(seen := seen)))
      else s.(gc := Some(pass.(seen := seen, position := pass.position + 1)))
    case EndGc => s.(gc := None)
  }

  function Submit(s: State, fildes: int, payload: seq<byte>, cb: Address, buffer: Address): State {
    s.(cbs := s.cbs + [cb],
       blocks := s.blocks[cb := Block(fildes, buffer, |payload|, |s.requests|)],
       buffers := s.buffers[buffer := Buffer(cb, payload)],
       kernel := s.kernel[cb := InProgress],
       requests := s.requests + [Request(fildes, payload)],
       live := s.live[|s.requests| := cb])
  }

  // aio_return, free of the buffer, delete of the block
  function Reclaim(s: State, cb: Address): State
    requires cb in s.blocks
  {
    var block := s.blocks[cb];
    s.(kernel := s.kernel - {cb}, buffers := s.buffers - {block.buffer}, blocks := s.blocks - {cb},
       live := s.live - {block.submission}, freed := s.freed + [block.submission])
  }

  function Erase<T>(xs: seq<T>, i: nat): (r: seq<T>)
    requires i < |xs|
    ensures |r| == |xs| - 1
  {
    xs[..i] + xs[i + 1..]
  }

  /** The blocks whose observed status was EINPROGRESS, in their order. */
  function Keep<T>(xs: seq<T>, statuses: seq<int>): (r: seq<T>)
    requires |xs| <= |statuses|
    ensures |r| <= |xs|
    decreases |xs|
  {
    if xs == [] then []
    else
      var n := |xs| - 1;
      Keep(xs[..n], statuses) + if statuses[n] == EINPROGRESS then [xs[n]] else []
  }

  predicate Legal(s: State, run: seq<Action>)
    decreases |run|
  {
    run == [] || (Enabled(s, run[0]) && Legal(Step(s, run[0]), run[1..]))
  }

  function After(s: State, run: seq<Action>): State
    requires Legal(s, run)
    decreases |run|
  {
    if run == [] then s else After(Step(s, run[0]), run[1..])
  }

  // The invariant

  ghost predicate Distinct<T(!new)>(xs: seq<T>) {
    forall i, j | 0 <= i < j < |xs| :: xs[i] != xs[j]
  }

  /** The live blocks are the contents of the list, each with a buffer of its own, and the kernel knows no others. */
  ghost predicate Owned(s: State) {
    && Distinct(s.cbs)
    && (forall cb :: cb in s.blocks <==> cb in s.cbs)
    && s.kernel.Keys == s.blocks.Keys
    && (forall cb | cb in s.blocks ::
          s.blocks[cb].buffer in s.buffers && s.buffers[s.blocks[cb].buffer].block == cb && cb !in s.buffers)
    && (forall b | b in s.buffers :: s.buffers[b].block in s.blocks && s.blocks[s.buffers[b].block].buffer == b)
  }

  /** Every live block describes its submission, and its buffer still holds the payload. */
  ghost predicate PayloadsIntact(s: State) {
    forall cb | cb in s.blocks ::
      var block := s.blocks[cb];
      && block.submission < |s.requests|
      && block.fildes == s.requests[block.submission].fildes
      && block.nbytes == |s.requests[block.submission].payload|
      && block.buffer in s.buffers && s.buffers[block.buffer].bytes == s.requests[block.submission].payload
  }

  /** Every submission either has one live block or has been freed, and never both or twice. */
  ghost predicate FreedOnce(s: State) {
    && (forall n | n in s.live :: s.live[n] in s.blocks && s.blocks[s.live[n]].submission == n)
    && (forall cb | cb in s.blocks :: s.blocks[cb].submission in s.live && s.live[s.blocks[cb].submission] == cb)
    && (forall n: nat :: n < |s.requests| <==> n in s.live || n in s.freed)
    && (forall n | n in s.freed :: n !in s.live)
    && Distinct(s.freed)
  }

  /** The kernel's view agrees with the history of completions, and nothing is freed before its completion. */
  ghost predicate KernelAgrees(s: State) {
    && (forall cb | cb in s.kernel && cb in s.blocks ::
          s.kernel[cb].Finished? <==> s.blocks[cb].submission in s.completed)
    && (forall cb | cb in s.kernel && s.kernel[cb].Finished? :: s.kernel[cb].error != EINPROGRESS)
    && (forall n | n in s.freed :: n in s.completed)
    && (forall n | n in s.completed :: n < |s.requests|)
  }

  /**
    * After as many turns as there are statuses seen, the list is the kept part of what was visited, up to the
    * iterator, followed by what was not visited.
    */
  ghost predicate Filtered<T>(start: seq<T>, seen: seq<int>, position: nat, cbs: seq<T>) {
    var n := |seen|;
    && n <= |start|
    && cbs == Keep(start[..n], seen) + start[n..]
    && position == |Keep(start[..n], seen)|
  }

  /** No block that was complete when the pass began has been kept. */
  ghost predicate PassOn(pass: Pass, cbs: seq<Address>) {
    && Filtered(pass.start, pass.seen, pass.position, cbs)
    && forall i | 0 <= i < |pass.seen| && i < |pass.start| && pass.start[i] in pass.done :: pass.seen[i] != EINPROGRESS
  }

  ghost predicate PassAgrees(s: State) {
    s.gc.Some? ==>
      PassOn(s.gc.value, s.cbs) && forall cb | cb in s.gc.value.done && cb in s.kernel :: s.kernel[cb].Finished?
  }

  ghost predicate Inv(s: State) {
    Owned(s) && PayloadsIntact(s) && FreedOnce(s) && KernelAgrees(s) && PassAgrees(s)
  }

  lemma InitInv()
    ensures Inv(Init())
  {}

  lemma {:induction false} KeepIgnoresTail<T>(xs: seq<T>, statuses: seq<int>, more: seq<int>)
    requires |xs| <= |statuses|
    ensures Keep(xs, statuses + more) == Keep(xs, statuses)
    decreases |xs|
  {
    if xs != [] {
      KeepIgnoresTail(xs[..|xs| - 1], statuses, more);
    }
  }

  lemma KeepOneMore<T>(visited: seq<T>, x: T, seen: seq<int>, status: int)
    requires |visited| == |seen|
    ensures Keep(visited + [x], seen + [status]) ==
            if status == EINPROGRESS then Keep(visited, seen) + [x] else Keep(visited, seen)
  {
    assert (visited + [x])[..|visited|] == visited;
    KeepIgnoresTail(visited, seen, [status]);
  }

  lemma FilterBegins<T>(start: seq<T>)
    ensures Filtered(start, [], 0, start)
  {
    assert start[..0] == [];
  }

  lemma FilterGoesOn<T>(start: seq<T>, seen: seq<int>, position: nat, cbs: seq<T>)
    requires Filtered(start, seen, position, cbs) && position < |cbs|
    ensures |seen| < |start| && cbs[position] == start[|seen|]
  {
    hide Keep;
    assert |cbs| == position + |start[|seen|..]|;
  }

  /** One turn of the loop: erase the visited block, or advance the iterator. */
  lemma FilterTurn<T>(start: seq<T>, seen: seq<int>, position: nat, cbs: seq<T>, status: int)
    requires Filtered(start, seen, position, cbs) && position < |cbs|
    ensures if status == EINPROGRESS then Filtered(start, seen + [status], position + 1, cbs)
            else Filtered(start, seen + [status], position, Erase(cbs, position))
  {
    hide Keep;
    var n := |seen|;
    var kept := Keep(start[..n], seen);
    FilterGoesOn(start, seen, position, cbs);
    var x, rest := start[n], start[n + 1..];
    assert start[..n] + [x] == start[..n + 1];
    assert cbs == kept + ([x] + rest) == (kept + [x]) + rest;
    KeepOneMore(start[..n], x, seen, status);
    assert Erase(cbs, position) == kept + rest;
  }

  lemma FilterEnds<T>(start: seq<T>, seen: seq<int>, position: nat, cbs: seq<T>)
    requires Filtered(start, seen, position, cbs) && position >= |cbs|
    ensures |seen| == |start| && cbs == Keep(start, seen)
  {
    hide Keep;
    var n := |seen|;
    assert |cbs| == position + |start[n..]|;
    assert start[n..] == [] && start[..n] == start;
  }

  lemma EraseMembers(xs: seq<Address>, i: nat)
    requires i < |xs| && Distinct(xs)
    ensures Distinct(Erase(xs, i))
    ensures forall x :: x in Erase(xs, i) <==> x in xs && x != xs[i]
  {
    var rest := Erase(xs, i);
    forall j | 0 <= j < |rest| ensures rest[j] == xs[if j < i then j else j + 1] {}
    forall x | x in xs && x != xs[i] ensures x in rest {
      var j :| 0 <= j < |xs| && xs[j] == x;
      assert rest[if j < i then j else j - 1] == x;
    }
  }

  lemma SubmitOwned(s: State, a: Action)
    requires Owned(s) && Enabled(s, a) && a.Write?
    ensures Owned(Submit(s, a.fildes, a.payload, a.cb, a.buffer))
  {
    var s' := Submit(s, a.fildes, a.payload, a.cb, a.buffer);
    assert a.cb !in s.cbs;
    assert forall cb :: cb in s'.cbs <==> cb in s.cbs || cb == a.cb;
  }

  lemma SubmitPayloads(s: State, a: Action)
    requires Owned(s) && PayloadsIntact(s) && Enabled(s, a) && a.Write?
    ensures PayloadsIntact(Submit(s, a.fildes, a.payload, a.cb, a.buffer))
  {}

  lemma SubmitFreedOnce(s: State, a: Action)
    requires FreedOnce(s) && PayloadsIntact(s) && Enabled(s, a) && a.Write?
    ensures FreedOnce(Submit(s, a.fildes, a.payload, a.cb, a.buffer))
  {
    assert |s.requests| !in s.live && |s.requests| !in s.freed;
  }

  lemma WriteInv(s: State, a: Action)
    requires Inv(s) && Enabled(s, a) && a.Write?
    ensures Inv(Step(s, a))
  {
    hide Owned, PayloadsIntact, FreedOnce;
    if a.aioWrite == 0 {
      SubmitOwned(s, a);
      SubmitPayloads(s, a);
      SubmitFreedOnce(s, a);
      SubmitKernel(s, a);
    }
  }

  lemma SubmitKernel(s: State, a: Action)
    requires KernelAgrees(s) && PayloadsIntact(s) && Enabled(s, a) && a.Write?
    ensures KernelAgrees(Submit(s, a.fildes, a.payload, a.cb, a.buffer))
  {}

  lemma CompleteInv(s: State, a: Action)
    requires Inv(s) && Enabled(s, a) && a.Complete?
    ensures Inv(Step(s, a))
  {
    hide Distinct, PassOn;
    var s' := Step(s, a);
    assert Owned(s') && PayloadsIntact(s') && FreedOnce(s');
    forall cb | cb in s.blocks && s.blocks[cb].submission == s.blocks[a.cb].submission ensures cb == a.cb {
      assert s.live[s.blocks[cb].submission] == cb;
    }
    assert s.blocks[a.cb].submission < |s.requests|;
  }

  lemma OnlyGcChanges(s: State, s': State)
    requires s' == s.(gc := s'.gc)
    ensures Owned(s) ==> Owned(s')
    ensures PayloadsIntact(s) ==> PayloadsIntact(s')
    ensures FreedOnce(s) ==> FreedOnce(s')
    ensures KernelAgrees(s) ==> KernelAgrees(s')
  {}

  lemma GcBoundaryInv(s: State, a: Action)
    requires Inv(s) && Enabled(s, a) && (a.BeginGc? || a.EndGc?)
    ensures Inv(Step(s, a))
  {
    hide Filtered, Owned, PayloadsIntact, FreedOnce, KernelAgrees;
    OnlyGcChanges(s, Step(s, a));
    if a.BeginGc? {
      FilterBegins(s.cbs);
    }
  }

  lemma ReclaimOwned(s: State, i: nat, gc: Option<Pass>)
    requires Owned(s) && PayloadsIntact(s) && i < |s.cbs| && s.cbs[i] in s.blocks
    ensures var s' := Reclaim(s, s.cbs[i]).(cbs := Erase(s.cbs, i), gc := gc); Owned(s') && PayloadsIntact(s')
  {
    hide Erase;
    EraseMembers(s.cbs, i);
  }

  lemma ReclaimFreedOnce(s: State, cb: Address, cbs: seq<Address>, gc: Option<Pass>)
    requires FreedOnce(s) && cb in s.blocks
    ensures FreedOnce(Reclaim(s, cb).(cbs := cbs, gc := gc))
  {
    var n := s.blocks[cb].submission;
    assert n in s.live && s.live[n] == cb;
    assert forall m: nat :: m in Reclaim(s, cb).freed <==> m in s.freed || m == n;
  }

  lemma ReclaimKernel(s: State, cb: Address, cbs: seq<Address>, gc: Option<Pass>)
    requires KernelAgrees(s) && cb in s.blocks && s.blocks[cb].submission in s.completed
    ensures KernelAgrees(Reclaim(s, cb).(cbs := cbs, gc := gc))
  {}

  /** The visited block is live; a status other than EINPROGRESS means that its request is complete, and conversely. */
  lemma VisitedStatus(s: State)
    requires Inv(s) && Enabled(s, Visit)
    ensures var cb := s.cbs[s.gc.value.position];
            && (cb in s.gc.value.done ==> AioError(s, cb) != EINPROGRESS)
            && (AioError(s, cb) != EINPROGRESS <==> s.blocks[cb].submission in s.completed)
  {
    hide PassOn, Distinct, PayloadsIntact, FreedOnce;
  }

  /** One turn of the loop keeps the pass on its list; the visited block is the next one of the list it began with. */
  lemma PassTurn(pass: Pass, cbs: seq<Address>, status: int)
    requires PassOn(pass, cbs) && pass.position < |cbs|
    requires cbs[pass.position] in pass.done ==> status != EINPROGRESS
    ensures var seen := pass.seen + [status];
            if status != EINPROGRESS then PassOn(pass.(seen := seen), Erase(cbs, pass.position))
            else PassOn(pass.(seen := seen, position := pass.position + 1), cbs)
  {
    hide Filtered, Erase;
    FilterGoesOn(pass.start, pass.seen, pass.position, cbs);
    FilterTurn(pass.start, pass.seen, pass.position, cbs, status);
    assert forall i | 0 <= i < |pass.seen| :: (pass.seen + [status])[i] == pass.seen[i];
  }

  lemma VisitInv(s: State)
    requires Inv(s) && Enabled(s, Visit)
    ensures Inv(Step(s, Visit))
  {
    hide PassOn, Owned, PayloadsIntact, FreedOnce, KernelAgrees;
    var s' := Step(s, Visit);
    var pass := s.gc.value;
    var cb := s.cbs[pass.position];
    VisitedStatus(s);
    PassTurn(pass, s.cbs, AioError(s, cb));
    if AioError(s, cb) != EINPROGRESS {
      ReclaimOwned(s, pass.position, s'.gc);
      ReclaimFreedOnce(s, cb, s'.cbs, s'.gc);
      ReclaimKernel(s, cb, s'.cbs, s'.gc);
    } else {
      OnlyGcChanges(s, s');
    }
  }

  lemma StepInv(s: State, a: Action)
    requires Inv(s) && Enabled(s, a)
    ensures Inv(Step(s, a))
  {
    hide Inv, Step;
    match a
    case Write(_, _, _, _, _) => WriteInv(s, a);
    case Complete(_, _, _) => CompleteInv(s, a);
    case BeginGc => GcBoundaryInv(s, a);
    case Visit => VisitInv(s);
    case EndGc => GcBoundaryInv(s, a);
  }

  lemma {:induction false} RunInv(s: State, run: seq<Action>)
    requires Inv(s) && Legal(s, run)
    ensures Inv(After(s, run))
    decreases |run|
  {
    hide Inv, Step;
    if run != [] {
      StepInv(s, run[0]);
      RunInv(Step(s, run[0]), run[1..]);
    }
  }

  lemma {:induction false} DistinctCounts(xs: seq<nat>, x: nat)
    requires Distinct(xs)
    ensures multiset(xs)[x] == if x in xs then 1 else 0
    decreases |xs|
  {
    if xs != [] {
      var n := |xs| - 1;
      assert xs == xs[..n] + [xs[n]];
      DistinctCounts(xs[..n], x);
    }
  }

  // What a run asks for

  /** The writes that aio_write has accepted, in order. */
  function Accepted(run: seq<Action>): seq<Request> {
    if run == [] then []
    else
      (if run[0].Write? && run[0].aioWrite == 0 then [Request(run[0].fildes, run[0].payload)] else [])
      + Accepted(run[1..])
  }

  /** The submissions that the kernel finishes in the run. */
  function Completions(s: State, run: seq<Action>): set<nat>
    requires Legal(s, run)
    decreases |run|
  {
    if run == [] then {}
    else
      (if run[0].Complete? then {s.blocks[run[0].cb].submission} else {}) + Completions(Step(s, run[0]), run[1..])
  }

  lemma StepHistories(s: State, a: Action)
    requires Enabled(s, a)
    ensures Step(s, a).requests ==
            s.requests + if a.Write? && a.aioWrite == 0 then [Request(a.fildes, a.payload)] else []
    ensures Step(s, a).completed == s.completed + if a.Complete? then {s.blocks[a.cb].submission} else {}
  {}

  lemma {:induction false} HistoriesOfRun(s: State, run: seq<Action>)
    requires Legal(s, run)
    ensures After(s, run).requests == s.requests + Accepted(run)
    ensures After(s, run).completed == s.completed + Completions(s, run)
    decreases |run|
  {
    hide Step, Enabled;
    if run != [] {
      StepHistories(s, run[0]);
      HistoriesOfRun(Step(s, run[0]), run[1..]);
    }
  }

  /** The kernel's answer is what aio_error reports from then on; nothing else of the process changes. */
  lemma CompletionIsReported(s: State, a: Action)
    requires Inv(s) && Enabled(s, a) && a.Complete?
    ensures var s' := Step(s, a);
            && s' == s.(kernel := s'.kernel, completed := s'.completed)
            && AioError(s, a.cb) == EINPROGRESS
            && (forall cb :: AioError(s', cb) == if cb == a.cb then a.error else AioError(s, cb))
  {}

  /**
    * Ownership, over every interleaving of writes, passes of gc and completions, and with addresses handed out again
    * after they were freed: the live blocks are the distinct contents of the list; each has a buffer of its own that
    * holds what was submitted, for as long as the kernel may read it; no other buffer is live; and every accepted
    * request either has a live block or was freed, once, after the kernel had finished it.
    */
  lemma Ownership(run: seq<Action>)
    requires Legal(Init(), run)
    ensures var s := After(Init(), run);
            && Distinct(s.cbs) && (forall cb :: cb in s.blocks <==> cb in s.cbs)
            && s.requests == Accepted(run) && s.completed == Completions(Init(), run)
            && (forall cb | cb in s.kernel ::
                  && cb in s.blocks
                  && var block := s.blocks[cb];
                  && block.buffer in s.buffers && block.submission < |s.requests|
                  && block.fildes == s.requests[block.submission].fildes
                  && s.buffers[block.buffer].bytes == s.requests[block.submission].payload
                  && block.nbytes == |s.requests[block.submission].payload|)
            && (forall c, d | c in s.blocks && d in s.blocks && s.blocks[c].buffer == s.blocks[d].buffer :: c == d)
            && (forall b | b in s.buffers :: exists cb | cb in s.blocks :: s.blocks[cb].buffer == b)
            && (forall n: nat | n < |s.requests| :: multiset(s.freed)[n] == if n in s.live then 0 else 1)
            && (forall n | n in s.live :: s.live[n] in s.blocks && s.blocks[s.live[n]].submission == n)
            && (forall n | n in s.freed :: n in s.completed)
  {
    hide Legal, After, Step;
    var s := After(Init(), run);
    InitInv();
    RunInv(Init(), run);
    HistoriesOfRun(Init(), run);
    assert Init().requests == [] && Init().completed == {};
    forall n: nat | n < |s.requests| ensures multiset(s.freed)[n] == if n in s.live then 0 else 1 {
      DistinctCounts(s.freed, n);
    }
  }

  lemma {:induction false} KeptWasInProgress<T>(xs: seq<T>, statuses: seq<int>, x: T)
    requires |xs| <= |statuses| && x in Keep(xs, statuses)
    ensures exists i | 0 <= i < |xs| :: xs[i] == x && statuses[i] == EINPROGRESS
    decreases |xs|
  {
    var n := |xs| - 1;
    if x in Keep(xs[..n], statuses) {
      KeptWasInProgress(xs[..n], statuses, x);
      var i :| 0 <= i < n && xs[..n][i] == x && statuses[i] == EINPROGRESS;
      assert xs[i] == x;
    } else {
      assert xs[n] == x && statuses[n] == EINPROGRESS;
    }
  }

  /** A pass that can end has filtered its list by the statuses seen, and kept nothing that was complete at first. */
  lemma PassAtEnd(s: State)
    requires Inv(s) && Enabled(s, EndGc)
    ensures var pass := s.gc.value;
            && |pass.seen| == |pass.start|
            && s.cbs == Keep(pass.start, pass.seen)
            && (forall cb | cb in pass.done :: cb !in s.blocks)
  {
    hide Keep, Filtered, PayloadsIntact, FreedOnce, KernelAgrees;
    var pass := s.gc.value;
    FilterEnds(pass.start, pass.seen, pass.position, s.cbs);
    forall cb | cb in s.cbs ensures cb !in pass.done {
      KeptWasInProgress(pass.start, pass.seen, cb);
    }
  }

  /** The statuses that the turns of a run see, each that of the next block of the list that the pass began with. */
  function Observed(s: State, start: seq<Address>, turns: nat, run: seq<Action>): seq<int>
    requires Legal(s, run)
    decreases |run|
  {
    if run == [] then []
    else
      var s' := Step(s, run[0]);
      if !run[0].Visit? then Observed(s', start, turns, run[1..])
      else [if turns < |start| then AioError(s, start[turns]) else 0] + Observed(s', start, turns + 1, run[1..])
  }

  /** While a pass is on, nothing is submitted; a turn sees the status of the block that is next, and may free it. */
  lemma PassStep(s: State, a: Action)
    requires Inv(s) && s.gc.Some? && Enabled(s, a) && !a.EndGc?
    ensures var s', pass := Step(s, a), s.gc.value;
            && s'.gc.Some? && s'.gc.value.start == pass.start && s'.gc.value.done == pass.done
            && s'.requests == s.requests && s.completed <= s'.completed
            && (forall n | n in s'.live :: n in s.live && s'.live[n] == s.live[n])
            && if !a.Visit? then s'.gc.value.seen == pass.seen && s'.freed == s.freed
               else
                 && |pass.seen| < |pass.start| && pass.start[|pass.seen|] in s.blocks
                 && var status := AioError(s, pass.start[|pass.seen|]);
                 && s'.gc.value.seen == pass.seen + [status]
                 && s'.freed == s.freed +
                      if status == EINPROGRESS then [] else [s.blocks[pass.start[|pass.seen|]].submission]
  {
    hide Filtered, Keep, Erase, Owned, PayloadsIntact, FreedOnce, KernelAgrees;
    if a.Visit? {
      var pass := s.gc.value;
      FilterGoesOn(pass.start, pass.seen, pass.position, s.cbs);
    }
  }

  lemma {:induction false} PassRun(s: State, run: seq<Action>)
    requires Inv(s) && s.gc.Some? && Legal(s, run) && EndGc !in run
    ensures var s', pass := After(s, run), s.gc.value;
            && s'.gc.Some? && s'.gc.value.start == pass.start && s'.gc.value.done == pass.done
            && s'.requests == s.requests
            && (forall n | n in s'.live :: n in s.live && s'.live[n] == s.live[n])
            && s'.gc.value.seen == pass.seen + Observed(s, pass.start, |pass.seen|, run)
    decreases |run|
  {
    hide Inv, Step, Enabled, AioError;
    if run != [] {
      assert run[0] in run && forall a | a in run[1..] :: a in run;
      PassStep(s, run[0]);
      StepInv(s, run[0]);
      PassRun(Step(s, run[0]), run[1..]);
    }
  }

  /** What was complete at the start of a pass and is not live at its end has been freed. */
  lemma CompleteIsFreed(b: State, s: State, n: nat)
    requires Inv(b) && Inv(s) && n in b.completed && s.requests == b.requests
    requires n in s.live ==> n in b.live && s.live[n] == b.live[n]
    requires forall cb | cb in b.kernel && b.kernel[cb].Finished? :: cb !in s.blocks
    ensures n in s.freed
  {
    hide PassAgrees, PayloadsIntact, Distinct;
    if n in b.live {
      var cb := b.live[n];
      assert cb in b.blocks && b.blocks[cb].submission == n && cb in b.kernel;
      assert b.kernel[cb].Finished? <==> b.blocks[cb].submission in b.completed;
    }
  }

  /**
    * A whole pass of gc, with completions at any point within it: when it can end, the list it found has been
    * filtered, in order, by the status that each block had at its own turn; everything that was complete when the pass
    * began has been freed; and every other submission is either freed or still live.
    */
  lemma GcPass(before: seq<Action>, pass: seq<Action>)
    requires Legal(Init(), before) && var b := After(Init(), before); Enabled(b, BeginGc)
    requires var b := Step(After(Init(), before), BeginGc);
             Legal(b, pass) && EndGc !in pass && Enabled(After(b, pass), EndGc)
    ensures var b := Step(After(Init(), before), BeginGc);
            var s, statuses := After(b, pass), Observed(b, b.cbs, 0, pass);
            && |statuses| == |b.cbs| && s.cbs == Keep(b.cbs, statuses)
            && (forall n | n in b.completed :: n in s.freed)
            && (forall n: nat | n < |b.requests| :: n in s.freed <==> n !in s.live)
  {
    hide Legal, After, Keep, AioError, Observed, Owned, PayloadsIntact, KernelAgrees, PassAgrees;
    var a := After(Init(), before);
    InitInv();
    RunInv(Init(), before);
    var b := Step(a, BeginGc);
    StepInv(a, BeginGc);
    RunInv(b, pass);
    PassRun(b, pass);
    var s := After(b, pass);
    assert [] + Observed(b, b.cbs, 0, pass) == Observed(b, b.cbs, 0, pass);
    PassAtEnd(s);
    forall n | n in b.completed ensures n in s.freed {
      CompleteIsFreed(b, s, n);
    }
  }

  /** Each turn of the loop is possible and brings the pass closer to its end. */
  lemma GcTerminates(s: State)
    requires Inv(s) && s.gc.Some?
    ensures s.gc.value.position <= |s.cbs| && (Enabled(s, EndGc) || Enabled(s, Visit))
    ensures Enabled(s, Visit) ==>
              var s' := Step(s, Visit);
              s'.gc.Some? && |s'.cbs| - s'.gc.value.position == |s.cbs| - s.gc.value.position - 1
  {
    hide Keep;
    var position := s.gc.value.position;
    if position < |s.cbs| {
      var cb := s.cbs[position];
      assert cb in s.cbs;
      assert Owned(s) && cb in s.blocks;
      assert Enabled(s, Visit);
    } else {
      assert Enabled(s, EndGc);
    }
  }
}
