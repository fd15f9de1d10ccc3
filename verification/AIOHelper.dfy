/** The write tracker as it runs: blocks and buffers allocated and freed, and a list erased from while it is walked. */
module AIOHelpers {
  import opened Basics
  import opened AioProtocol

  class Aiocb {
    const fildes: int
    const buf: array<byte>
    const nbytes: nat
    ghost const payload: seq<byte>  // the bytes that the caller asked to write

    constructor (fildes: int, buf: array<byte>, ghost payload: seq<byte>)
      ensures this.fildes == fildes && this.buf == buf && nbytes == buf.Length && this.payload == payload
    {
      this.fildes, this.buf, this.nbytes, this.payload := fildes, buf, buf.Length, payload;
    }
  }

  ghost predicate Separate(cbs: seq<Aiocb>) {
    forall i, j | 0 <= i < j < |cbs| :: cbs[i] != cbs[j] && cbs[i].buf != cbs[j].buf
  }

  ghost function BlocksOf(cbs: seq<Aiocb>): set<Aiocb> {
    set cb | cb in cbs
  }

  ghost function BuffersOf(cbs: seq<Aiocb>): set<array<byte>> {
    set cb | cb in cbs :: cb.buf
  }

  lemma EraseBlock(cbs: seq<Aiocb>, i: nat)
    requires i < |cbs| && Separate(cbs)
    ensures Separate(Erase(cbs, i))
    ensures BlocksOf(Erase(cbs, i)) == BlocksOf(cbs) - {cbs[i]}
    ensures BuffersOf(Erase(cbs, i)) == BuffersOf(cbs) - {cbs[i].buf}
    ensures forall cb | cb in Erase(cbs, i) :: cb in cbs
    ensures cbs[i] in BlocksOf(cbs) && cbs[i].buf in BuffersOf(cbs)
  {
    var rest := Erase(cbs, i);
    forall j | 0 <= j < |rest| ensures rest[j] == cbs[if j < i then j else j + 1] {}
    forall j | 0 <= j < |cbs| && j != i ensures cbs[j] in rest {
      assert rest[if j < i then j else j - 1] == cbs[j];
    }
  }

  class AIOHelper {
    var cbs: seq<Aiocb>
    ghost var blocks: set<Aiocb>          // control blocks allocated and not deleted
    ghost var buffers: set<array<byte>>   // buffers allocated and not freed

    ghost predicate Valid()
      reads this, buffers
    {
      && Separate(cbs)
      && blocks == BlocksOf(cbs)
      && buffers == BuffersOf(cbs)
      && forall cb | cb in cbs :: cb.nbytes == |cb.payload| && cb.buf[..] == cb.payload
    }

    constructor ()
      ensures Valid() && cbs == []
    {
      cbs, blocks, buffers := [], {}, {};
    }

    // free and delete

    method Free(buf: array<byte>)
      requires buf in buffers
      modifies this`buffers
      ensures buffers == old(buffers) - {buf}
    {
      ghost var freed := buf;
      buffers := buffers - {freed};
    }

    method Delete(cb: Aiocb)
      requires cb in blocks
      modifies this`blocks
      ensures blocks == old(blocks) - {cb}
    {
      blocks := blocks - {cb};
    }

    /**
      * aioWrite is the result of the call of aio_write, syncWrite what write would return.
      * On success the list ends in a new block with a private copy of the caller's bytes.
      */
    method Write(fd: int, buf: array<byte>, count: nat, aioWrite: int, syncWrite: int) returns (ret: int)
      requires Valid() && count <= buf.Length
      modifies this
      ensures Valid()
      ensures aioWrite != 0 ==> ret == syncWrite && cbs == old(cbs)
      ensures aioWrite == 0 ==>
                && ret == count
                && |cbs| == |old(cbs)| + 1 && cbs[..|old(cbs)|] == old(cbs)
                && var cb := cbs[|old(cbs)|];
                fresh(cb) && fresh(cb.buf) && cb.fildes == fd && cb.payload == buf[..count]
    {
      var buffer := new byte[count];
      buffers := buffers + {buffer};
      forall i | 0 <= i < count {
        buffer[i] := buf[i];
      }
      var cb := new Aiocb(fd, buffer, buf[..count]);
      blocks := blocks + {cb};
      if aioWrite != 0 {
        Free(buffer);
        Delete(cb);
        return syncWrite;
      }
      cbs := cbs + [cb];
      return count;
    }

    /** statuses[j] is what aio_error answers on the j-th turn; each removed block is freed with its buffer. */
    method Gc(statuses: seq<int>)
      requires Valid() && |cbs| <= |statuses|
      modifies this
      ensures Valid()
      ensures cbs == Keep(old(cbs), statuses)
    {
      hide Filtered, Keep, Erase, Separate, BlocksOf, BuffersOf;
      ghost var start := cbs;
      FilterBegins(start);
      var iter, turn := 0, 0;
      while iter < |cbs|
        invariant Valid() && turn <= |start| && Filtered(start, statuses[..turn], iter, cbs)
        decreases |cbs| - iter
      {
        var cb := cbs[iter];
        FilterGoesOn(start, statuses[..turn], iter, cbs);
        FilterTurn(start, statuses[..turn], iter, cbs, statuses[turn]);
        assert statuses[..turn] + [statuses[turn]] == statuses[..turn + 1];
        if statuses[turn] != EINPROGRESS {
          EraseBlock(cbs, iter);
          cbs := Erase(cbs, iter);
          Free(cb.buf);
          Delete(cb);
        } else {
          iter := iter + 1;
        }
        turn := turn + 1;
      }
      FilterEnds(start, statuses[..turn], iter, cbs);
      assert statuses[..turn] + statuses[turn..] == statuses;
      KeepIgnoresTail(start, statuses[..turn], statuses[turn..]);
    }
  }
}
