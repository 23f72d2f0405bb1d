/**
 * The sending half of BufferManager: a queue of buffers from which each writev takes some bytes.
 */
module BufferOutput {
  import opened Frames
  import opened Options

  /**
   * A queued buffer. Its number in the order of queueing stands for its address, `data` is what
   * iov_base and iov_len still cover. A task's number is positive; 0 means that the agent is told.
   */
  datatype IovReq = IovReq(buffer: nat, data: Bytes, complete: bool, task: nat)

  /** A call of writeBack for one buffer. */
  datatype Report = Report(buffer: nat, task: nat)

  function Flatten(bufs: seq<Bytes>): (s: Bytes) {
    if bufs == [] then [] else bufs[0] + Flatten(bufs[1..])
  }

  function PendingBytes(queue: seq<IovReq>): (s: Bytes) {
    if queue == [] then [] else queue[0].data + PendingBytes(queue[1..])
  }

  lemma {:induction false} FlattenSnoc(bufs: seq<Bytes>, b: Bytes)
    ensures Flatten(bufs + [b]) == Flatten(bufs) + b
  {
    if bufs == [] {
      assert Flatten([b][1..]) == [];
    } else {
      assert (bufs + [b])[1..] == bufs[1..] + [b];
      FlattenSnoc(bufs[1..], b);
    }
  }

  lemma {:induction false} PendingSnoc(queue: seq<IovReq>, q: IovReq)
    ensures PendingBytes(queue + [q]) == PendingBytes(queue) + q.data
  {
    if queue == [] {
      assert PendingBytes([q][1..]) == [];
    } else {
      assert (queue + [q])[1..] == queue[1..] + [q];
      PendingSnoc(queue[1..], q);
    }
  }

  /** The queue holds the buffers from number `done` on; only its head can be partly sent, and never wholly. */
  ghost predicate QueueMatches(queue: seq<IovReq>, queued: seq<Bytes>, tasks: seq<nat>, done: nat) {
    && done + |queue| == |queued| == |tasks|
    && (forall i {:trigger queue[i]} :: 0 <= i < |queue| ==>
          queue[i].buffer == done + i && queue[i].task == tasks[done + i]
          && (i > 0 ==> queue[i].complete)
          && (queue[i].complete ==> queue[i].data == queued[done + i])
          && (!queue[i].complete ==> IsRest(queue[i].data, queued[done + i])))
  }

  /** r is what is left of b after some, but not all, of its bytes. */
  predicate IsRest(r: Bytes, b: Bytes) {
    0 < |r| < |b| && r == b[|b| - |r|..]
  }

  /** Buffer i is released, and reported to task i, at the i-th place. */
  ghost predicate InOrder(released: seq<nat>, reported: seq<Report>, tasks: seq<nat>) {
    && |released| == |reported| <= |tasks|
    && forall i {:trigger released[i]} {:trigger reported[i]} :: 0 <= i < |released| ==>
         released[i] == i && reported[i] == Report(i, tasks[i])
  }

  /** mLastIov is set exactly when the head is partly sent, and then to the head's buffer. */
  function LastOf(queue: seq<IovReq>): (o: Option<nat>) {
    if queue != [] && !queue[0].complete then Some(queue[0].buffer) else None
  }

  lemma PopHead(queue: seq<IovReq>, queued: seq<Bytes>, tasks: seq<nat>, done: nat)
    requires QueueMatches(queue, queued, tasks, done) && queue != []
    ensures QueueMatches(queue[1..], queued, tasks, done + 1) && LastOf(queue[1..]) == None
    ensures queue[0].buffer == done && done < |tasks| && queue[0].task == tasks[done]
    ensures PendingBytes(queue) == queue[0].data + PendingBytes(queue[1..])
  {
    forall i | 0 <= i < |queue| - 1
      ensures queue[1..][i] == queue[i + 1] && queue[i + 1].complete
    {
      assert queue[i + 1].buffer == done + (i + 1);
    }
  }

  lemma ReleaseNext(released: seq<nat>, reported: seq<Report>, tasks: seq<nat>)
    requires InOrder(released, reported, tasks) && |released| < |tasks|
    ensures InOrder(released + [|released|], reported + [Report(|released|, tasks[|released|])], tasks)
  {
  }

  /** A request after its first n bytes have been accepted. */
  function Cut(q: IovReq, n: nat): (r: IovReq)
    requires n <= |q.data|
  {
    q.(data := q.data[n..], complete := false)
  }

  lemma RestOfRest(data: Bytes, b: Bytes, n: nat)
    requires 0 < n < |data| && (data == b || IsRest(data, b))
    ensures IsRest(data[n..], b)
  {
    if IsRest(data, b) {
      assert data[n..] == b[|b| - |data|..][n..] == b[|b| - (|data| - n)..];
    }
  }

  lemma CutPending(queue: seq<IovReq>, n: nat)
    requires queue != [] && n <= |queue[0].data|
    ensures PendingBytes(queue) == queue[0].data[..n] + PendingBytes([Cut(queue[0], n)] + queue[1..])
  {
    var rest := [Cut(queue[0], n)] + queue[1..];
    assert rest[1..] == queue[1..];
    assert queue[0].data == queue[0].data[..n] + rest[0].data;
    var p := PendingBytes(queue[1..]);
    assert queue[0].data[..n] + (rest[0].data + p) == (queue[0].data[..n] + rest[0].data) + p;
  }

  lemma Regrouped(a: Bytes, b: Bytes, c: Bytes)
    ensures a + (b + c) == (a + b) + c
  {
  }

  lemma CutHead(queue: seq<IovReq>, queued: seq<Bytes>, tasks: seq<nat>, done: nat, n: nat)
    requires QueueMatches(queue, queued, tasks, done) && queue != [] && 0 < n < |queue[0].data|
    ensures var rest := [Cut(queue[0], n)] + queue[1..];
      QueueMatches(rest, queued, tasks, done) && LastOf(rest) == Some(done)
    ensures queue[0].buffer == done && (!queue[0].complete ==> LastOf(queue) == Some(done))
  {
    var rest := [Cut(queue[0], n)] + queue[1..];
    RestOfRest(queue[0].data, queued[done], n);
    hide IsRest;
    forall i | 0 < i < |queue|
      ensures rest[i] == queue[i] && rest[i].complete
    {
    }
  }

  lemma PushBack(queue: seq<IovReq>, queued: seq<Bytes>, tasks: seq<nat>, done: nat, b: Bytes, task: nat)
    requires QueueMatches(queue, queued, tasks, done)
    ensures var q := IovReq(done + |queue|, b, true, task);
      && QueueMatches(queue + [q], queued + [b], tasks + [task], done)
      && LastOf(queue + [q]) == LastOf(queue)
  {
  }

  /** The other end of the connection: the bytes it has taken from all the writes, and whether the last one was an error. */
  class Socket {
    var accepted: Bytes
    var failed: bool

    constructor ()
      ensures accepted == [] && !failed
    {
      accepted, failed := [], false;
    }

    /** writev(2), retried as long as it would block: some of the bytes offered are taken, or it is an error and none is. */
    method WritevSocket(outdata: seq<Bytes>) returns (ret: int)
      modifies this
      ensures -1 <= ret <= |Flatten(outdata)| && failed == (ret < 0)
      ensures accepted == old(accepted) + Flatten(outdata)[..if ret < 0 then 0 else ret]
    {
      var n: int := *;
      var all := Flatten(outdata);
      failed := n < 0;
      if failed {
        return -1;
      }
      ret := if n < |all| then n else |all|;
      accepted := accepted + all[..ret];
    }
  }

  const SUCCESSFUL := 0
  const FAILED := -1

  class OutputBuffer {
    var iovList: seq<IovReq>
    /** The buffer whose sending has begun, kept for its later release. */
    var lastIov: Option<nat>
    /** Buffers given back with delete[], and the writeBack(true) and writeBack(false) calls, in order. */
    var released: seq<nat>
    var reported: seq<Report>
    var refused: seq<Report>
    /** What has ever been queued, and for which tasks. */
    ghost var queued: seq<Bytes>
    ghost var tasks: seq<nat>

    /** Nothing is lost and nothing doubled: what the socket has accepted and what is pending make up all that was queued. */
    ghost predicate InStep(accepted: Bytes)
      reads this
    {
      accepted + PendingBytes(iovList) == Flatten(queued)
    }

    ghost predicate Valid()
      reads this
    {
      && InOrder(released, reported, tasks)
      && QueueMatches(iovList, queued, tasks, |released|)
      && lastIov == LastOf(iovList)
    }

    constructor ()
      ensures Valid() && InStep([]) && iovList == [] && queued == []
    {
      iovList, lastIov, released, reported, refused := [], None, [], [], [];
      queued, tasks := [], [];
    }

    method WriteDynamic(buffer: Bytes, task: nat) returns (r: int)
      requires Valid()
      modifies this
      ensures Valid() && r == SUCCESSFUL && forall accepted :: old(InStep(accepted)) ==> InStep(accepted)
      ensures queued == old(queued) + [buffer] && tasks == old(tasks) + [task] && released == old(released) && iovList != []
    {
      hide QueueMatches, Flatten, PendingBytes, LastOf;
      ghost var done := |released|;
      PushBack(iovList, queued, tasks, done, buffer, task);
      FlattenSnoc(queued, buffer);
      var req := IovReq(|released| + |iovList|, buffer, true, task);
      PendingSnoc(iovList, req);
      forall accepted | InStep(accepted)
        ensures accepted + (PendingBytes(iovList) + buffer) == Flatten(queued) + buffer
      {
        Regrouped(accepted, PendingBytes(iovList), buffer);
      }
      iovList := iovList + [req];
      queued := queued + [buffer];
      tasks := tasks + [task];
      r := SUCCESSFUL;
    }

    /** The loop that lists the unsent part of every buffer for the socket. */
    method Gather() returns (outdata: seq<Bytes>)
      ensures |outdata| == |iovList| && Flatten(outdata) == PendingBytes(iovList)
    {
      outdata := [];
      var num := 0;
      while num < |iovList|
        invariant 0 <= num <= |iovList| && |outdata| == num && Flatten(outdata) == PendingBytes(iovList[..num])
      {
        FlattenSnoc(outdata, iovList[num].data);
        PendingSnoc(iovList[..num], iovList[num]);
        assert iovList[..num + 1] == iovList[..num] + [iovList[num]];
        outdata := outdata + [iovList[num].data];
        num := num + 1;
      }
      assert iovList[..num] == iovList;
    }

    /** The head is accepted whole: its buffer is given back and its task is told. */
    method FinishHead()
      requires Valid() && iovList != []
      modifies this`iovList, this`lastIov, this`released, this`reported
      ensures Valid() && iovList == old(iovList)[1..]
      ensures old(PendingBytes(iovList)) == old(iovList)[0].data + PendingBytes(iovList)
      ensures |released| == old(|released|) + 1
    {
      PopHead(iovList, queued, tasks, |released|);
      ReleaseNext(released, reported, tasks);
      hide QueueMatches, Flatten, PendingBytes, InOrder;
      var head := iovList[0];
      released := released + [if head.complete then head.buffer else lastIov.value];
      reported := reported + [Report(head.buffer, head.task)];
      lastIov := None;
      iovList := iovList[1..];
    }

    /** Only n bytes of the head are accepted: the rest of it stays at the front. */
    method AdvanceHead(n: nat)
      requires Valid() && iovList != [] && 0 < n < |iovList[0].data|
      modifies this`iovList, this`lastIov
      ensures Valid() && iovList == [Cut(old(iovList)[0], n)] + old(iovList)[1..]
      ensures old(PendingBytes(iovList)) == old(iovList)[0].data[..n] + PendingBytes(iovList)
    {
      hide QueueMatches, Flatten, PendingBytes, InOrder, LastOf, Cut;
      CutHead(iovList, queued, tasks, |released|, n);
      CutPending(iovList, n);
      var head := iovList[0];
      if head.complete {
        lastIov := Some(head.buffer);
      }
      iovList := [Cut(head, n)] + iovList[1..];
    }

    /**
     * One writev; afterwards the queue starts at the first byte that has not been accepted. The result is how many
     * bytes the socket has accepted, and FAILED exactly when it reported an error.
     */
    method Write(sock: Socket) returns (download: int)
      requires Valid() && InStep(sock.accepted)
      modifies this`iovList, this`lastIov, this`released, this`reported, this`refused, sock
      ensures Valid() && InStep(sock.accepted) && |iovList| <= |old(iovList)|
      ensures download == FAILED <==> sock.failed
      ensures !sock.failed ==> old(sock.accepted) <= sock.accepted && download == |sock.accepted| - old(|sock.accepted|)
      ensures !sock.failed ==> refused == old(refused)
      ensures sock.failed ==> iovList == old(iovList) && sock.accepted == old(sock.accepted) && released == old(released)
      ensures sock.failed ==> |refused| == |old(refused)| + |iovList| && old(refused) <= refused
      ensures sock.failed ==> forall i :: 0 <= i < |iovList| ==>
        refused[|old(refused)| + i] == Report(iovList[i].buffer, iovList[i].task)
    {
      hide QueueMatches, Flatten, PendingBytes, LastOf, InOrder;
      var outdata := Gather();
      var ret := sock.WritevSocket(outdata);
      if ret < 0 {
        HandleWriteError();
        return FAILED;
      }
      download := ret;
      Taken(old(sock.accepted), PendingBytes(iovList), ret);
      SkipSent(ret);
    }

    /** The loop that reports the failure to every task waiting. */
    method HandleWriteError()
      modifies this`refused
      ensures |refused| == |old(refused)| + |iovList| && old(refused) <= refused
      ensures forall i :: 0 <= i < |iovList| ==> refused[|old(refused)| + i] == Report(iovList[i].buffer, iovList[i].task)
    {
      var i := 0;
      while i < |iovList|
        invariant 0 <= i <= |iovList| && |refused| == |old(refused)| + i && old(refused) <= refused
        invariant forall k :: 0 <= k < i ==> refused[|old(refused)| + k] == Report(iovList[k].buffer, iovList[k].task)
      {
        refused := refused + [Report(iovList[i].buffer, iovList[i].task)];
        i := i + 1;
      }
    }

    /** The loop over the buffers that the socket has accepted bytes of. */
    method SkipSent(n: nat)
      requires Valid() && n <= |PendingBytes(iovList)|
      modifies this`iovList, this`lastIov, this`released, this`reported
      ensures Valid() && PendingBytes(iovList) == old(PendingBytes(iovList))[n..] && |iovList| <= |old(iovList)|
    {
      hide QueueMatches, Flatten, PendingBytes, LastOf, InOrder;
      ghost var before := PendingBytes(iovList);
      var ret := n;
      while ret > 0 && iovList != []
        invariant Valid() && 0 <= ret <= |PendingBytes(iovList)| && |iovList| <= |old(iovList)|
        invariant PendingBytes(iovList)[ret..] == before[n..]
        decreases |iovList|
      {
        HeadOfPending(iovList);
        ghost var pending, first := PendingBytes(iovList), iovList[0].data;
        if ret >= |iovList[0].data| {
          ret := ret - |iovList[0].data|;
          FinishHead();
          Skipped(pending, first, PendingBytes(iovList), ret + |first|);
        } else {
          AdvanceHead(ret);
          Skipped(pending, first[..ret], PendingBytes(iovList), ret);
          ret := 0;
          break;
        }
      }
      NothingPending(iovList);
    }
  }

  lemma Taken(accepted: Bytes, pending: Bytes, n: nat)
    requires n <= |pending|
    ensures (accepted + pending[..n]) + pending[n..] == accepted + pending
  {
  }

  lemma Skipped(all: Bytes, first: Bytes, rest: Bytes, n: nat)
    requires all == first + rest && |first| <= n <= |all|
    ensures all[n..] == rest[n - |first|..] && rest[0..] == rest
  {
  }

  lemma {:induction false} FlattenSplit(bufs: seq<Bytes>, n: nat)
    requires n <= |bufs|
    ensures Flatten(bufs) == Flatten(bufs[..n]) + Flatten(bufs[n..])
  {
    if n == 0 {
      assert bufs[0..] == bufs;
    } else {
      FlattenSplit(bufs[1..], n - 1);
      assert bufs[..n][1..] == bufs[1..][..n - 1] && bufs[n..] == bufs[1..][n - 1..];
      Regrouped(bufs[0], Flatten(bufs[1..][..n - 1]), Flatten(bufs[n..]));
    }
  }

  lemma {:induction false} PendingFits(queue: seq<IovReq>, bufs: seq<Bytes>)
    requires |queue| == |bufs| && forall i :: 0 <= i < |queue| ==> |queue[i].data| <= |bufs[i]|
    ensures |PendingBytes(queue)| <= |Flatten(bufs)|
  {
    if queue != [] {
      PendingFits(queue[1..], bufs[1..]);
    }
  }

  /** A buffer is given back, and its task told of success, only when the socket has accepted all of its bytes. */
  lemma ReleasedAreSent(o: OutputBuffer, accepted: Bytes)
    requires o.Valid() && o.InStep(accepted)
    ensures |o.released| <= |o.queued| && Flatten(o.queued[..|o.released|]) <= accepted
  {
    var done := |o.released|;
    FlattenSplit(o.queued, done);
    forall i | 0 <= i < |o.iovList|
      ensures |o.iovList[i].data| <= |o.queued[done..][i]|
    {
      assert o.iovList[i].buffer == done + i;
    }
    PendingFits(o.iovList, o.queued[done..]);
    var all := Flatten(o.queued);
    assert accepted == all[..|accepted|];
    assert Flatten(o.queued[..done]) == all[..|Flatten(o.queued[..done])|];
  }

  lemma NothingPending(queue: seq<IovReq>)
    ensures queue == [] ==> PendingBytes(queue) == []
  {
  }

  lemma HeadOfPending(queue: seq<IovReq>)
    requires queue != []
    ensures queue[0].data <= PendingBytes(queue)
  {
  }
}
