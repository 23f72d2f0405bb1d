/**
 * The write interest of a connection: EpollEvent's lock counter, the agent that opens and closes
 * it around its output queue, and the dispatcher that does the same around its request list.
 * Every epoll_ctl call is taken to succeed.
 */
module WriteInterest {
  import opened Frames
  import opened BufferOutput
  import BufferInput

  class EpollEvent {
    var fd: int
    var wlock: nat
    var read: bool
    var write: bool
    /** The descriptor has been added to epoll; only then do later changes reach it. */
    var registered: bool

    /** epoll reports when the descriptor can be written. */
    predicate Armed()
      reads this
    {
      fd != -1 && registered && write
    }

    /** epoll reports when the descriptor can be read. */
    predicate Listening()
      reads this
    {
      fd != -1 && registered && read
    }

    constructor ()
      ensures fd == -1 && wlock == 0 && !write && !registered
    {
      fd, wlock, read, write, registered := -1, 0, false, false, false;
    }

    method SetFd(fd: int)
      modifies this
      ensures this.fd == fd && wlock == 0 && write == old(write) && read == old(read) && !registered
    {
      this.fd, wlock, registered := fd, 0, false;
    }

    method CloseWevent()
      modifies this
      ensures fd == old(fd) && read == old(read) && registered == old(registered)
      ensures fd == -1 ==> wlock == old(wlock) && write == old(write)
      ensures fd != -1 ==> wlock == old(wlock) + 1 && write == (old(wlock) > 0 && old(write))
    {
      if fd == -1 {
        return;
      }
      wlock := wlock + 1;
      if wlock > 1 {
        return;
      }
      write := false;
    }

    method OpenWevent()
      modifies this
      ensures fd == old(fd) && read == old(read) && registered == old(registered)
      ensures fd == -1 || old(write) ==> wlock == old(wlock) && write == old(write)
      ensures fd != -1 && !old(write) ==> wlock == (if old(wlock) == 0 then 0 else old(wlock) - 1) && write == (wlock == 0)
    {
      if fd == -1 {
        return;
      }
      if !write {
        if wlock > 0 {
          wlock := wlock - 1;
          if wlock > 0 {
            return;
          }
        }
        write := true;
      }
    }

    method RegisterREvent()
      modifies this
      ensures fd == old(fd) && wlock == old(wlock)
      ensures if fd == -1 then read == old(read) && write == old(write) && registered == old(registered) else registered && read && !write
    {
      if fd == -1 {
        return;
      }
      read, write, registered := true, false, true;
    }

    method RegisterWEvent()
      modifies this
      ensures fd == old(fd) && wlock == old(wlock)
      ensures if fd == -1 then read == old(read) && write == old(write) && registered == old(registered) else registered && !read && write
    {
      if fd == -1 {
        return;
      }
      read, write, registered := false, true, true;
    }

    method RegisterRWEvents()
      modifies this
      ensures fd == old(fd) && wlock == old(wlock)
      ensures if fd == -1 then read == old(read) && write == old(write) && registered == old(registered) else registered && read && write
    {
      if fd == -1 {
        return;
      }
      read, write, registered := true, true, true;
    }

    /** Armed means unlocked, and disarmed means that one opening suffices. */
    predicate Balanced()
      reads this
    {
      fd != -1 && registered && (write ==> wlock == 0) && (!write ==> wlock <= 1)
    }
  }

  /** Two closings in a row and one opening leave the event disarmed: the second closing is not idempotent. */
  method CloseTwiceOpenOnce() returns (e: EpollEvent)
    ensures fresh(e) && e.Listening() && !e.Armed() && e.wlock == 1
  {
    e := new EpollEvent();
    e.SetFd(3);
    e.RegisterRWEvents();
    e.CloseWevent();
    e.CloseWevent();
    e.OpenWevent();
  }

  class TcpAgent {
    const bufv: OutputBuffer
    const sock: Socket
    const event: EpollEvent
    var connected: bool

    /** What the socket has accepted and what is pending make up all that has been queued. */
    ghost predicate Valid()
      reads this, bufv, sock, event
    {
      bufv.Valid() && bufv.InStep(sock.accepted)
    }

    /** On a connected agent output is pending exactly while the write event is armed. */
    ghost predicate Alive()
      reads this, bufv, sock, event
    {
      Valid() && event.Balanced() && (event.Armed() <==> bufv.iovList != [])
    }

    /** The agent of an accepted socket: setState runs before the descriptor is set, so it closes nothing. */
    constructor Accepted(sockFd: int)
      requires sockFd != -1
      ensures Alive() && connected && bufv.iovList == [] && fresh(bufv) && fresh(sock) && fresh(event)
      ensures bufv.queued == [] && sock.accepted == [] && event.fd == sockFd && event.Listening()
    {
      bufv := new OutputBuffer();
      sock := new Socket();
      event := new EpollEvent();
      connected := true;
      new;
      event.CloseWevent();
      event.SetFd(sockFd);
      event.RegisterREvent();
    }

    /** An agent that connects actively waits, armed, for its first write event. */
    constructor Connecting(sockFd: int)
      requires sockFd != -1
      ensures Valid() && !connected && bufv.iovList == [] && event.Armed() && event.Listening() && event.wlock == 0 && event.fd == sockFd
      ensures bufv.queued == [] && sock.accepted == [] && fresh(bufv) && fresh(sock) && fresh(event)
    {
      bufv := new OutputBuffer();
      sock := new Socket();
      event := new EpollEvent();
      connected := false;
      new;
      event.SetFd(sockFd);
      event.RegisterRWEvents();
    }

    /** The connection is established. Output queued before is stranded: nothing arms the event for it. */
    method SetState()
      requires Valid() && !connected && event.Armed() && event.wlock == 0
      modifies this, event
      ensures connected && Valid() && event.Balanced() && !event.Armed() && bufv.iovList == old(bufv.iovList)
      ensures event.fd == old(event.fd) && event.Listening() == old(event.Listening())
      ensures Alive() <==> old(bufv.iovList) == []
    {
      connected := true;
      event.CloseWevent();
    }

    method WriteDynData(buf: Bytes, task: nat) returns (r: int)
      requires Valid()
      modifies bufv, event
      ensures Valid() && r == SUCCESSFUL && bufv.queued == old(bufv.queued) + [buf]
      ensures bufv.iovList != [] && event.fd == old(event.fd) && event.Listening() == old(event.Listening())
      ensures old(event.Balanced()) ==> Alive()
    {
      r := bufv.WriteDynamic(buf, task);
      event.OpenWevent();
    }

    /** The frame of one message, queued as one buffer. */
    method SendData(cmd: UInt32, error: UInt32, para1: UInt32, para2: UInt32, data: Bytes) returns (r: int)
      requires Valid() && |data| < 0x1_0000_0000
      modifies bufv, event
      ensures Valid() && r == 0
      ensures bufv.iovList != [] && event.fd == old(event.fd) && event.Listening() == old(event.Listening())
      ensures bufv.queued == old(bufv.queued) + [EncodeMessage(Message(Header(cmd, |data|, error, para1, para2), data))]
      ensures old(event.Balanced()) ==> Alive()
    {
      var head := Header(cmd, |data|, error, para1, para2);
      var buf := EncodeHeader(head) + data;
      var w := WriteDynData(buf, 0);
      return 0;
    }

    /** A write event. Called without one on an idle, once closed agent, it would lock the event a second time. */
    method WriteData() returns (r: int)
      requires Valid()
      modifies bufv, sock, event
      ensures Valid() && bufv.queued == old(bufv.queued) && old(sock.accepted) <= sock.accepted
      ensures r == (if sock.failed then FAILED else SUCCESSFUL) && event.Listening() == old(event.Listening())
      ensures r == FAILED ==> (Alive() <==> old(Alive())) && bufv.iovList == old(bufv.iovList)
      ensures old(Alive()) && old(event.Armed()) ==> Alive()
      ensures r == SUCCESSFUL && old(Alive()) && !old(event.Armed()) ==> (Alive() <==> old(event.wlock) == 0)
    {
      hide OutputBuffer.Valid, OutputBuffer.InStep, Flatten, PendingBytes, QueueMatches, LastOf, InOrder;
      var n := bufv.Write(sock);
      if n < 0 {
        return FAILED;
      }
      if |bufv.iovList| == 0 {
        event.CloseWevent();
      }
      return SUCCESSFUL;
    }
  }

  /** A message sent before the connection is established stays in the queue of an agent that waits for no write event. */
  method SendBeforeConnected(sockFd: int, cmd: UInt32, data: Bytes) returns (agent: TcpAgent)
    requires sockFd != -1 && |data| < 0x1_0000_0000
    ensures fresh(agent) && agent.Valid() && agent.connected && agent.event.fd == sockFd
    ensures agent.bufv.queued == [EncodeMessage(Message(Header(cmd, |data|, 0, 0, 0), data))]
    ensures agent.bufv.iovList != [] && agent.sock.accepted == [] && !agent.event.Armed() && !agent.Alive()
  {
    agent := new TcpAgent.Connecting(sockFd);
    var r := agent.SendData(cmd, 0, 0, 0, data);
    agent.SetState();
  }

  /** A stream of frames sent through one agent: the concatenation of its buffers is the encoding of the messages. */
  lemma {:induction false} FramesFlatten(ms: seq<Message>, bufs: seq<Bytes>)
    requires |bufs| == |ms| && forall i :: 0 <= i < |ms| ==> bufs[i] == EncodeMessage(ms[i])
    ensures Flatten(bufs) == EncodeAll(ms)
  {
    if ms != [] {
      FramesFlatten(ms[1..], bufs[1..]);
    }
  }

  /**
   * From one agent to the other: when the buffers queued at the agent are the frames of `ms`, and the peer has read a
   * prefix of what the agent's socket has accepted, then the peer's deliveries are a prefix of `ms`; when nothing is
   * pending at the agent and everything accepted has been read, they are all of `ms`.
   */
  lemma EndToEnd(agent: TcpAgent, ms: seq<Message>, peer: BufferInput.InputBuffer, sock: BufferInput.Socket)
    requires agent.Valid() && peer.Valid() && sock.Valid() && peer.InStep(sock.Consumed())
    requires |agent.bufv.queued| == |ms|
    requires forall i :: 0 <= i < |ms| ==> agent.bufv.queued[i] == EncodeMessage(ms[i]) && WellFormed(ms[i])
    requires sock.Consumed() <= agent.sock.accepted
    ensures peer.delivered <= ms
    ensures agent.bufv.iovList == [] && sock.Consumed() == agent.sock.accepted ==> peer.delivered == ms && peer.Pending() == []
  {
    var sent, consumed := agent.sock.accepted, sock.Consumed();
    FramesFlatten(ms, agent.bufv.queued);
    assert sent <= EncodeAll(ms);
    BufferInput.DeliveredInOrder(ms, consumed, peer.delivered, peer.Pending());
    if agent.bufv.iovList == [] {
      assert sent + [] == sent;
    }
  }

  /** The pipe to the thread pool: the requests that it has taken, and how the last write ended. */
  class Pipe {
    var taken: seq<int>
    var full: bool
    var failed: bool

    constructor ()
      ensures taken == [] && !full && !failed
    {
      taken, full, failed := [], false, false;
    }

    /** write(2) of one pointer: 1 for all of it, 0 when it would block, -1 for an error or a short write. */
    method WritePointer(item: int) returns (ret: int)
      modifies this
      ensures -1 <= ret <= 1 && taken == old(taken) + (if ret == 1 then [item] else [])
      ensures full == (ret == 0) && failed == (ret < 0)
    {
      var n: int := *;
      full, failed := n == 0, n < 0;
      if n > 0 {
        taken := taken + [item];
        return 1;
      }
      ret := if n < 0 then -1 else 0;
    }
  }

  /** The dispatcher hands requests to the thread pool through a pipe, in order. */
  class Dispatcher {
    var requestList: seq<int>
    var openWrite: bool
    const writeEvent: EpollEvent
    const pipe: Pipe
    ghost var requested: seq<int>

    /** What the pipe has taken and what waits are all requests in order, and while some wait the event is armed. */
    ghost predicate Valid()
      reads this, writeEvent, pipe
    {
      && pipe.taken + requestList == requested
      && writeEvent.Balanced() && openWrite == writeEvent.Armed()
      && (requestList != [] ==> openWrite)
    }

    constructor (writeFd: int)
      requires writeFd != -1
      ensures Valid() && requested == [] && !openWrite && fresh(writeEvent) && fresh(pipe)
    {
      requestList, openWrite, requested := [], false, [];
      writeEvent := new EpollEvent();
      pipe := new Pipe();
      new;
      writeEvent.SetFd(writeFd);
      writeEvent.RegisterWEvent();
      writeEvent.CloseWevent();
      openWrite := false;
    }

    method SendRequest(item: int)
      requires Valid()
      modifies this, writeEvent
      ensures Valid() && openWrite && requested == old(requested) + [item] && requestList == old(requestList) + [item]
    {
      requestList := requestList + [item];
      requested := requested + [item];
      if !openWrite {
        writeEvent.OpenWevent();
        openWrite := true;
      }
    }

    /** A write event; it comes only while the event is armed. It goes on until nothing waits, the pipe is full, or writing fails. */
    method SendData() returns (r: int)
      requires Valid() && openWrite
      modifies this, writeEvent, pipe
      ensures Valid() && requested == old(requested) && old(pipe.taken) <= pipe.taken
      ensures openWrite <==> requestList != []
      ensures r == if requestList != [] && pipe.failed then -1 else 0
      ensures requestList != [] ==> pipe.full || pipe.failed
    {
      while requestList != []
        invariant pipe.taken + requestList == requested == old(requested) && old(pipe.taken) <= pipe.taken
        invariant writeEvent.Balanced() && openWrite == writeEvent.Armed() && openWrite
        decreases |requestList|
      {
        var item := requestList[0];
        var ret := pipe.WritePointer(item);
        if ret < 0 {
          return -1;
        } else if ret == 0 {
          break;
        }
        requestList := requestList[1..];
      }
      if requestList == [] {
        writeEvent.CloseWevent();
        openWrite := false;
      }
      return 0;
    }
  }
}
