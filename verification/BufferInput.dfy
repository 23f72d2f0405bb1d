/**
 * The receiving half of BufferManager: a framing state machine over whatever pieces the
 * non-blocking socket hands out. Its fields are disjoint from those of the sending half.
 */
module BufferInput {
  import opened Frames

  /** The peer's byte stream, and how much of it has been read. The socket decides how much each call gets. */
  class Socket {
    const incoming: Bytes
    var taken: nat
    /** The last call reported an error other than would-block, or that the peer has closed; or it would have blocked. */
    var failed: bool
    var blocked: bool

    constructor (incoming: Bytes)
      ensures this.incoming == incoming && taken == 0 && !failed && !blocked
    {
      this.incoming := incoming;
      taken, failed, blocked := 0, false, false;
    }

    ghost predicate Valid()
      reads this
    {
      taken <= |incoming|
    }

    function Consumed(): (s: Bytes)
      requires Valid()
      reads this
    {
      incoming[..taken]
    }

    /**
     * read(2): between 1 and max bytes, 0 when the peer has closed, or -1; then `again` says
     * whether errno is EWOULDBLOCK or EINTR.
     */
    method ReadSocket(buf: array<Byte>, from: nat, max: nat) returns (ret: int, again: bool)
      requires Valid() && 0 < max && from + max <= buf.Length
      modifies this, buf
      ensures Valid() && -1 <= ret <= max
      ensures ret > 0 ==> Consumed() == old(Consumed()) + buf[from..from + ret]
      ensures ret <= 0 ==> taken == old(taken)
      ensures buf[..from] == old(buf[..from])
      ensures failed == (ret == 0 || (ret < 0 && !again)) && blocked == (ret < 0 && again)
    {
      var outcome: int := *;
      var left := |incoming| - taken;
      if outcome <= 0 || left == 0 {
        again := *;
        failed, blocked := outcome >= 0 || !again, outcome < 0 && again;
        return if outcome < 0 then -1 else 0, again;
      }
      failed, blocked := false, false;
      var n := if outcome < max then outcome else max;
      n := if n < left then n else left;
      forall i | 0 <= i < n {
        buf[from + i] := incoming[taken + i];
      }
      assert buf[from..from + n] == incoming[taken..taken + n];
      taken := taken + n;
      return n, false;
    }
  }

  const SUCCESSFUL := 0
  const FAILED := -1

  /** The conversion of an unsigned difference to the method's int result: of the same residue, and in its range. */
  function ToInt(w: UInt32): (i: int)
    ensures -0x8000_0000 <= i < 0x8000_0000 && (i - w) % 0x1_0000_0000 == 0
  {
    if w < 0x8000_0000 then w else w - 0x1_0000_0000
  }

  /** More bytes: what was pending and the new piece together decide what is delivered and what is pending now. */
  lemma Advance(consumed: Bytes, piece: Bytes, delivered: seq<Message>, pending: Bytes)
    requires Parse(consumed) == Parsed(delivered, pending)
    ensures !Complete(pending + piece) ==> Parse(consumed + piece) == Parsed(delivered, pending + piece)
    ensures Complete(pending + piece) && FrameSize(pending + piece) == |pending + piece| ==>
              Parse(consumed + piece) == Parsed(delivered + [FirstMessage(pending + piece)], [])
  {
    var q := pending + piece;
    ParseExtends(consumed, piece);
    if !Complete(q) {
      assert delivered + [] == delivered;
    } else if FrameSize(q) == |q| {
      ParseComplete(q);
      assert q[|q|..] == [] && !Complete([]);
      assert [FirstMessage(q)] + [] == [FirstMessage(q)];
    }
  }

  lemma ShortIsIncomplete(s: Bytes)
    requires |s| < HEADER_SIZE
    ensures !Complete(s)
  {
  }

  /** When a header, alone or with part of its body, makes a complete message. */
  lemma HeaderDecides(head: Bytes, part: Bytes)
    requires |head| == HEADER_SIZE
    ensures Complete(head + part) <==> |part| >= DecodeHeader(head).length
    ensures FrameSize(head + part) == HEADER_SIZE + DecodeHeader(head).length
    ensures |part| == DecodeHeader(head).length ==> FirstMessage(head + part) == Message(DecodeHeader(head), part)
  {
    HeaderOfPrefix(head, part);
    hide DecodeHeader;
    assert (head + part)[HEADER_SIZE..] == part;
  }

  /**
   * Whatever part of the sender's stream has been consumed, what is delivered is a prefix of the
   * messages sent; once all of it has been consumed, it is all of them and nothing is pending.
   */
  lemma DeliveredInOrder(sent: seq<Message>, consumed: Bytes, delivered: seq<Message>, pending: Bytes)
    requires forall i :: 0 <= i < |sent| ==> WellFormed(sent[i])
    requires consumed <= EncodeAll(sent) && Parse(consumed) == Parsed(delivered, pending)
    ensures delivered <= sent
    ensures consumed == EncodeAll(sent) ==> delivered == sent && pending == []
  {
    var t := EncodeAll(sent)[|consumed|..];
    assert EncodeAll(sent) == consumed + t;
    ParseExtends(consumed, t);
    ParseEncoded(sent);
  }

  class InputBuffer {
    var iOffset: UInt32
    var iLen: UInt32
    var bReadHead: bool
    var bInit: bool
    const msgHeader: array<Byte>
    var ioBuf: array?<Byte>
    /** What readBack has been called with. */
    var delivered: seq<Message>

    ghost predicate Valid()
      reads this, msgHeader, ioBuf
    {
      && msgHeader.Length == HEADER_SIZE
      && (bInit ==> bReadHead && iOffset == 0)
      && (!bInit && bReadHead ==> iLen == HEADER_SIZE && iOffset < HEADER_SIZE)
      && (bReadHead ==> ioBuf == null)
      && (!bReadHead ==> !bInit && ioBuf != null && ioBuf != msgHeader && ioBuf.Length == iLen + 1
                         && iLen == DecodeHeader(msgHeader[..]).length && iOffset < iLen)
    }

    /** The bytes of the unfinished message. */
    ghost function Pending(): (s: Bytes)
      requires Valid()
      reads this, msgHeader, ioBuf
    {
      if bInit then [] else if bReadHead then msgHeader[..iOffset] else msgHeader[..] + ioBuf[..iOffset]
    }

    /** Delivered are exactly the messages of the consumed bytes; the fields hold exactly the rest. */
    ghost predicate InStep(consumed: Bytes)
      requires Valid()
      reads this, msgHeader, ioBuf
    {
      Parse(consumed) == Parsed(delivered, Pending())
    }

    constructor ()
      ensures Valid() && InStep([]) && delivered == [] && fresh(msgHeader) && ioBuf == null
    {
      iOffset, iLen, bReadHead, bInit := 0, 0, true, true;
      msgHeader := new Byte[HEADER_SIZE];
      ioBuf := null;
      delivered := [];
      new;
      assert !Complete([]);
    }

    /** The agent's call-back. A body is handed over with a zero byte behind it, and a message without a body as null. */
    method ReadBack(body: array?<Byte>)
      requires msgHeader.Length == HEADER_SIZE && (body == null <==> DecodeHeader(msgHeader[..]).length == 0)
      requires body != null ==> var n := DecodeHeader(msgHeader[..]).length; body.Length == n + 1 && body[n] == 0
      modifies this`delivered
      ensures var h := DecodeHeader(msgHeader[..]);
        delivered == old(delivered) + [Message(h, if body == null then [] else body[..h.length])]
    {
      var h := DecodeHeader(msgHeader[..]);
      delivered := delivered + [Message(h, if body == null then [] else body[..h.length])];
    }

    /** One call when the socket is readable: at most one read for the header and one for the body. */
    method Read(sock: Socket) returns (r: int)
      requires Valid() && sock.Valid() && InStep(sock.Consumed())
      modifies this, msgHeader, ioBuf, sock
      ensures Valid() && sock.Valid() && InStep(sock.Consumed())
      ensures ioBuf == old(ioBuf) || ioBuf == null || fresh(ioBuf)
      ensures old(delivered) <= delivered && |delivered| <= |old(delivered)| + 1
      ensures r == if sock.failed then FAILED
                   else if sock.blocked || delivered != old(delivered) then SUCCESSFUL
                   else ToInt(iLen - iOffset)
      ensures delivered != old(delivered) <==> bInit && !sock.failed && !sock.blocked
      ensures r < 0 && !sock.failed ==> iLen >= 0x8000_0000
    {
      if bInit {
        ioBuf := null;
        forall i | 0 <= i < HEADER_SIZE {
          msgHeader[i] := 0;
        }
        bInit := false;
        iLen := HEADER_SIZE;
      }
      if bReadHead {
        var done;
        r, done := ReadHead(sock);
        if done {
          return;
        }
      }
      if !bReadHead {
        var done;
        r, done := ReadBody(sock);
        if done {
          return;
        }
      }
      r := ToInt(iLen - iOffset);
    }

    method ReadHead(sock: Socket) returns (r: int, done: bool)
      requires Valid() && sock.Valid() && InStep(sock.Consumed()) && bReadHead && !bInit
      modifies this, msgHeader, sock
      ensures Valid() && sock.Valid() && InStep(sock.Consumed())
      ensures ioBuf == old(ioBuf) || fresh(ioBuf)
      ensures !done ==> !bInit && delivered == old(delivered) && !sock.failed && !sock.blocked
      ensures old(delivered) <= delivered && |delivered| <= |old(delivered)| + 1
      ensures done ==> r == (if sock.failed then FAILED else SUCCESSFUL) && (bInit <==> !sock.failed && !sock.blocked)
      ensures delivered != old(delivered) <==> bInit
    {
      hide Parse, DecodeHeader, Complete, FrameSize, FirstMessage, ToInt;
      ghost var consumed, pending := sock.Consumed(), Pending();
      var ret, again := sock.ReadSocket(msgHeader, iOffset, HEADER_SIZE - iOffset);
      if ret < 0 {
        return if again then SUCCESSFUL else FAILED, true;
      } else if ret == 0 {
        return FAILED, true;
      }
      ghost var piece := msgHeader[iOffset..iOffset + ret];
      Advance(consumed, piece, delivered, pending);
      assert msgHeader[..iOffset + ret] == pending + piece;
      iOffset := iOffset + ret;
      ghost var head := msgHeader[..];
      if iOffset < HEADER_SIZE {
        ShortIsIncomplete(pending + piece);
      } else {
        assert head == pending + piece == head + [];
        HeaderDecides(head, []);
      }
      if iOffset == HEADER_SIZE {
        iOffset := 0;
        iLen := DecodeHeader(msgHeader[..]).length;
        if iLen > 0 {
          ioBuf := new Byte[iLen + 1];
          bReadHead := false;
          assert msgHeader[..] + ioBuf[..0] == head;
        } else {
          ReadBack(null);
          bInit := true;
          bReadHead := true;
          return SUCCESSFUL, true;
        }
      }
      return 0, false;
    }

    method ReadBody(sock: Socket) returns (r: int, done: bool)
      requires Valid() && sock.Valid() && InStep(sock.Consumed()) && !bReadHead
      modifies this, ioBuf, sock
      ensures Valid() && sock.Valid() && InStep(sock.Consumed())
      ensures ioBuf == old(ioBuf) || ioBuf == null
      ensures !done ==> !bInit && delivered == old(delivered) && !sock.failed && !sock.blocked
      ensures old(delivered) <= delivered && |delivered| <= |old(delivered)| + 1
      ensures done ==> r == (if sock.failed then FAILED else SUCCESSFUL) && (bInit <==> !sock.failed && !sock.blocked)
      ensures delivered != old(delivered) <==> bInit
    {
      hide Parse, DecodeHeader, Complete, FrameSize, FirstMessage;
      ghost var consumed, pending, head := sock.Consumed(), Pending(), msgHeader[..];
      var ret, again := sock.ReadSocket(ioBuf, iOffset, iLen - iOffset);
      assert msgHeader[..] == head;
      if ret < 0 {
        return if again then SUCCESSFUL else FAILED, true;
      } else if ret == 0 {
        return FAILED, true;
      }
      ghost var piece := ioBuf[iOffset..iOffset + ret];
      Advance(consumed, piece, delivered, pending);
      assert pending + piece == head + ioBuf[..iOffset + ret];
      iOffset := iOffset + ret;
      HeaderDecides(head, ioBuf[..iOffset]);
      if iOffset == iLen {
        ghost var body := ioBuf[..iLen];
        ioBuf[iLen] := 0;
        assert ioBuf[..iLen] == body;
        ReadBack(ioBuf);
        iOffset, iLen := 0, 0;
        bReadHead := true;
        bInit := true;
        ioBuf := null;
        return SUCCESSFUL, true;
      }
      return 0, false;
    }
  }
}
