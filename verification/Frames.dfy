/** The wire format: a header of five little-endian 32-bit words, then `length` bytes of body. */
module Frames {

  type Byte = b: int | 0 <= b < 256
  type Bytes = seq<Byte>
  type UInt32 = w: int | 0 <= w < 0x1_0000_0000

  const HEADER_SIZE := 20

  datatype Header = Header(cmd: UInt32, length: UInt32, error: UInt32, para1: UInt32, para2: UInt32)
  datatype Message = Message(header: Header, body: Bytes)

  /** The memory image of an unsigned int on the little-endian machine. */
  function EncodeWord(w: UInt32): (s: Bytes)
    ensures |s| == 4
  {
    [w % 256, w / 256 % 256, w / 65536 % 256, w / 16777216]
  }

  function DecodeWord(s: Bytes, at: nat): (w: UInt32)
    requires at + 4 <= |s|
  {
    s[at] as int + s[at + 1] as int * 256 + s[at + 2] as int * 65536 + s[at + 3] as int * 16777216
  }

  function EncodeHeader(h: Header): (s: Bytes)
    ensures |s| == HEADER_SIZE
  {
    EncodeWord(h.cmd) + EncodeWord(h.length) + EncodeWord(h.error) + EncodeWord(h.para1) + EncodeWord(h.para2)
  }

  function DecodeHeader(s: Bytes): (h: Header)
    requires |s| >= HEADER_SIZE
  {
    Header(DecodeWord(s, 0), DecodeWord(s, 4), DecodeWord(s, 8), DecodeWord(s, 12), DecodeWord(s, 16))
  }

  lemma WordRoundTrip(w: UInt32, s: Bytes, at: nat)
    requires at + 4 <= |s| && s[at..at + 4] == EncodeWord(w)
    ensures DecodeWord(s, at) == w
  {
    var t := s[at..at + 4];
    assert s[at] == t[0] && s[at + 1] == t[1] && s[at + 2] == t[2] && s[at + 3] == t[3];
    FourDigits(w);
  }

  lemma FourDigits(w: int)
    requires w >= 0
    ensures w % 256 + w / 256 % 256 * 256 + w / 65536 % 256 * 65536 + w / 16777216 * 16777216 == w
  {
    assert w / 65536 == w / 256 / 256;
    assert w / 16777216 == w / 65536 / 256;
  }

  lemma HeaderRoundTrip(h: Header, rest: Bytes)
    ensures DecodeHeader(EncodeHeader(h) + rest) == h
  {
    hide EncodeWord, DecodeWord;
    var s := EncodeHeader(h) + rest;
    assert s[0..4] == EncodeWord(h.cmd);
    assert s[4..8] == EncodeWord(h.length);
    assert s[8..12] == EncodeWord(h.error);
    assert s[12..16] == EncodeWord(h.para1);
    assert s[16..20] == EncodeWord(h.para2);
    WordRoundTrip(h.cmd, s, 0);
    WordRoundTrip(h.length, s, 4);
    WordRoundTrip(h.error, s, 8);
    WordRoundTrip(h.para1, s, 12);
    WordRoundTrip(h.para2, s, 16);
  }

  /** 256^k, the weight of byte k of a word. */
  function Weight(k: nat): (n: nat)
    ensures n > 0
  {
    if k == 0 then 1 else 256 * Weight(k - 1)
  }

  lemma Weights()
    ensures Weight(0) == 1 && Weight(1) == 256 && Weight(2) == 65536 && Weight(3) == 16777216
  {
    assert Weight(2) == 256 * Weight(1);
  }

  lemma WordOnWire(w: UInt32, k: nat)
    requires k < 4
    ensures EncodeWord(w)[k] == w / Weight(k) % 256
  {
    Weights();
    hide Weight;
    assert k == 0 || k == 1 || k == 2 || k == 3;
    assert w / 16777216 < 256;
  }

  /** Where everything is on the wire: word j of a header begins at byte 4j, and its byte k has the weight 256^k. */
  lemma HeaderOnWire(h: Header, k: nat)
    requires k < 4
    ensures var s := EncodeHeader(h);
      && s[k] == h.cmd / Weight(k) % 256 && s[4 + k] == h.length / Weight(k) % 256 && s[8 + k] == h.error / Weight(k) % 256
      && s[12 + k] == h.para1 / Weight(k) % 256 && s[16 + k] == h.para2 / Weight(k) % 256
  {
    hide Weight, EncodeWord;
    WordOnWire(h.cmd, k);
    WordOnWire(h.length, k);
    WordOnWire(h.error, k);
    WordOnWire(h.para1, k);
    WordOnWire(h.para2, k);
  }

  lemma WordBack(s: Bytes, at: nat)
    requires at + 4 <= |s|
    ensures EncodeWord(DecodeWord(s, at)) == s[at..at + 4]
  {
    var a, b, c, d := s[at] as int, s[at + 1] as int, s[at + 2] as int, s[at + 3] as int;
    var w := a + b * 256 + c * 65536 + d * 16777216;
    assert w / 256 == b + c * 256 + d * 65536;
    assert w / 65536 == c + d * 256;
    assert w / 16777216 == d;
    assert w % 256 == a && w / 256 % 256 == b && w / 65536 % 256 == c;
  }

  /** Every 20 bytes are the image of the header read from them. */
  lemma HeaderBack(s: Bytes)
    requires |s| >= HEADER_SIZE
    ensures EncodeHeader(DecodeHeader(s)) == s[..HEADER_SIZE]
  {
    hide EncodeWord, DecodeWord;
    WordBack(s, 0);
    WordBack(s, 4);
    WordBack(s, 8);
    WordBack(s, 12);
    WordBack(s, 16);
    assert s[..HEADER_SIZE] == s[0..4] + s[4..8] + s[8..12] + s[12..16] + s[16..20];
  }

  /** A message as send_data lays it out. */
  function EncodeMessage(m: Message): (s: Bytes) {
    EncodeHeader(m.header) + m.body
  }

  /** The header announces the body's length. */
  predicate WellFormed(m: Message) {
    m.header.length == |m.body|
  }

  function EncodeAll(ms: seq<Message>): (s: Bytes) {
    if ms == [] then [] else EncodeMessage(ms[0]) + EncodeAll(ms[1..])
  }

  /** The complete messages at the front of a stream, and the unfinished bytes behind them. */
  datatype Parsed = Parsed(messages: seq<Message>, rest: Bytes)

  /** The length of the first frame, when its header is complete. */
  function FrameSize(s: Bytes): (n: nat)
    requires |s| >= HEADER_SIZE
    ensures n >= HEADER_SIZE
  {
    HEADER_SIZE + DecodeHeader(s).length
  }

  predicate Complete(s: Bytes) {
    |s| >= HEADER_SIZE && |s| >= FrameSize(s)
  }

  function FirstMessage(s: Bytes): (m: Message)
    requires Complete(s)
  {
    Message(DecodeHeader(s), s[HEADER_SIZE..FrameSize(s)])
  }

  function Parse(s: Bytes): (p: Parsed)
    ensures |p.rest| <= |s|
    decreases |s|
  {
    if !Complete(s) then Parsed([], s)
    else
      var p := Parse(s[FrameSize(s)..]);
      Parsed([FirstMessage(s)] + p.messages, p.rest)
  }

  lemma HeaderOfPrefix(s: Bytes, t: Bytes)
    requires |s| >= HEADER_SIZE
    ensures DecodeHeader(s + t) == DecodeHeader(s) == DecodeHeader(s[..HEADER_SIZE])
  {
  }

  lemma ParseComplete(s: Bytes)
    requires Complete(s)
    ensures Parse(s) == Parsed([FirstMessage(s)] + Parse(s[FrameSize(s)..]).messages, Parse(s[FrameSize(s)..]).rest)
  {
  }

  lemma FirstOfLonger(s: Bytes, t: Bytes)
    requires Complete(s)
    ensures Complete(s + t) && FrameSize(s + t) == FrameSize(s) && FirstMessage(s + t) == FirstMessage(s)
    ensures (s + t)[FrameSize(s)..] == s[FrameSize(s)..] + t
  {
    HeaderOfPrefix(s, t);
    hide DecodeHeader;
    var n := FrameSize(s);
    assert (s + t)[HEADER_SIZE..n] == s[HEADER_SIZE..n];
  }

  /** Parsing a longer stream goes on from the unfinished bytes of the shorter one. */
  lemma {:induction false} ParseExtends(s: Bytes, t: Bytes)
    ensures var p, q := Parse(s), Parse(Parse(s).rest + t);
      Parse(s + t) == Parsed(p.messages + q.messages, q.rest)
    decreases |s|
  {
    hide *;
    if Complete(s) {
      FirstOfLonger(s, t);
      ParseComplete(s);
      ParseComplete(s + t);
      CompleteHasHeader(s);
      var n, m := FrameSize(s), FirstMessage(s);
      ParseExtends(s[n..], t);
      var p', q := Parse(s[n..]), Parse(Parse(s).rest + t);
      assert [m] + (p'.messages + q.messages) == ([m] + p'.messages) + q.messages;
    } else {
      ParseIncomplete(s);
      assert [] + Parse(s + t).messages == Parse(s + t).messages;
    }
  }

  lemma CompleteHasHeader(s: Bytes)
    requires Complete(s)
    ensures |s| >= HEADER_SIZE && |s| >= FrameSize(s)
  {
  }

  lemma ParseIncomplete(s: Bytes)
    requires !Complete(s)
    ensures Parse(s) == Parsed([], s)
  {
  }

  /** What is left over never holds a complete message. */
  lemma {:induction false} RestIncomplete(s: Bytes)
    ensures !Complete(Parse(s).rest) && Parse(Parse(s).rest) == Parsed([], Parse(s).rest)
    decreases |s|
  {
    if Complete(s) {
      RestIncomplete(s[FrameSize(s)..]);
    }
  }

  /** Messages that are sent come back unchanged, in order, with nothing left over. */
  lemma {:induction false} ParseEncoded(ms: seq<Message>)
    requires forall i :: 0 <= i < |ms| ==> WellFormed(ms[i])
    ensures Parse(EncodeAll(ms)) == Parsed(ms, [])
  {
    if ms != [] {
      var m, tail := ms[0], EncodeAll(ms[1..]);
      var s := EncodeMessage(m) + tail;
      assert s == EncodeHeader(m.header) + (m.body + tail);
      HeaderRoundTrip(m.header, m.body + tail);
      assert s[HEADER_SIZE..FrameSize(s)] == m.body;
      assert s[FrameSize(s)..] == tail;
      ParseComplete(s);
      ParseEncoded(ms[1..]);
      assert ms == [m] + ms[1..];
    } else {
      assert !Complete([]);
    }
  }
}
