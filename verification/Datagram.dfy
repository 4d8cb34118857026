/** libsocket's datagrams over a stream: a length prefix, and reads through a small fixed buffer that must end
    at a frame boundary whatever the size of the caller's buffer. */
module Datagram {
  import opened Bytes
  import opened Sequences

  const RECV_BUF_SIZE := 256

  // ---------- what a receive does to the stream ----------

  /** The bytes one message puts on the stream. */
  function Encode(message: Data): Data { EncodeUint32(ToUint32(|message|)) + message }

  function EncodeAll(messages: seq<Data>): Data {
    if messages == [] then [] else Encode(messages[0]) + EncodeAll(messages[1..])
  }

  /** A prefix and as many bytes as it announces. */
  predicate StartsWithFrame(stream: Data) {
    |stream| >= PREFIX_LENGTH && |stream| >= PREFIX_LENGTH + DecodeUint32(stream[..4])
  }

  /** The payload of the frame at the front and what is behind it. */
  function Payload(stream: Data): Data
    requires StartsWithFrame(stream)
  {
    stream[PREFIX_LENGTH..PREFIX_LENGTH + DecodeUint32(stream[..4])]
  }

  function Behind(stream: Data): Data
    requires StartsWithFrame(stream)
  {
    stream[PREFIX_LENGTH + DecodeUint32(stream[..4])..]
  }

  /** What successive receives into buffers of the given capacities store. */
  function ReceiveAll(stream: Data, capacities: seq<nat>): seq<Data>
    decreases capacities
  {
    if capacities == [] || !StartsWithFrame(stream) then []
    else [Payload(stream)[..Min(|Payload(stream)|, capacities[0])]] + ReceiveAll(Behind(stream), capacities[1..])
  }

  lemma EncodedFrame(message: Data, rest: Data)
    requires |message| < UINT32_SIZE
    ensures StartsWithFrame(Encode(message) + rest)
    ensures Payload(Encode(message) + rest) == message && Behind(Encode(message) + rest) == rest
  {
    var stream := Encode(message) + rest;
    assert stream[..4] == EncodeUint32(|message|);
    DecodeEncode(|message|);
  }

  /** A message longer than the prefix can say is announced with its length modulo 2^32, and cut there. */
  lemma EncodedFrameExactly(message: Data)
    ensures StartsWithFrame(Encode(message))
    ensures Payload(Encode(message)) == message <==> |message| < UINT32_SIZE
  {
    var stream := Encode(message);
    assert stream[..4] == EncodeUint32(ToUint32(|message|));
    DecodeEncode(ToUint32(|message|));
    if |message| < UINT32_SIZE {
      assert stream + [] == stream;
      EncodedFrame(message, []);
    } else {
      assert |Payload(stream)| == ToUint32(|message|) < |message|;
    }
  }

  /** The k-th receive stores the first bytes of the k-th message, as many as fit, and nothing of any other. */
  lemma {:induction false} Synchronised(messages: seq<Data>, capacities: seq<nat>, rest: Data)
    requires |messages| == |capacities| && forall i :: 0 <= i < |messages| ==> |messages[i]| < UINT32_SIZE
    ensures var received := ReceiveAll(EncodeAll(messages) + rest, capacities);
      |received| == |messages| &&
      forall k :: 0 <= k < |messages| ==> received[k] == messages[k][..Min(|messages[k]|, capacities[k])]
  {
    if messages != [] {
      var later := EncodeAll(messages[1..]) + rest;
      Regroup(Encode(messages[0]), EncodeAll(messages[1..]), rest);
      EncodedFrame(messages[0], later);
      Synchronised(messages[1..], capacities[1..], rest);
      var received := ReceiveAll(EncodeAll(messages) + rest, capacities);
      assert received[1..] == ReceiveAll(later, capacities[1..]);
      forall k | 1 <= k < |messages|
        ensures received[k] == messages[k][..Min(|messages[k]|, capacities[k])]
      {
        assert received[k] == received[1..][k - 1] && messages[k] == messages[1..][k - 1];
      }
    }
  }

  // ---------- the byte order of the prefix ----------

  method EncodePrefix(n: nat, dst: array<Byte>)
    requires n < UINT32_SIZE && dst.Length == PREFIX_LENGTH
    modifies dst
    ensures dst[..] == EncodeUint32(n)
  {
    var i := 3;
    while i >= 0
      invariant -1 <= i <= 3
      invariant forall k :: i < k < 4 ==> dst[k] == EncodeUint32(n)[k]
    {
      dst[i] := n / Weight(i) % 256;
      i := i - 1;
    }
  }

  /** `1 << (8 * (3 - i))` */
  function Weight(i: int): (w: nat)
    requires 0 <= i <= 3
    ensures w > 0
  {
    if i == 3 then 1 else if i == 2 then 0x100 else if i == 1 then 0x1_0000 else 0x100_0000
  }

  method DecodePrefix(src: array<Byte>) returns (result: nat)
    requires src.Length == PREFIX_LENGTH
    ensures result == DecodeUint32(src[..])
  {
    result := 0;
    var i := 3;
    while i >= 0
      invariant -1 <= i <= 3
      invariant result == Sum(src[..], i)
    {
      var b: int := src[i];
      result := result + b * Weight(i);
      i := i - 1;
    }
  }

  /** The value of the bytes behind index `i`. */
  function Sum(s: Data, i: int): nat
    requires |s| == 4 && -1 <= i <= 3
  {
    var b0: int, b1: int, b2: int, b3: int := s[0], s[1], s[2], s[3];
    (if i < 3 then b3 else 0) + (if i < 2 then b2 * 0x100 else 0) +
    (if i < 1 then b1 * 0x1_0000 else 0) + (if i < 0 then b0 * 0x100_0000 else 0)
  }

  // ---------- the stream socket ----------

  /** A connected stream that is never closed: what will still arrive, and what has been sent. */
  class StreamSocket {
    var incoming: Data
    var outgoing: Data

    constructor (incoming: Data)
      ensures this.incoming == incoming && outgoing == []
    {
      this.incoming, this.outgoing := incoming, [];
    }

    /** Reads at least one and at most `n` bytes to `dst[at..]`; how many is up to the network. */
    method Receive(dst: array<Byte>, at: nat, n: nat) returns (received: nat)
      requires 0 < n <= |incoming| && at + n <= dst.Length
      modifies `incoming, dst
      ensures 1 <= received <= n
      ensures dst[..] == old(dst[..at]) + old(incoming)[..received] + old(dst[at + received..])
      ensures incoming == old(incoming)[received..]
    {
      received :| 1 <= received <= n;
      Store(dst, at, incoming[..received]);
      incoming := incoming[received..];
    }

    /** `snd` throws when there is nothing to send. */
    method Send(data: Data) returns (ok: bool)
      modifies `outgoing
      ensures ok == (data != [])
      ensures outgoing == old(outgoing) + data
    {
      outgoing := outgoing + data;
      ok := |data| > 0;
    }
  }

  /** `memcpy` */
  method Store(dst: array<Byte>, at: nat, data: Data)
    requires at + |data| <= dst.Length
    modifies dst
    ensures dst[..] == old(dst[..at]) + data + old(dst[at + |data|..])
  {
    forall i | 0 <= i < |data| {
      dst[at + i] := data[i];
    }
  }

  // ---------- the datagram socket ----------

  class DgramOverStream {
    const inner: StreamSocket
    const prefixBuffer: array<Byte>
    const recvBuf: array<Byte>

    constructor (inner: StreamSocket)
      ensures this.inner == inner && Valid() && fresh(prefixBuffer) && fresh(recvBuf)
    {
      this.inner := inner;
      prefixBuffer := new Byte[PREFIX_LENGTH];
      recvBuf := new Byte[RECV_BUF_SIZE];
    }

    ghost predicate Valid() {
      prefixBuffer.Length == PREFIX_LENGTH && recvBuf.Length == RECV_BUF_SIZE && prefixBuffer != recvBuf
    }

    /** `sndmsg`. The prefix of an empty message is sent before the empty payload makes the call fail. */
    method SndMsg(message: Data) returns (ok: bool)
      requires Valid()
      modifies inner`outgoing, prefixBuffer
      ensures ok == (message != [])
      ensures inner.outgoing == old(inner.outgoing) + Encode(message)
    {
      EncodePrefix(ToUint32(|message|), prefixBuffer);
      var _ := inner.Send(prefixBuffer[..]);
      Regroup(old(inner.outgoing), prefixBuffer[..], message);
      ok := inner.Send(message);
    }

    /** `receive_header`, the prefix arriving in one piece. */
    method ReceiveHeader() returns (expected: nat)
      requires Valid() && |inner.incoming| >= PREFIX_LENGTH
      modifies inner`incoming, prefixBuffer
      ensures expected == DecodeUint32(old(inner.incoming)[..4])
      ensures inner.incoming == old(inner.incoming)[4..]
    {
      Store(prefixBuffer, 0, inner.incoming[..4]);
      assert prefixBuffer[..] == inner.incoming[..4];
      inner.incoming := inner.incoming[4..];
      expected := DecodePrefix(prefixBuffer);
    }

    /** `receive_bytes`: fills the receive buffer, or less if less is wanted, however short the reads are. */
    method ReceiveBytes(n: nat) returns (received: nat)
      requires Valid() && n <= |inner.incoming|
      modifies inner`incoming, recvBuf
      ensures received == Min(n, RECV_BUF_SIZE)
      ensures recvBuf[..received] == old(inner.incoming)[..received]
      ensures inner.incoming == old(inner.incoming)[received..]
    {
      received := 0;
      if n == 0 {
        return;
      }
      var rest := Min(n, RECV_BUF_SIZE);
      while rest > 0
        invariant received + rest == Min(n, RECV_BUF_SIZE)
        invariant recvBuf[..received] == old(inner.incoming)[..received]
        invariant inner.incoming == old(inner.incoming)[received..]
      {
        var got := inner.Receive(recvBuf, received, rest);
        Grow(old(inner.incoming), received, got);
        rest := rest - got;
        received := received + got;
      }
    }

    /** `rcvmsg` into a buffer of `len` bytes: the first bytes of the message are stored, the rest is discarded,
        and the stream is left at the next frame. */
    method RcvMsg(dst: array<Byte>, len: nat) returns (received: nat)
      requires Valid() && StartsWithFrame(inner.incoming)
      requires len <= dst.Length && dst != recvBuf && dst != prefixBuffer
      modifies inner`incoming, prefixBuffer, recvBuf, dst
      ensures received == Min(|Payload(old(inner.incoming))|, len)
      ensures dst[..] == Payload(old(inner.incoming))[..received] + old(dst[..])[received..]
      ensures inner.incoming == Behind(old(inner.incoming))
    {
      ghost var stream := inner.incoming;
      var expected := ReceiveHeader();
      ghost var tail := inner.incoming;
      assert Payload(stream) == tail[..expected] && Behind(stream) == tail[expected..];
      received := Min(len, expected);
      Fill(dst, received);
      Discard(expected - received);
      CutBehind(tail, received, expected);
    }

    /** A receive into a fresh buffer of the given size. */
    method RcvOne(ghost message: Data, ghost later: Data, capacity: nat) returns (stored: Data)
      requires Valid() && |message| < UINT32_SIZE && inner.incoming == Encode(message) + later
      modifies inner`incoming, prefixBuffer, recvBuf
      ensures stored == message[..Min(|message|, capacity)] && inner.incoming == later
    {
      EncodedFrame(message, later);
      hide Encode, StartsWithFrame;
      var dst := new Byte[capacity];
      var n := RcvMsg(dst, capacity);
      stored := dst[..n];
    }

    method StoreNext(dst: array<Byte>, at: nat, n: nat, ghost tail: Data, ghost before: Data)
      requires Valid() && n <= RECV_BUF_SIZE && at + n <= |tail| && at + n <= |before|
      requires dst[..] == tail[..at] + before[at..] && recvBuf[..n] == tail[at..][..n]
      modifies dst
      ensures dst[..] == tail[..at + n] + before[at + n..]
    {
      ghost var d := dst[..];
      assert dst[..at] == d[..at] && dst[at + n..] == d[at + n..];
      Patch(tail, before, at, n);
      Store(dst, at, recvBuf[..n]);
    }

    /** The storing loop of `rcvmsg`. */
    method Fill(dst: array<Byte>, toReceive: nat)
      requires Valid() && toReceive <= |inner.incoming|
      requires toReceive <= dst.Length && dst != recvBuf && dst != prefixBuffer
      modifies inner`incoming, recvBuf, dst
      ensures dst[..] == old(inner.incoming)[..toReceive] + old(dst[..])[toReceive..]
      ensures inner.incoming == old(inner.incoming)[toReceive..]
    {
      ghost var tail, before := inner.incoming, dst[..];
      var received := 0;
      assert before == tail[..0] + before[0..];
      while received < toReceive
        invariant received <= toReceive && inner.incoming == tail[received..]
        invariant dst[..] == tail[..received] + before[received..]
      {
        var result := ReceiveBytes(toReceive - received);
        assert recvBuf[..result] == tail[received..][..result];
        StoreNext(dst, received, result, tail, before);
        Grow(tail, received, result);
        received := received + result;
      }
    }

    /** `rcvmsg` into a vector: it is shortened to the message, or filled and the rest discarded. */
    method RcvMsgVector(dst: Data) returns (filled: Data)
      requires Valid() && StartsWithFrame(inner.incoming)
      modifies inner`incoming, prefixBuffer, recvBuf
      ensures filled == Payload(old(inner.incoming))[..Min(|Payload(old(inner.incoming))|, |dst|)]
      ensures inner.incoming == Behind(old(inner.incoming))
    {
      ghost var stream := inner.incoming;
      var expected := ReceiveHeader();
      ghost var tail := inner.incoming;
      assert Payload(stream) == tail[..expected] && Behind(stream) == tail[expected..];
      hide StartsWithFrame, Payload, Behind;
      var room := if expected <= |dst| then dst[..expected] else dst;
      CutBehind(tail, |room|, expected);
      filled := FillVector(room);
      Discard(expected - |room|);
    }

    /** The storing loop of `rcvmsg` into a vector. */
    method FillVector(dst: Data) returns (filled: Data)
      requires Valid() && |dst| <= |inner.incoming|
      modifies inner`incoming, recvBuf
      ensures filled == old(inner.incoming)[..|dst|] && inner.incoming == old(inner.incoming)[|dst|..]
    {
      ghost var tail := inner.incoming;
      filled := dst;
      var received := 0;
      while received < |dst|
        invariant received <= |dst| == |filled|
        invariant filled[..received] == tail[..received]
        invariant inner.incoming == tail[received..]
      {
        var result := ReceiveBytes(|dst| - received);
        filled := CopyIn(filled, received, result);
        Grow(tail, received, result);
        received := received + result;
      }
      assert filled == filled[..received];
    }

    /** Copies the receive buffer byte by byte. */
    method CopyIn(dst: Data, at: nat, n: nat) returns (filled: Data)
      requires Valid() && at + n <= |dst| && n <= RECV_BUF_SIZE
      ensures |filled| == |dst| && filled[..at + n] == dst[..at] + recvBuf[..n]
    {
      filled := dst;
      for i := 0 to n
        invariant |filled| == |dst| && filled[..at + i] == dst[..at] + recvBuf[..i]
      {
        filled := filled[at + i := recvBuf[i]];
        assert filled[..at + i + 1] == filled[..at + i] + [recvBuf[i]];
        assert recvBuf[..i + 1] == recvBuf[..i] + [recvBuf[i]];
      }
    }

    /** The part of a message that did not fit. */
    method Discard(n: nat)
      requires Valid() && n <= |inner.incoming|
      modifies inner`incoming, recvBuf
      ensures inner.incoming == old(inner.incoming)[n..]
    {
      var rest := n;
      while rest > 0
        invariant 0 <= rest <= n && inner.incoming == old(inner.incoming)[n - rest..]
      {
        var received := ReceiveBytes(rest);
        Grow(old(inner.incoming), n - rest, received);
        rest := rest - received;
      }
    }
  }

  /** Reading on from where a read stopped. */
  lemma Grow(s: Data, at: nat, n: nat)
    requires at + n <= |s|
    ensures s[..at] + s[at..][..n] == s[..at + n] && s[at..][n..] == s[at + n..]
  {
  }

  /** The front of a message and what is behind the message. */
  lemma CutBehind(s: Data, n: nat, m: nat)
    requires n <= m <= |s|
    ensures s[..m][..n] == s[..n] && s[n..][m - n..] == s[m..]
  {
  }

  /** Overwriting the next bytes of a destination that is filled up to `at`. */
  lemma Patch(tail: Data, before: Data, at: nat, n: nat)
    requires at + n <= |tail| && at + n <= |before|
    ensures var dst := tail[..at] + before[at..];
      dst[..at] + tail[at..][..n] + dst[at + n..] == tail[..at + n] + before[at + n..]
  {
    var dst := tail[..at] + before[at..];
    assert dst[..at] == tail[..at] && dst[at + n..] == before[at + n..];
    Grow(tail, at, n);
  }

  /** Messages sent by one side and received by the other: a whole exchange over one stream. */
  method Exchange(messages: seq<Data>, capacities: seq<nat>) returns (received: seq<Data>)
    requires |messages| == |capacities| && forall i :: 0 <= i < |messages| ==> |messages[i]| < UINT32_SIZE
    ensures |received| == |messages|
    ensures forall k :: 0 <= k < |messages| ==> received[k] == messages[k][..Min(|messages[k]|, capacities[k])]
  {
    var stream := SendMessages(messages);
    received := ReceiveMessages(stream, messages, capacities);
    assert stream + [] == stream;
    Synchronised(messages, capacities, []);
  }

  method SendMessages(messages: seq<Data>) returns (stream: Data)
    ensures stream == EncodeAll(messages)
  {
    var socket := new StreamSocket([]);
    var sender := new DgramOverStream(socket);
    var i := 0;
    while i < |messages|
      invariant i <= |messages| && sender.Valid() && sender.inner == socket
      invariant fresh(socket) && fresh(sender.prefixBuffer)
      invariant socket.outgoing == EncodeAll(messages[..i])
    {
      assert messages[..i + 1] == messages[..i] + [messages[i]];
      EncodeAllSnoc(messages[..i], messages[i]);
      var _ := sender.SndMsg(messages[i]);
      i := i + 1;
    }
    assert messages[..i] == messages;
    stream := socket.outgoing;
  }

  lemma {:induction false} EncodeAllSnoc(messages: seq<Data>, message: Data)
    ensures EncodeAll(messages + [message]) == EncodeAll(messages) + Encode(message)
  {
    if messages == [] {
      assert messages + [message] == [message];
    } else {
      EncodeAllSnoc(messages[1..], message);
      assert (messages + [message])[1..] == messages[1..] + [message];
      Regroup(Encode(messages[0]), EncodeAll(messages[1..]), Encode(message));
    }
  }

  method ReceiveMessages(stream: Data, ghost messages: seq<Data>, capacities: seq<nat>) returns (received: seq<Data>)
    requires |messages| == |capacities| && stream == EncodeAll(messages)
    requires forall i :: 0 <= i < |messages| ==> |messages[i]| < UINT32_SIZE
    ensures received == ReceiveAll(stream, capacities)
  {
    hide ReceiveAll, EncodeAll, Encode;
    var socket := new StreamSocket(stream);
    var receiver := new DgramOverStream(socket);
    received := [];
    var i := 0;
    assert messages[0..] == messages && capacities[0..] == capacities;
    assert [] + ReceiveAll(stream, capacities) == ReceiveAll(stream, capacities);
    while i < |capacities|
      invariant i <= |capacities| && receiver.Valid() && receiver.inner == socket
      invariant fresh(socket) && fresh(receiver.prefixBuffer) && fresh(receiver.recvBuf)
      invariant socket.incoming == EncodeAll(messages[i..])
      invariant ReceiveAll(stream, capacities) == received + ReceiveAll(socket.incoming, capacities[i..])
    {
      NextMessage(messages, capacities, i, received);
      var stored := receiver.RcvOne(messages[i], EncodeAll(messages[i + 1..]), capacities[i]);
      received := received + [stored];
      i := i + 1;
    }
    NoMessage(socket.incoming, capacities, received);
  }

  /** One receive out of many. */
  lemma NextMessage(messages: seq<Data>, capacities: seq<nat>, i: nat, received: seq<Data>)
    requires i < |messages| == |capacities| && |messages[i]| < UINT32_SIZE
    ensures EncodeAll(messages[i..]) == Encode(messages[i]) + EncodeAll(messages[i + 1..])
    ensures received + ReceiveAll(EncodeAll(messages[i..]), capacities[i..])
         == received + [messages[i][..Min(|messages[i]|, capacities[i])]]
            + ReceiveAll(EncodeAll(messages[i + 1..]), capacities[i + 1..])
  {
    var later, after := EncodeAll(messages[i + 1..]), capacities[i + 1..];
    var stored := messages[i][..Min(|messages[i]|, capacities[i])];
    assert messages[i..][0] == messages[i] && messages[i..][1..] == messages[i + 1..];
    assert capacities[i..][0] == capacities[i] && capacities[i..][1..] == after;
    EncodedFrame(messages[i], later);
    assert ReceiveAll(EncodeAll(messages[i..]), capacities[i..]) == [stored] + ReceiveAll(later, after);
    Regroup(received, [stored], ReceiveAll(later, after));
  }

  lemma NoMessage(stream: Data, capacities: seq<nat>, received: seq<Data>)
    ensures received + ReceiveAll(stream, capacities[|capacities|..]) == received
  {
    assert capacities[|capacities|..] == [];
  }
}
