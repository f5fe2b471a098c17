/** The relay's byte pumps, and framed traffic carried end to end across them. */
module RelayPump {
  import opened Bytes
  import opened FrameCodec
  import opened FrameStreams
  import opened RustDeskCodecs

  const READ_BUFFER := 32 * 1024

  datatype WsMessage = Binary(data: seq<Byte>) | Text(text: string) | Ping | Pong | Close

  function Min(a: nat, b: nat): nat {
    if a < b then a else b
  }

  /** TCP to WebSocket: `sizes[i]` is the most read `i` may return; running out of sizes stands
      for a read error. */
  method PumpTcpToWs(input: seq<Byte>, sizes: seq<nat>) returns (sent: seq<WsMessage>, eof: bool)
    requires forall i :: 0 <= i < |sizes| ==> sizes[i] > 0
    ensures forall i :: 0 <= i < |sent| ==> sent[i].Binary? && 0 < |sent[i].data| <= 32_768
    ensures BinaryBytes(sent) <= input
    ensures eof ==> BinaryBytes(sent) == input
    ensures !eof ==> |sent| == |sizes|
  {
    var buf := new Byte[READ_BUFFER];
    sent, eof := [], false;
    var pos := 0;
    for i := 0 to |sizes|
      invariant pos <= |input| && |sent| == i
      invariant forall j :: 0 <= j < |sent| ==> sent[j].Binary? && 0 < |sent[j].data| <= READ_BUFFER
      invariant BinaryBytes(sent) == input[..pos]
    {
      var n := Min(Min(sizes[i], READ_BUFFER), |input| - pos);
      for k := 0 to n
        invariant buf[..k] == input[pos..pos + k]
      {
        buf[k] := input[pos + k];
      }
      if n == 0 {
        return sent, true;
      }
      BinaryBytesSnoc(sent, buf[..n]);
      sent := sent + [Binary(buf[..n])];
      assert input[..pos] + input[pos..pos + n] == input[..pos + n];
      pos := pos + n;
    }
  }

  /** The messages before the first close. */
  function BeforeClose(msgs: seq<WsMessage>): seq<WsMessage> {
    if msgs == [] || msgs[0].Close? then [] else [msgs[0]] + BeforeClose(msgs[1..])
  }

  function Payloads(msgs: seq<WsMessage>): seq<seq<Byte>> {
    if msgs == [] then []
    else (if msgs[0].Binary? then [msgs[0].data] else []) + Payloads(msgs[1..])
  }

  /** The bytes of the Binary messages before the first close, in order. */
  function BinaryBytes(msgs: seq<WsMessage>): seq<Byte> {
    Flatten(Payloads(BeforeClose(msgs)))
  }

  lemma {:induction false} BinaryBytesSnoc(msgs: seq<WsMessage>, data: seq<Byte>)
    requires forall i :: 0 <= i < |msgs| ==> msgs[i].Binary?
    ensures BinaryBytes(msgs + [Binary(data)]) == BinaryBytes(msgs) + data
  {
    if msgs == [] {
    } else {
      BinaryBytesSnoc(msgs[1..], data);
      assert (msgs + [Binary(data)])[1..] == msgs[1..] + [Binary(data)];
    }
  }

  lemma BinaryBytesStep(msgs: seq<WsMessage>)
    requires msgs != [] && !msgs[0].Close?
    ensures BinaryBytes(msgs)
            == (if msgs[0].Binary? then msgs[0].data else []) + BinaryBytes(msgs[1..])
  {
    var before := BeforeClose(msgs);
    assert before[1..] == BeforeClose(msgs[1..]);
    FlattenAppend(if msgs[0].Binary? then [msgs[0].data] else [], Payloads(before[1..]));
  }

  lemma BinaryBytesStop(msgs: seq<WsMessage>)
    requires msgs == [] || msgs[0].Close?
    ensures BinaryBytes(msgs) == []
  {
  }

  /** WebSocket to TCP. */
  method PumpWsToTcp(msgs: seq<WsMessage>) returns (written: seq<Byte>)
    ensures written == BinaryBytes(msgs)
  {
    hide BinaryBytes;
    written := [];
    var i := 0;
    assert msgs[0..] == msgs;
    while i < |msgs|
      invariant i <= |msgs|
      invariant BinaryBytes(msgs) == written + BinaryBytes(msgs[i..])
    {
      assert msgs[i..][1..] == msgs[i + 1..];
      if msgs[i].Close? {
        BinaryBytesStop(msgs[i..]);
      } else {
        BinaryBytesStep(msgs[i..]);
      }
      match msgs[i] {
        case Binary(b) => written := written + b;
        case Close => return;
        case _ =>
      }
      i := i + 1;
    }
    BinaryBytesStop(msgs[i..]);
  }

  /** WebSocket to WebSocket: messages go through as they are, up to the close. */
  method PumpWsToWs(msgs: seq<WsMessage>) returns (out: seq<WsMessage>)
    ensures out == BeforeClose(msgs)
    ensures out <= msgs && (forall i :: 0 <= i < |out| ==> !out[i].Close?)
    ensures |out| < |msgs| ==> msgs[|out|].Close?
    ensures BinaryBytes(out) == BinaryBytes(msgs)
  {
    hide BinaryBytes, BeforeClose;
    ForwardedBytes(msgs);
    BeforeCloseIsPrefix(msgs);
    out := [];
    var i := 0;
    assert msgs[0..] == msgs;
    while i < |msgs|
      invariant i <= |msgs|
      invariant BeforeClose(msgs) == out + BeforeClose(msgs[i..])
    {
      assert msgs[i..][1..] == msgs[i + 1..];
      BeforeCloseStep(msgs[i..]);
      if msgs[i].Close? {
        break;
      }
      out := out + [msgs[i]];
      i := i + 1;
    }
    BeforeCloseStep(msgs[i..]);
    NothingMore(out);
  }

  lemma NothingMore(out: seq<WsMessage>)
    ensures out + [] == out
  {
  }

  lemma BeforeCloseStep(msgs: seq<WsMessage>)
    ensures BeforeClose(msgs)
            == if msgs == [] || msgs[0].Close? then [] else [msgs[0]] + BeforeClose(msgs[1..])
  {
  }

  lemma {:induction false} BeforeCloseIsPrefix(msgs: seq<WsMessage>)
    ensures var out := BeforeClose(msgs);
            && out <= msgs && (forall i :: 0 <= i < |out| ==> !out[i].Close?)
            && (|out| < |msgs| ==> msgs[|out|].Close?)
  {
    if msgs == [] || msgs[0].Close? {
    } else {
      BeforeCloseIsPrefix(msgs[1..]);
    }
  }

  lemma {:induction false} ForwardedBytes(msgs: seq<WsMessage>)
    ensures BeforeClose(BeforeClose(msgs)) == BeforeClose(msgs)
    ensures BinaryBytes(BeforeClose(msgs)) == BinaryBytes(msgs)
  {
    if msgs != [] && !msgs[0].Close? {
      ForwardedBytes(msgs[1..]);
      assert BeforeClose(msgs)[1..] == BeforeClose(msgs[1..]);
    }
  }

  // ---------------------------------------------------------------------------------------------
  // Framed traffic across the relay
  // ---------------------------------------------------------------------------------------------

  lemma {:induction false} CompleteFrames(items: seq<Frame>, k: nat) returns (j: nat)
    requires Sendable(items) && k < |EncodeAll(items)|
    ensures j < |items|
    ensures |EncodeAll(items[..j])| <= k < |EncodeAll(items[..j + 1])|
    decreases |items|
  {
    hide Encode;
    var n := |items| - 1;
    assert items[..n + 1] == items;
    if |EncodeAll(items[..n])| <= k {
      j := n;
    } else {
      j := CompleteFrames(items[..n], k);
      assert items[..n][..j] == items[..j] && items[..n][..j + 1] == items[..j + 1];
    }
  }

  /** However a stream of encoded frames is cut up, what decodes is a prefix of the frames sent,
      all of them once every byte has arrived. */
  lemma CarriedFrames(items: seq<Frame>, chunks: seq<seq<Byte>>)
    requires Sendable(items) && Flatten(chunks) <= EncodeAll(items)
    ensures Feed(Head, [], chunks).frames <= items && !Feed(Head, [], chunks).failed
    ensures Flatten(chunks) == EncodeAll(items) ==>
              Feed(Head, [], chunks) == Drained(items, Head, [], false)
    ensures Feed(Head, [], chunks).frames == items <==> Flatten(chunks) == EncodeAll(items)
  {
    hide EncodeAll, Feed, Drain;
    var bytes := Flatten(chunks);
    if bytes == EncodeAll(items) {
      StreamRoundTrip(items, chunks);
    } else {
      ChunkingIndependent(Head, [], chunks);
      assert [] + bytes == bytes;
      assert bytes == EncodeAll(items)[..|bytes|];
      var j := CompleteFrames(items, |bytes|);
      PrefixYieldsComplete(items, |bytes|, j);
    }
  }

  /** Frames sent over TCP, relayed as Binary messages and decoded message by message. */
  method SendTcpToWs(items: seq<Frame>, sizes: seq<nat>) returns (frames: seq<Frame>, eof: bool)
    requires Sendable(items)
    requires forall i :: 0 <= i < |sizes| ==> sizes[i] > 0
    ensures frames <= items
    ensures eof ==> frames == items
  {
    var stream := EncodeStream(items);
    var sent: seq<WsMessage>;
    sent, eof := PumpTcpToWs(stream, sizes);
    AllPayloads(sent);
    CarriedFrames(items, Payloads(sent));
    frames := DecodeChunks(Payloads(sent));
  }

  lemma {:induction false} AllPayloads(msgs: seq<WsMessage>)
    requires forall i :: 0 <= i < |msgs| ==> msgs[i].Binary?
    ensures BeforeClose(msgs) == msgs
  {
    if msgs == [] {
    } else {
      AllPayloads(msgs[1..]);
    }
  }

  /** What a WebSocket sender does next: some more bytes of its stream as one Binary message, or a
      message that is not Binary. */
  datatype Piece = Cut(size: nat) | Other(msg: WsMessage)

  ghost predicate BinaryOnlyCut(script: seq<Piece>) {
    forall i :: 0 <= i < |script| && script[i].Other? ==> !script[i].msg.Binary?
  }

  function CutUp(stream: seq<Byte>, script: seq<Piece>): seq<WsMessage> {
    if script == [] then []
    else
      match script[0]
      case Cut(size) =>
        var n := Min(size, |stream|);
        [Binary(stream[..n])] + CutUp(stream[n..], script[1..])
      case Other(msg) => [msg] + CutUp(stream, script[1..])
  }

  /** How many bytes the sender means to send before it closes. */
  function CutBytes(script: seq<Piece>): nat {
    if script == [] || script[0] == Other(Close) then 0
    else (if script[0].Cut? then script[0].size else 0) + CutBytes(script[1..])
  }

  lemma {:induction false} CutUpBytes(stream: seq<Byte>, script: seq<Piece>)
    requires BinaryOnlyCut(script)
    ensures BinaryBytes(CutUp(stream, script)) == stream[..Min(CutBytes(script), |stream|)]
    decreases |script|
  {
    if script == [] || script[0] == Other(Close) {
      assert BinaryBytes(CutUp(stream, script)) == [];
    } else {
      var n := if script[0].Cut? then Min(script[0].size, |stream|) else 0;
      var msgs := CutUp(stream, script);
      BinaryBytesStep(msgs);
      CutUpBytes(stream[n..], script[1..]);
      assert msgs[1..] == CutUp(stream[n..], script[1..]);
      TakeTwice(stream, n, CutBytes(script[1..]));
    }
  }

  /** Reading a byte stream in pieces of at most the given sizes. */
  function Reads(bytes: seq<Byte>, sizes: seq<nat>): seq<seq<Byte>> {
    if sizes == [] then []
    else
      var n := Min(sizes[0], |bytes|);
      [bytes[..n]] + Reads(bytes[n..], sizes[1..])
  }

  function Sum(sizes: seq<nat>): nat {
    if sizes == [] then 0 else sizes[0] + Sum(sizes[1..])
  }

  lemma {:induction false} ReadsBytes(bytes: seq<Byte>, sizes: seq<nat>)
    ensures Flatten(Reads(bytes, sizes)) == bytes[..Min(Sum(sizes), |bytes|)]
    decreases |sizes|
  {
    if sizes == [] {
      assert bytes[..0] == [];
    } else {
      var n := Min(sizes[0], |bytes|);
      ReadsBytes(bytes[n..], sizes[1..]);
      TakeTwice(bytes, n, Sum(sizes[1..]));
    }
  }

  lemma TakeTwice(s: seq<Byte>, n: nat, more: nat)
    requires n <= |s|
    ensures s[..n] + s[n..][..Min(more, |s| - n)] == s[..Min(n + more, |s|)]
  {
  }

  /** Frames sent as Binary messages cut anywhere, with other messages between them, relayed to
      TCP and read back in pieces of any size: all arrive exactly when every byte of their
      encoding went out before a close and was read. */
  method SendWsToTcp(items: seq<Frame>, script: seq<Piece>, sizes: seq<nat>)
    returns (frames: seq<Frame>)
    requires Sendable(items) && BinaryOnlyCut(script)
    ensures frames <= items
    ensures frames == items <==>
            |EncodeAll(items)| <= CutBytes(script) && |EncodeAll(items)| <= Sum(sizes)
  {
    hide EncodeAll, Feed, BinaryBytes;
    var stream := EncodeStream(items);
    CutUpBytes(stream, script);
    var written := PumpWsToTcp(CutUp(stream, script));
    ReadsBytes(written, sizes);
    CarriedFrames(items, Reads(written, sizes));
    frames := DecodeChunks(Reads(written, sizes));
  }

  method EncodeStream(items: seq<Frame>) returns (stream: seq<Byte>)
    requires Sendable(items)
    ensures stream == EncodeAll(items)
  {
    hide Encode;
    var codec := new RustDeskCodec();
    var dst := new BytesMut([]);
    for i := 0 to |items|
      invariant !codec.raw
      invariant dst.data == EncodeAll(items[..i])
    {
      var ok := codec.Encode(items[i], dst);
      EncodeAllAppend(items[..i], [items[i]]);
      assert items[..i + 1] == items[..i] + [items[i]];
      EncodeOne(items[i]);
    }
    assert items[..|items|] == items;
    stream := dst.data;
  }

  lemma EncodeOne(item: Frame)
    requires |item| <= MAX_PACKET
    ensures Sendable([item]) && EncodeAll([item]) == Encode(item)
  {
    assert [item][1..] == [];
    assert EncodeAll([]) == [];
  }

  /** What is still to come once the buffer has been drained. */
  function FeedAfter(st: State, buf: seq<Byte>, chunks: seq<seq<Byte>>): seq<Frame> {
    if chunks == [] then [] else Feed(st, buf + chunks[0], chunks[1..]).frames
  }

  lemma FeedSplits(st: State, buf: seq<Byte>, chunks: seq<seq<Byte>>)
    ensures var d := Drain(st, buf);
            Feed(st, buf, chunks).frames == d.frames + FeedAfter(d.state, d.rest, chunks)
  {
  }

  /** A receiver that decodes after every chunk. */
  method DecodeChunks(chunks: seq<seq<Byte>>) returns (frames: seq<Frame>)
    ensures frames == Feed(Head, [], chunks).frames
  {
    hide Drain, Feed;
    var codec := new RustDeskCodec();
    var src := new BytesMut([]);
    var failed: bool;
    FeedSplits(Head, [], chunks);
    frames, failed := DecodeAll(codec, src);
    assert chunks[0..] == chunks;
    for i := 0 to |chunks|
      invariant !codec.raw
      invariant Feed(Head, [], chunks).frames == frames + FeedAfter(codec.state, src.data, chunks[i..])
    {
      assert chunks[i..][1..] == chunks[i + 1..];
      FeedSplits(codec.state, src.data + chunks[i], chunks[i + 1..]);
      src.PutSlice(chunks[i]);
      var more;
      more, failed := DecodeAll(codec, src);
      frames := frames + more;
    }
  }
}
