/** Whole streams of frames: chunking, round trip, prefixes and minimality. */
module FrameStreams {
  import opened Bytes
  import opened FrameCodec

  // ---------------------------------------------------------------------------------------------
  // Draining a buffer, and feeding a stream in chunks
  // ---------------------------------------------------------------------------------------------

  datatype Drained = Drained(frames: seq<Frame>, state: State, rest: seq<Byte>, failed: bool)

  /** Call `decode` until it yields no frame. */
  function Drain(st: State, src: seq<Byte>): Drained
    decreases |src|, if st.Body? then 1 else 0
  {
    var (st', rest, r) := Decode(st, src);
    match r
    case NeedMore => Drained([], st', rest, false)
    case TooLong => Drained([], st', rest, true)
    case Ready(frame) =>
      var d := Drain(st', rest);
      d.(frames := [frame] + d.frames)
  }

  lemma DrainStep(st: State, src: seq<Byte>)
    ensures var (st', rest, r) := Decode(st, src);
            match r
            case Ready(frame) =>
              var d := Drain(st', rest);
              && Drain(st, src) == d.(frames := [frame] + d.frames)
              && (|rest| < |src| || (|rest| == |src| && st.Body? && st'.Head?))
            case NeedMore => Drain(st, src) == Drained([], st', rest, false)
            case TooLong => Drain(st, src) == Drained([], st', rest, true)
  {
  }

  /** Append each chunk to the buffer and drain after each. */
  function Feed(st: State, buf: seq<Byte>, chunks: seq<seq<Byte>>): Drained
    decreases |chunks|
  {
    if chunks == [] then Drain(st, buf) else
    var d := Drain(st, buf);
    var d' := Feed(d.state, d.rest + chunks[0], chunks[1..]);
    d'.(frames := d.frames + d'.frames)
  }

  /** More bytes behind the buffer change nothing about a frame or an error already there, and
      a decoder that asked for more resumes as if it had never stopped. */
  lemma DecodeExtends(st: State, a: seq<Byte>, b: seq<Byte>)
    ensures var (st', rest, r) := Decode(st, a);
            match r
            case Ready(_) => Decode(st, a + b) == (st', rest + b, r)
            case TooLong => rest == a && st' == st == Head && Decode(st, a + b) == (st', a + b, r)
            case NeedMore => Decode(st, a + b) == Decode(st', rest + b)
  {
    match st {
      case Body(n) =>
        BodyExtends(n, a, b);
      case Head =>
        if |a| > 0 && |a| >= HeadLen(a[0]) {
          assert HeaderValue(a + b) == HeaderValue(a);
          var k := HeadLen(a[0]);
          assert (a + b)[k..] == a[k..] + b;
          BodyExtends(BodyLen(a), a[k..], b);
        }
    }
  }

  lemma BodyExtends(n: nat, a: seq<Byte>, b: seq<Byte>)
    ensures |a| >= n ==> DecodeBody(n, a + b) == (Head, a[n..] + b, Ready(a[..n]))
  {
    if |a| >= n {
      assert (a + b)[n..] == a[n..] + b && (a + b)[..n] == a[..n];
    }
  }

  lemma {:induction false} DrainExtends(st: State, a: seq<Byte>, b: seq<Byte>)
    ensures var d := Drain(st, a);
            var d' := Drain(d.state, d.rest + b);
            && Drain(st, a + b) == d'.(frames := d.frames + d'.frames)
            && (d.failed ==> d'.failed && d'.frames == [] && d'.rest == d.rest + b)
    decreases |a|, if st.Body? then 1 else 0
  {
    DecodeExtends(st, a, b);
    var (st', rest, r) := Decode(st, a);
    match r {
      case Ready(frame) =>
        DrainExtends(st', rest, b);
        var d := Drain(st', rest);
        var d' := Drain(d.state, d.rest + b);
        assert [frame] + (d.frames + d'.frames) == ([frame] + d.frames) + d'.frames;
      case NeedMore =>
        assert [] + Drain(st', rest + b).frames == Drain(st', rest + b).frames;
      case TooLong =>
        assert [] + Drain(st', rest + b).frames == Drain(st', rest + b).frames;
    }
  }

  /** A drained buffer holds no further frame. */
  lemma DrainIdle(st: State, a: seq<Byte>)
    ensures var d := Drain(st, a);
            Drain(d.state, d.rest) == d.(frames := [])
  {
    DrainExtends(st, a, []);
    assert a + [] == a;
    var d := Drain(st, a);
    assert d.rest + [] == d.rest;
    var d' := Drain(d.state, d.rest);
    assert |d.frames + d'.frames| == |d.frames|;
  }

  /** The chunking of a stream does not matter: frames, final state, leftover bytes and failure
      are those of feeding it all at once. */
  lemma {:induction false} ChunkingIndependent(st: State, buf: seq<Byte>, chunks: seq<seq<Byte>>)
    ensures Feed(st, buf, chunks) == Drain(st, buf + Flatten(chunks))
    decreases |chunks|
  {
    if chunks == [] {
      assert buf + Flatten(chunks) == buf;
    } else {
      var d := Drain(st, buf);
      var tail := Flatten(chunks[1..]);
      ChunkingIndependent(d.state, d.rest + chunks[0], chunks[1..]);
      DrainExtends(st, buf, chunks[0] + tail);
      assert d.rest + chunks[0] + tail == d.rest + (chunks[0] + tail);
    }
  }

  /** An oversized header is reported without consuming anything, and reported again however
      many bytes follow. */
  lemma FailureRepeats(st: State, buf: seq<Byte>, chunks: seq<seq<Byte>>)
    requires Decode(st, buf).2.TooLong?
    ensures Decode(st, buf).1 == buf
    ensures Feed(st, buf, chunks) == Drained([], Head, buf + Flatten(chunks), true)
  {
    ChunkingIndependent(st, buf, chunks);
    DecodeExtends(st, buf, Flatten(chunks));
  }

  // ---------------------------------------------------------------------------------------------
  // Encoding a list of payloads
  // ---------------------------------------------------------------------------------------------

  ghost predicate Sendable(items: seq<Frame>) {
    forall i :: 0 <= i < |items| ==> |items[i]| <= MAX_PACKET
  }

  function EncodeAll(items: seq<Frame>): seq<Byte>
    requires Sendable(items)
  {
    if items == [] then [] else Encode(items[0]) + EncodeAll(items[1..])
  }

  lemma {:induction false} EncodeAllAppend(a: seq<Frame>, b: seq<Frame>)
    requires Sendable(a) && Sendable(b)
    ensures Sendable(a + b) && EncodeAll(a + b) == EncodeAll(a) + EncodeAll(b)
  {
    hide Encode;
    if a == [] {
      assert a + b == b;
    } else {
      EncodeAllAppend(a[1..], b);
      assert (a + b)[1..] == a[1..] + b;
    }
  }

  /** The header written for `n` bytes reads back as `n`, from any buffer it starts. */
  lemma HeaderReadsBack(n: nat, src: seq<Byte>)
    requires n <= MAX_PACKET
    requires LittleEndian(4 * n + (EncodedHeadLen(n) - 1), EncodedHeadLen(n)) <= src
    ensures |src| > 0 && HeadLen(src[0]) == EncodedHeadLen(n) <= |src| && BodyLen(src) == n
  {
    var k := EncodedHeadLen(n);
    var v := 4 * n + (k - 1);
    var bytes := LittleEndian(v, k);
    assert forall i :: 0 <= i < k ==> src[i] == bytes[i];
    assert src[0] == v % 256;
    if k > 1 {
      assert bytes[1..] == LittleEndian(v / 256, k - 1);
      assert src[1] == v / 256 % 256;
    }
    if k > 2 {
      assert bytes[1..][1..] == LittleEndian(v / 256 / 256, k - 2);
      assert src[2] == v / 256 / 256 % 256;
    }
    if k > 3 {
      assert bytes[1..][1..][1..] == LittleEndian(v / 256 / 256 / 256, k - 3);
      assert src[3] == v / 256 / 256 / 256 % 256;
    }
  }

  lemma EncodeDecodes(item: Frame, tail: seq<Byte>)
    requires |item| <= MAX_PACKET
    ensures Decode(Head, Encode(item) + tail) == (Head, tail, Ready(item))
  {
    hide BodyLen, LittleEndian;
    var src := Encode(item) + tail;
    var k := EncodedHeadLen(|item|);
    assert src == LittleEndian(4 * |item| + (k - 1), k) + (item + tail);
    HeaderReadsBack(|item|, src);
    assert src[k..] == item + tail;
    assert (item + tail)[..|item|] == item && (item + tail)[|item|..] == tail;
  }

  /** In bytes: the decoder refuses exactly the 4-byte headers that announce more than 64 MiB, and
      a payload of 64 MiB still goes through. */
  lemma RefusedExactly(src: seq<Byte>)
    requires |src| >= 4
    ensures Decode(Head, src).2.TooLong? <==>
            && src[0] % 4 == 3
            && src[0] as int + 256 * src[1] as int + 65_536 * src[2] as int + 16_777_216 * src[3] as int
               >= 4 * 67_108_865
  {
  }

  lemma LargestGoesThrough(item: Frame, tail: seq<Byte>)
    requires |item| == 67_108_864
    ensures |item| <= MAX_PACKET && Decode(Head, Encode(item) + tail) == (Head, tail, Ready(item))
  {
    hide Decode, Encode;
    EncodeDecodes(item, tail);
  }

  lemma {:induction false} DrainEncoded(items: seq<Frame>, tail: seq<Byte>)
    requires Sendable(items)
    ensures var d := Drain(Head, tail);
            Drain(Head, EncodeAll(items) + tail) == d.(frames := items + d.frames)
    decreases |items|
  {
    hide Encode, Decode;
    var d := Drain(Head, tail);
    if items == [] {
      assert EncodeAll(items) + tail == tail && items + d.frames == d.frames;
    } else {
      var rest := EncodeAll(items[1..]) + tail;
      assert EncodeAll(items) + tail == Encode(items[0]) + rest;
      EncodeDecodes(items[0], rest);
      DrainEncoded(items[1..], tail);
      assert [items[0]] + (items[1..] + d.frames) == items + d.frames;
    }
  }

  /** Decoding the encodings of any payloads, in any chunks, gives back exactly the payloads. */
  lemma StreamRoundTrip(items: seq<Frame>, chunks: seq<seq<Byte>>)
    requires Sendable(items) && Flatten(chunks) == EncodeAll(items)
    ensures Feed(Head, [], chunks) == Drained(items, Head, [], false)
  {
    ChunkingIndependent(Head, [], chunks);
    DrainEncoded(items, []);
    assert [] + Flatten(chunks) == EncodeAll(items) + [];
    assert items + [] == items;
  }

  /** A stream of encodings is uniquely decodable. */
  lemma UniquelyDecodable(a: seq<Frame>, b: seq<Frame>)
    requires Sendable(a) && Sendable(b) && EncodeAll(a) == EncodeAll(b)
    ensures a == b
  {
    DrainEncoded(a, []);
    DrainEncoded(b, []);
    assert EncodeAll(a) + [] == EncodeAll(b) + [];
    assert a + [] == a && b + [] == b;
  }

  lemma PartialFrameWaits(item: Frame, k: nat)
    requires |item| <= MAX_PACKET && k < |Encode(item)|
    ensures Drain(Head, Encode(item)[..k]).frames == []
    ensures !Drain(Head, Encode(item)[..k]).failed
  {
    hide BodyLen, LittleEndian;
    var src := Encode(item)[..k];
    var h := EncodedHeadLen(|item|);
    var header := LittleEndian(4 * |item| + (h - 1), h);
    HeaderReadsBack(|item|, Encode(item));
    if k > 0 && k >= h {
      assert header <= src;
      HeaderReadsBack(|item|, src);
    }
  }

  /** A strict prefix of a stream yields the frames it holds completely and no other. */
  lemma PrefixYieldsComplete(items: seq<Frame>, k: nat, j: nat)
    requires Sendable(items) && j < |items|
    requires |EncodeAll(items[..j])| <= k < |EncodeAll(items[..j + 1])|
    ensures k < |EncodeAll(items)|
    ensures Drain(Head, EncodeAll(items)[..k]).frames == items[..j]
    ensures !Drain(Head, EncodeAll(items)[..k]).failed
  {
    hide Encode, Decode, Drain;
    EncodeAllAppend(items[..j], [items[j]]);
    EncodeAllAppend(items[..j + 1], items[j + 1..]);
    assert items[..j + 1] == items[..j] + [items[j]];
    assert items == items[..j + 1] + items[j + 1..];
    assert EncodeAll([items[j]]) == Encode(items[j]) + EncodeAll([]) == Encode(items[j]);
    var front := EncodeAll(items[..j]);
    var part := Encode(items[j])[..k - |front|];
    assert EncodeAll(items)[..k] == front + part;
    DrainEncoded(items[..j], part);
    PartialFrameWaits(items[j], k - |front|);
    assert items[..j] + [] == items[..j];
  }

  lemma HeaderIsMinimal(src: seq<Byte>)
    requires |src| > 0 && |src| >= HeadLen(src[0])
    ensures EncodedHeadLen(BodyLen(src)) <= HeadLen(src[0])
  {
  }

  /** Re-encoding whatever a buffer decoded to never takes more bytes than were consumed. */
  lemma {:induction false} EncodingIsMinimal(src: seq<Byte>)
    ensures var d := Drain(Head, src);
            Sendable(d.frames) && |EncodeAll(d.frames)| + |d.rest| <= |src|
    decreases |src|
  {
    var (st', rest, r) := Decode(Head, src);
    if r.Ready? {
      HeaderIsMinimal(src);
      EncodingIsMinimal(rest);
      var d := Drain(Head, rest);
      assert ([r.frame] + d.frames)[1..] == d.frames;
    }
  }

  // ---------------------------------------------------------------------------------------------
  // Raw passthrough
  // ---------------------------------------------------------------------------------------------

  /** What a raw decoder hands up when it is drained after each chunk. */
  function RawFeed(st: State, buf: seq<Byte>, chunks: seq<seq<Byte>>): (seq<Frame>, seq<Byte>)
    decreases |chunks|
  {
    if chunks == [] then ([], buf)
    else
      var (st', rest, r) := DecodeRaw(st, buf + chunks[0]);
      var (frames, left) := RawFeed(st', rest, chunks[1..]);
      ((if r.Ready? then [r.frame] else []) + frames, left)
  }

  function NonEmpty(chunks: seq<seq<Byte>>): seq<seq<Byte>> {
    if chunks == [] then []
    else (if chunks[0] == [] then [] else [chunks[0]]) + NonEmpty(chunks[1..])
  }

  /** In raw mode every chunk that is not empty is handed up as it came, the framing state is not
      touched and nothing stays in the buffer. */
  lemma {:induction false} RawHandsUpChunks(st: State, chunks: seq<seq<Byte>>)
    ensures RawFeed(st, [], chunks) == (NonEmpty(chunks), [])
    ensures forall src :: DecodeRaw(st, src).0 == st && !DecodeRaw(st, src).2.TooLong?
    ensures Flatten(NonEmpty(chunks)) == Flatten(chunks)
    decreases |chunks|
  {
    if chunks == [] {
    } else {
      RawHandsUpChunks(st, chunks[1..]);
      assert [] + chunks[0] == chunks[0];
      FlattenAppend(if chunks[0] == [] then [] else [chunks[0]], NonEmpty(chunks[1..]));
    }
  }
}
