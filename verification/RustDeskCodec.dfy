/** The codec object: decoder state kept between calls, buffers consumed and filled in place. */
module RustDeskCodecs {
  import opened Bytes
  import opened FrameCodec
  import opened FrameStreams
  import FC = FrameCodec

  /** `v` shifted right by `i` bytes. */
  function Shifted(v: nat, i: nat): nat {
    if i == 0 then v else Shifted(v / 256, i - 1)
  }

  lemma {:induction false} LittleEndianAt(v: nat, k: nat, i: nat)
    requires i < k
    ensures LittleEndian(v, k)[i] == Shifted(v, i) % 256
  {
    if i == 0 {
    } else {
      LittleEndianAt(v / 256, k - 1, i - 1);
    }
  }

  class BytesMut {
    var data: seq<Byte>

    constructor (data: seq<Byte>)
      ensures this.data == data
    {
      this.data := data;
    }

    method Advance(n: nat)
      requires n <= |data|
      modifies this
      ensures data == old(data)[n..]
    {
      data := data[n..];
    }

    method SplitTo(n: nat) returns (front: Frame)
      requires n <= |data|
      modifies this
      ensures front == old(data)[..n] && data == old(data)[n..]
    {
      front := data[..n];
      data := data[n..];
    }

    method PutByte(b: Byte)
      modifies this
      ensures data == old(data) + [b]
    {
      data := data + [b];
    }

    method PutSlice(bytes: seq<Byte>)
      modifies this
      ensures data == old(data) + bytes
    {
      data := data + bytes;
    }
  }

  class RustDeskCodec {
    var state: State
    var raw: bool
    const max: nat := MAX_PACKET

    constructor ()
      ensures state == Head && !raw
    {
      state := Head;
      raw := false;
    }

    method SetRaw()
      modifies this
      ensures raw && state == old(state)
    {
      raw := true;
    }

    method Decode(src: BytesMut) returns (r: DecodeResult)
      modifies this, src
      ensures raw == old(raw)
      ensures (state, src.data, r)
              == if raw then DecodeRaw(old(state), old(src.data))
                 else FC.Decode(old(state), old(src.data))
    {
      if raw {
        if src.data == [] {
          return NeedMore;
        }
        var n := |src.data|;
        var all := src.SplitTo(n);
        assert all == old(src.data) && src.data == [];
        return Ready(all);
      }
      while true
        invariant raw == old(raw) && !raw
        invariant FC.Decode(state, src.data)
                  == FC.Decode(old(state), old(src.data))
        decreases |src.data|
      {
        match state {
          case Head =>
            if |src.data| == 0 {
              return NeedMore;
            }
            var headLen := src.data[0] % 4 + 1;
            if |src.data| < headLen {
              return NeedMore;
            }
            var n: nat := src.data[0];
            if headLen > 1 {
              n := n + src.data[1] as int * 0x100;
            }
            if headLen > 2 {
              n := n + src.data[2] as int * 0x1_0000;
            }
            if headLen > 3 {
              n := n + src.data[3] as int * 0x100_0000;
            }
            n := n / 4;
            if n > max {
              return TooLong;
            }
            src.Advance(headLen);
            state := Body(n);
          case Body(n) =>
            if |src.data| < n {
              return NeedMore;
            }
            var frame := src.SplitTo(n);
            state := Head;
            return Ready(frame);
        }
      }
    }

    /** False when the item exceeds the packet limit. */
    method Encode(item: Frame, dst: BytesMut) returns (ok: bool)
      modifies dst
      ensures ok == (raw || |item| <= 67_108_864)
      ensures dst.data == old(dst.data)
                          + if raw then item
                            else if |item| <= MAX_PACKET then FC.Encode(item)
                            else []
    {
      hide LittleEndian, Shifted;
      if raw {
        dst.PutSlice(item);
        return true;
      }
      var n := |item|;
      if n > max {
        return false;
      }
      var headLen := if n < 64 then 1 else if n < 0x4000 then 2 else if n < 0x40_0000 then 3 else 4;
      var header: nat := 4 * n + (headLen - 1);
      ghost var bytes := LittleEndian(header, headLen);
      for i := 0 to headLen
        invariant dst.data == old(dst.data) + bytes[..i]
      {
        LittleEndianAt(header, headLen, i);
        assert bytes[..i + 1] == bytes[..i] + [bytes[i]];
        dst.PutByte(Shifted(header, i) % 256);
      }
      assert bytes[..headLen] == bytes;
      dst.PutSlice(item);
      assert old(dst.data) + bytes + item == old(dst.data) + (bytes + item);
      return true;
    }
  }

  /** What the framed transport does with its buffer after each read; nothing decodable is left
      in it. */
  method DecodeAll(codec: RustDeskCodec, src: BytesMut) returns (frames: seq<Frame>, failed: bool)
    requires !codec.raw
    modifies codec, src
    ensures !codec.raw
    ensures Drained(frames, codec.state, src.data, failed) == Drain(old(codec.state), old(src.data))
    ensures Drain(codec.state, src.data) == Drained([], codec.state, src.data, failed)
  {
    hide FC.Decode, Drain;
    DrainIdle(codec.state, src.data);
    frames := [];
    while true
      invariant !codec.raw
      invariant var d := Drain(codec.state, src.data);
                Drain(old(codec.state), old(src.data)) == d.(frames := frames + d.frames)
      decreases |src.data|, if codec.state.Body? then 1 else 0
    {
      DrainStep(codec.state, src.data);
      var r := codec.Decode(src);
      match r {
        case Ready(frame) =>
          ghost var d := Drain(codec.state, src.data);
          assert frames + ([frame] + d.frames) == frames + [frame] + d.frames;
          frames := frames + [frame];
        case NeedMore => return frames, false;
        case TooLong => return frames, true;
      }
    }
  }
}
