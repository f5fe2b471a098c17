/** RustDesk's length-delimited framing: the resumable decoder and the encoder. */
module FrameCodec {
  import opened Bytes

  const MAX_PACKET := 64 * 1024 * 1024

  datatype State = Head | Body(n: nat)

  datatype DecodeResult = Ready(frame: Frame) | NeedMore | TooLong

  // ---------------------------------------------------------------------------------------------
  // One call of `decode` and of `encode`
  // ---------------------------------------------------------------------------------------------

  function HeadLen(first: Byte): (n: nat)
    ensures 1 <= n <= 4
  {
    first % 4 + 1
  }

  /** The little-endian value of the header bytes; they occupy disjoint bits. */
  function HeaderValue(src: seq<Byte>): nat
    requires |src| > 0 && |src| >= HeadLen(src[0])
  {
    var k := HeadLen(src[0]);
    src[0] as int
    + (if k > 1 then src[1] as int * 0x100 else 0)
    + (if k > 2 then src[2] as int * 0x1_0000 else 0)
    + (if k > 3 then src[3] as int * 0x100_0000 else 0)
  }

  /** The payload length a header announces. */
  function BodyLen(src: seq<Byte>): nat
    requires |src| > 0 && |src| >= HeadLen(src[0])
  {
    HeaderValue(src) / 4
  }

  function DecodeBody(n: nat, src: seq<Byte>): (State, seq<Byte>, DecodeResult) {
    if |src| < n then (Body(n), src, NeedMore)
    else (Head, src[n..], Ready(src[..n]))
  }

  /** New state, bytes left in the buffer, and the result of one framed `decode` call. */
  function Decode(st: State, src: seq<Byte>): (State, seq<Byte>, DecodeResult) {
    match st
    case Body(n) => DecodeBody(n, src)
    case Head =>
      if |src| == 0 || |src| < HeadLen(src[0]) then (Head, src, NeedMore)
      else if BodyLen(src) > MAX_PACKET then (Head, src, TooLong)
      else DecodeBody(BodyLen(src), src[HeadLen(src[0])..])
  }

  /** Raw passthrough hands up whatever is there. */
  function DecodeRaw(st: State, src: seq<Byte>): (State, seq<Byte>, DecodeResult) {
    if src == [] then (st, src, NeedMore) else (st, [], Ready(src))
  }

  function EncodedHeadLen(n: nat): (k: nat)
    ensures 1 <= k <= 4
  {
    if n < 64 then 1 else if n < 0x4000 then 2 else if n < 0x40_0000 then 3 else 4
  }

  /** The low `k` bytes of `v`, least significant first. */
  function LittleEndian(v: nat, k: nat): (r: seq<Byte>)
    ensures |r| == k
    decreases k
  {
    if k == 0 then [] else [v % 256] + LittleEndian(v / 256, k - 1)
  }

  function Encode(item: Frame): seq<Byte>
    requires |item| <= MAX_PACKET
  {
    var k := EncodedHeadLen(|item|);
    LittleEndian(4 * |item| + (k - 1), k) + item
  }
}
