/** Bytes, byte strings and the small helpers every other module shares. */
module Bytes {

  datatype Option<+T> = None | Some(value: T)

  type Byte = b: int | 0 <= b < 256

  type Frame = seq<Byte>

  /** The parts joined end to end. */
  function Flatten<T>(parts: seq<seq<T>>): seq<T> {
    if |parts| == 0 then [] else parts[0] + Flatten(parts[1..])
  }

  lemma {:induction false} FlattenAppend<T>(a: seq<seq<T>>, b: seq<seq<T>>)
    ensures Flatten(a + b) == Flatten(a) + Flatten(b)
  {
    if |a| == 0 {
      assert a + b == b;
    } else {
      assert (a + b)[0] == a[0] && (a + b)[1..] == a[1..] + b;
      FlattenAppend(a[1..], b);
      assert a[0] + (Flatten(a[1..]) + Flatten(b)) == (a[0] + Flatten(a[1..])) + Flatten(b);
    }
  }

  /** The total number of bytes in a list of frames. */
  function TotalBytes(frames: seq<Frame>): nat {
    if |frames| == 0 then 0
    else TotalBytes(frames[..|frames| - 1]) + |frames[|frames| - 1]|
  }

  lemma TotalBytesSnoc(a: seq<Frame>, f: Frame)
    ensures TotalBytes(a + [f]) == TotalBytes(a) + |f|
  {
    assert (a + [f])[..|a|] == a;
  }

  lemma {:induction false} TotalBytesAppend(a: seq<Frame>, b: seq<Frame>)
    ensures TotalBytes(a + b) == TotalBytes(a) + TotalBytes(b)
  {
    if |b| == 0 {
      assert a + b == a;
    } else {
      TotalBytesAppend(a, b[..|b| - 1]);
      assert (a + b)[..|a + b| - 1] == a + b[..|b| - 1];
    }
  }

  /** The low `k` bytes of `v` in two's complement, most significant first. */
  function BigEndianBytes(v: int, k: nat): (r: seq<Byte>)
    ensures |r| == k
    decreases k
  {
    if k == 0 then [] else BigEndianBytes(v / 256, k - 1) + [v % 256]
  }

  /** A 32-bit big-endian length field. */
  function BigEndian32(n: nat): (r: seq<Byte>)
    requires n < 0x1_0000_0000
    ensures r == [n / 0x100_0000, (n / 0x1_0000) % 256, (n / 256) % 256, n % 256]
  {
    assert n / 256 / 256 == n / 0x1_0000 && n / 0x1_0000 / 256 == n / 0x100_0000;
    assert BigEndianBytes(n / 0x100_0000, 1) == [n / 0x100_0000];
    BigEndianBytes(n, 4)
  }

  function FromBigEndian32(s: seq<Byte>): (n: nat)
    requires |s| >= 4
    ensures n < 0x1_0000_0000
  {
    s[0] as int * 0x100_0000 + s[1] as int * 0x1_0000 + s[2] as int * 256 + s[3]
  }

  lemma BigEndian32RoundTrip(n: nat)
    requires n < 0x1_0000_0000
    ensures FromBigEndian32(BigEndian32(n)) == n
  {
    assert n / 256 == (n / 0x1_0000) * 256 + (n / 256) % 256;
    assert n / 0x1_0000 == (n / 0x100_0000) * 256 + (n / 0x1_0000) % 256;
  }

  lemma BigEndian32Unique(s: seq<Byte>)
    requires |s| >= 4
    ensures BigEndian32(FromBigEndian32(s)) == s[..4]
  {
    var n := FromBigEndian32(s);
    assert n / 256 == s[0] as int * 0x1_0000 + s[1] as int * 256 + s[2];
    assert n / 0x1_0000 == s[0] as int * 256 + s[1];
    assert n / 0x100_0000 == s[0];
  }
}
