/** Encoder samples in AVCC form (4-byte big-endian length, NAL, ...) rewritten to Annex-B, by
    the Windows and the macOS capturer. */
module Avcc {
  import opened Bytes
  import opened AnnexB

  const UINT32_LIMIT := 0x1_0000_0000

  /** Each complete record's NAL behind a start code; a truncated record ends the list. */
  function Rewrite(s: seq<Byte>): seq<seq<Byte>>
    decreases |s|
  {
    if |s| < 4 then [] else
    var n := FromBigEndian32(s);
    if 4 + n > |s| then []
    else [START_CODE + s[4..4 + n]] + Rewrite(s[4 + n..])
  }

  lemma RewriteStep(s: seq<Byte>)
    requires |s| >= 4 && 4 + FromBigEndian32(s) <= |s|
    ensures Rewrite(s) == [START_CODE + s[4..4 + FromBigEndian32(s)]]
                          + Rewrite(s[4 + FromBigEndian32(s)..])
  {
  }

  lemma RewriteStops(s: seq<Byte>)
    requires |s| < 4 || 4 + FromBigEndian32(s) > |s|
    ensures Rewrite(s) == []
  {
  }

  /** What the rewriting leaves unread. */
  function Unread(s: seq<Byte>): seq<Byte>
    decreases |s|
  {
    if |s| < 4 || 4 + FromBigEndian32(s) > |s| then s
    else Unread(s[4 + FromBigEndian32(s)..])
  }

  /** The Windows rewrite: samples that look like Annex-B already are split instead. */
  method AvccToAnnexB(avcc: seq<Byte>) returns (out: seq<seq<Byte>>)
    ensures out == if IsAnnexB(avcc) then Split(avcc) else Rewrite(avcc)
  {
    hide Rewrite, Split;
    if IsAnnexB(avcc) {
      out := AnnexBSplit(avcc);
      return;
    }
    out := [];
    var off := 0;
    assert avcc[0..] == avcc;
    while off + 4 <= |avcc|
      invariant off <= |avcc|
      invariant Rewrite(avcc) == out + Rewrite(avcc[off..])
      decreases |avcc| - off
    {
      ghost var s := avcc[off..];
      var n := FromBigEndian32(avcc[off..]);
      off := off + 4;
      if off + n > |avcc| {
        RewriteStops(s);
        return;
      }
      RewriteStep(s);
      assert s[4..4 + n] == avcc[off..off + n] && s[4 + n..] == avcc[off + n..];
      var nal := START_CODE;
      nal := nal + avcc[off..off + n];
      out := out + [nal];
      off := off + n;
    }
    RewriteStops(avcc[off..]);
  }

  // ---------------------------------------------------------------------------------------------
  // Losslessness
  // ---------------------------------------------------------------------------------------------

  ghost predicate Representable(nals: seq<seq<Byte>>) {
    forall i :: 0 <= i < |nals| ==> |nals[i]| < UINT32_LIMIT
  }

  function Encoded(nals: seq<seq<Byte>>): seq<Byte>
    requires Representable(nals)
  {
    if nals == [] then []
    else BigEndian32(|nals[0]|) + nals[0] + Encoded(nals[1..])
  }

  /** Shorter than a length field, or than the record its length field announces. */
  ghost predicate Truncated(tail: seq<Byte>) {
    |tail| < 4 || 4 + FromBigEndian32(tail) > |tail|
  }

  lemma EncodedParts(nals: seq<seq<Byte>>, tail: seq<Byte>)
    requires Representable(nals) && nals != []
    ensures Representable(nals[1..])
    ensures Encoded(nals) + tail
            == BigEndian32(|nals[0]|) + nals[0] + (Encoded(nals[1..]) + tail)
  {
    hide BigEndian32, Encoded;
    EncodedUnfold(nals);
    var header, rest := BigEndian32(|nals[0]|), Encoded(nals[1..]);
    assert header + nals[0] + rest + tail == header + nals[0] + (rest + tail);
  }

  lemma EncodedFirst(nals: seq<seq<Byte>>, tail: seq<Byte>)
    requires Representable(nals) && nals != []
    ensures Representable(nals[1..])
    ensures var s := Encoded(nals) + tail;
            var n := |nals[0]|;
            && |s| >= 4 + n && FromBigEndian32(s) == n
            && s[..4] == BigEndian32(n)
            && s[4..4 + n] == nals[0] && s[4 + n..] == Encoded(nals[1..]) + tail
  {
    hide BigEndian32, FromBigEndian32, Encoded;
    EncodedParts(nals, tail);
    RecordParts(BigEndian32(|nals[0]|), nals[0], Encoded(nals[1..]) + tail);
    BigEndian32RoundTrip(|nals[0]|);
    SameHeader(BigEndian32(|nals[0]|), Encoded(nals) + tail);
  }

  lemma EncodedUnfold(nals: seq<seq<Byte>>)
    requires Representable(nals) && nals != []
    ensures Representable(nals[1..])
    ensures Encoded(nals) == BigEndian32(|nals[0]|) + nals[0] + Encoded(nals[1..])
  {
  }

  lemma RecordParts(header: seq<Byte>, nal: seq<Byte>, rest: seq<Byte>)
    requires |header| == 4
    ensures var s := header + nal + rest;
            var n := |nal|;
            && |s| >= 4 + n && header <= s
            && s[..4] == header && s[4..4 + n] == nal && s[4 + n..] == rest
  {
  }

  lemma SameHeader(a: seq<Byte>, b: seq<Byte>)
    requires |a| == 4 && a <= b
    ensures FromBigEndian32(a) == FromBigEndian32(b)
  {
    assert forall i :: 0 <= i < 4 ==> a[i] == b[i];
  }

  lemma {:induction false} RewriteOfEncoded(nals: seq<seq<Byte>>, tail: seq<Byte>)
    requires Representable(nals) && Truncated(tail)
    ensures Rewrite(Encoded(nals) + tail) == Prefixed(nals)
    ensures Unread(Encoded(nals) + tail) == tail
    decreases |nals|
  {
    hide FromBigEndian32, BigEndian32;
    if nals == [] {
      assert Encoded(nals) + tail == tail;
    } else {
      EncodedFirst(nals, tail);
      RewriteOfEncoded(nals[1..], tail);
    }
  }

  /** The sniffer takes a length-prefixed sample for Annex-B exactly when its first length is 1
      or in 256..511. */
  lemma SniffedExactly(nals: seq<seq<Byte>>, tail: seq<Byte>)
    requires Representable(nals) && nals != []
    ensures IsAnnexB(Encoded(nals) + tail) <==> |nals[0]| == 1 || 256 <= |nals[0]| < 512
  {
    EncodedFirst(nals, tail);
    var s := Encoded(nals) + tail;
    var n := |nals[0]|;
    assert forall i :: 0 <= i < 4 ==> s[i] == s[..4][i];
    assert START_CODE <= s <==> s[0] == 0 && s[1] == 0 && s[2] == 0 && s[3] == 1;
    assert SHORT_START_CODE <= s <==> s[0] == 0 && s[1] == 0 && s[2] == 1;
  }

  /** Any NALs whose first is not of those lengths come out in order, each behind a start code,
      with only a truncated tail dropped; on macOS, which never sniffs, so do all. */
  lemma RewriteIsLossless(nals: seq<seq<Byte>>, tail: seq<Byte>)
    requires Representable(nals) && nals != [] && Truncated(tail)
    ensures Rewrite(Encoded(nals) + tail) == Prefixed(nals)
    ensures |Flatten(Rewrite(Encoded(nals) + tail))| + |tail| == |Encoded(nals) + tail|
    ensures |nals[0]| != 1 && !(256 <= |nals[0]| < 512) <==> !IsAnnexB(Encoded(nals) + tail)
  {
    RewriteOfEncoded(nals, tail);
    SniffedExactly(nals, tail);
    PrefixedBytes(nals);
  }

  lemma {:induction false} PrefixedBytes(nals: seq<seq<Byte>>)
    requires Representable(nals)
    ensures |Flatten(Prefixed(nals))| == |Encoded(nals)|
  {
    if nals == [] {
    } else {
      PrefixedBytes(nals[1..]);
    }
  }

  /** Every buffer is some encoded NALs and a truncated tail. */
  lemma {:induction false} EveryBufferParses(s: seq<Byte>) returns (nals: seq<seq<Byte>>)
    ensures Representable(nals) && Truncated(Unread(s))
    ensures s == Encoded(nals) + Unread(s)
    decreases |s|
  {
    hide FromBigEndian32, BigEndian32, Encoded, Representable;
    NothingEncoded();
    nals := [];
    if |s| >= 4 && 4 + FromBigEndian32(s) <= |s| {
      var n := FromBigEndian32(s);
      var rest := EveryBufferParses(s[4 + n..]);
      nals := [s[4..4 + n]] + rest;
      BigEndian32Unique(s);
      EncodedCons(s[4..4 + n], rest);
      Reassemble(s, n, Encoded(rest), Unread(s));
    }
  }

  lemma NothingEncoded()
    ensures Representable([]) && Encoded([]) == []
  {
  }

  lemma Reassemble(s: seq<Byte>, n: nat, rest: seq<Byte>, tail: seq<Byte>)
    requires 4 + n <= |s| && s[4 + n..] == rest + tail
    ensures s == s[..4] + s[4..4 + n] + rest + tail
  {
    assert s == s[..4] + s[4..4 + n] + s[4 + n..];
    assert s[..4] + s[4..4 + n] + (rest + tail) == s[..4] + s[4..4 + n] + rest + tail;
  }

  lemma EncodedCons(nal: seq<Byte>, rest: seq<seq<Byte>>)
    requires |nal| < UINT32_LIMIT && Representable(rest)
    ensures Representable([nal] + rest)
    ensures Encoded([nal] + rest) == BigEndian32(|nal|) + nal + Encoded(rest)
  {
    assert ([nal] + rest)[1..] == rest;
  }

  // ---------------------------------------------------------------------------------------------
  // When the sniffer is wrong
  // ---------------------------------------------------------------------------------------------

  /** The Windows output as a function of the sample. */
  function Rewritten(avcc: seq<Byte>): seq<seq<Byte>> {
    if IsAnnexB(avcc) then Split(avcc) else Rewrite(avcc)
  }

  /** A NAL read from `s` is all of it, or at least a start code shorter. */
  lemma {:induction false} NalsLeaveRoomForCodes(cur: seq<Byte>, s: seq<Byte>)
    ensures forall o :: o in NalsFrom(cur, s) ==>
              |o| == 4 + |cur| + |s| || |o| + 3 <= 4 + |cur| + |s|
    decreases |s|
  {
    hide CodeLen;
    if |s| >= 3 {
      if CodeLen(s) > 0 {
        CodeLenBytes(s);
        NalsLeaveRoomForCodes([], s[CodeLen(s)..]);
      } else {
        NalsLeaveRoomForCodes(cur + [s[0]], s[1..]);
      }
    }
  }

  /** A sample of one NAL is rewritten faithfully exactly when its length is not in 256..511:
      then the low length byte is taken for the NAL's first. */
  lemma SingleNalExactly(nal: seq<Byte>)
    requires |nal| < UINT32_LIMIT
    ensures Rewritten(Encoded([nal])) == Prefixed([nal]) <==> !(256 <= |nal| < 512)
  {
    hide CodeLen, NalsFrom, Rewrite;
    var s := Encoded([nal]);
    assert s + [] == s;
    SniffedExactly([nal], []);
    RewriteOfEncoded([nal], []);
    EncodedFirst([nal], []);
    assert s == s[..4] + nal by { assert s[4..4 + |nal|] == s[4..]; }
    assert forall i :: 0 <= i < 4 ==> s[i] == BigEndian32(|nal|)[i];
    CodeLenBytes(s);
    if 256 <= |nal| < 512 {
      var t := s[3..];
      assert Split(s) == NalsFrom([], t);
      NalsLeaveRoomForCodes([], t);
      assert |t| == |nal| + 1;
      assert START_CODE + nal in Prefixed([nal]);
    } else if |nal| == 1 {
      SingletonsSurvive([nal]);
    }
  }

  ghost predicate Singletons(nals: seq<seq<Byte>>) {
    forall i :: 0 <= i < |nals| ==> |nals[i]| == 1
  }

  /** The length 1 is itself a start code. */
  lemma {:induction false} SingletonsArePrefixed(nals: seq<seq<Byte>>)
    requires Representable(nals) && Singletons(nals)
    ensures Encoded(nals) == Flatten(Prefixed(nals))
  {
    hide BigEndian32;
    if nals == [] {
    } else {
      SingletonsArePrefixed(nals[1..]);
      assert BigEndian32(1) == START_CODE;
    }
  }

  /** A sample of one-byte NALs is sniffed and still rewritten faithfully. */
  lemma SingletonsSurvive(nals: seq<seq<Byte>>)
    requires Representable(nals) && Singletons(nals)
    ensures Rewritten(Encoded(nals)) == Prefixed(nals)
  {
    hide Encoded, Split;
    if nals == [] {
      NothingEncoded();
    } else {
      assert Encoded(nals) + [] == Encoded(nals);
      SniffedExactly(nals, []);
      SingletonsArePrefixed(nals);
      SplitUndoesPrefixExactly(nals);
    }
  }

  // ---------------------------------------------------------------------------------------------
  // Stamping
  // ---------------------------------------------------------------------------------------------

  function Shift(us: int, bytes: nat): int
    decreases bytes
  {
    if bytes == 0 then us else Shift(us / 256, bytes - 1)
  }

  lemma {:induction false} BigEndianBytesAt(us: int, k: nat, i: nat)
    requires i < k
    ensures BigEndianBytes(us, k)[i] == Shift(us, k - 1 - i) % 256
    decreases k
  {
    if i < k - 1 {
      BigEndianBytesAt(us / 256, k - 1, i);
    }
  }

  /** The timestamp read back from the first `k` bytes as a signed number. */
  function FromBigEndian(s: seq<Byte>): nat {
    if s == [] then 0 else FromBigEndian(s[..|s| - 1]) * 256 + s[|s| - 1]
  }

  function Signed64(v: nat): int {
    if v < 0x8000_0000_0000_0000 then v else v - 0x1_0000_0000_0000_0000
  }

  function Power256(k: nat): (p: nat)
    ensures p > 0
  {
    if k == 0 then 1 else 256 * Power256(k - 1)
  }

  lemma {:induction false} BigEndianReadsBack(us: int, k: nat) returns (q: int)
    ensures us == FromBigEndian(BigEndianBytes(us, k)) + q * Power256(k)
    ensures FromBigEndian(BigEndianBytes(us, k)) < Power256(k)
    decreases k
  {
    if k == 0 {
      q := us;
    } else {
      var s := BigEndianBytes(us, k);
      assert s[..k - 1] == BigEndianBytes(us / 256, k - 1);
      q := BigEndianReadsBack(us / 256, k - 1);
      Scale(q, Power256(k - 1));
    }
  }

  lemma Scale(q: int, p: int)
    ensures q * (256 * p) == 256 * (q * p)
  {
  }

  /** Every signed 64-bit timestamp is recovered from its stamp. */
  lemma StampReadsBack(us: int)
    requires -0x8000_0000_0000_0000 <= us < 0x8000_0000_0000_0000
    ensures Signed64(FromBigEndian(BigEndianBytes(us, 8))) == us
  {
    hide BigEndianBytes, FromBigEndian;
    var q := BigEndianReadsBack(us, 8);
    assert Power256(4) == 0x1_0000_0000;
    assert Power256(8) == 0x1_0000_0000_0000_0000;
  }

  /** Windows: every NAL of a sample behind the same 8-byte stamp. */
  method SampleToAnnexB(sample: seq<Byte>, wallUs: int) returns (out: seq<seq<Byte>>)
    ensures |out| == |Rewritten(sample)|
    ensures forall i :: 0 <= i < |out| ==>
              out[i] == BigEndianBytes(wallUs, 8) + Rewritten(sample)[i]
  {
    var prefix := BigEndianBytes(wallUs, 8);
    var nals := AvccToAnnexB(sample);
    out := [];
    for i := 0 to |nals|
      invariant |out| == i
      invariant forall j :: 0 <= j < i ==> out[j] == prefix + nals[j]
    {
      out := out + [prefix + nals[i]];
    }
  }

  /** macOS: one chunk behind its 8-byte stamp, written byte by byte. */
  method EmitAnnexBChunk(data: seq<Byte>, wallUs: int) returns (stamped: array<Byte>)
    ensures fresh(stamped) && stamped[..] == BigEndianBytes(wallUs, 8) + data
  {
    stamped := new Byte[8 + |data|];
    for i := 0 to 8
      invariant forall j :: 0 <= j < i ==> stamped[j] == BigEndianBytes(wallUs, 8)[j]
    {
      BigEndianBytesAt(wallUs, 8, i);
      stamped[i] := Shift(wallUs, 7 - i) % 256;
    }
    for i := 0 to |data|
      invariant forall j :: 0 <= j < 8 ==> stamped[j] == BigEndianBytes(wallUs, 8)[j]
      invariant forall j :: 0 <= j < i ==> stamped[8 + j] == data[j]
    {
      stamped[8 + i] := data[i];
    }
  }

  method AnnexBNal(body: seq<Byte>) returns (nal: array<Byte>)
    ensures fresh(nal) && nal[..] == START_CODE + body
  {
    nal := new Byte[4 + |body|];
    nal[0], nal[1], nal[2], nal[3] := 0, 0, 0, 1;
    for i := 0 to |body|
      invariant nal[..4] == START_CODE
      invariant forall j :: 0 <= j < i ==> nal[4 + j] == body[j]
    {
      nal[4 + i] := body[i];
    }
    assert nal[..] == nal[..4] + body;
  }

  /** macOS: the parameter sets of a keyframe's format description, glued together. */
  method ParameterSetPrefix(sets: seq<seq<Byte>>) returns (prefix: seq<Byte>)
    ensures prefix == Flatten(Prefixed(sets))
    ensures prefix == [] <==> sets == []
  {
    hide Flatten, Prefixed;
    prefix := [];
    assert sets[0..] == sets;
    for i := 0 to |sets|
      invariant Flatten(Prefixed(sets)) == prefix + Flatten(Prefixed(sets[i..]))
      invariant prefix == [] <==> i == 0
    {
      GluedStep(sets[i..]);
      assert sets[i..][1..] == sets[i + 1..];
      prefix := prefix + START_CODE;
      prefix := prefix + sets[i];
    }
    NothingGlued();
    assert sets[|sets|..] == [];
  }

  lemma GluedStep(sets: seq<seq<Byte>>)
    requires sets != []
    ensures Flatten(Prefixed(sets)) == START_CODE + (sets[0] + Flatten(Prefixed(sets[1..])))
  {
  }

  lemma NothingGlued()
    ensures Flatten(Prefixed([])) == []
  {
  }

  /** The chunks of a macOS sample: the parameter sets of a keyframe in one, then every NAL. */
  function MacChunks(sets: seq<seq<Byte>>, bytes: seq<Byte>): seq<seq<Byte>> {
    (if sets == [] then [] else [Flatten(Prefixed(sets))]) + Rewrite(bytes)
  }

  /** macOS: no sniffing, and the clock read anew for each chunk. `sets` is empty unless the sample
      is a keyframe. */
  method HandleEncoded(sets: seq<seq<Byte>>, bytes: seq<Byte>, clock: nat -> int)
    returns (out: seq<seq<Byte>>)
    ensures var chunks := MacChunks(sets, bytes);
            |out| == |chunks|
            && forall i :: 0 <= i < |out| ==> out[i] == BigEndianBytes(clock(i), 8) + chunks[i]
  {
    hide Rewrite, BigEndianBytes, Flatten, Prefixed;
    ghost var chunks := MacChunks(sets, bytes);
    ghost var done := if sets == [] then [] else [Flatten(Prefixed(sets))];
    var prefix := ParameterSetPrefix(sets);
    out := [];
    var offset := 0;
    if prefix != [] {
      var chunk := EmitAnnexBChunk(prefix, clock(0));
      out := out + [chunk[..]];
    }
    assert bytes[0..] == bytes;
    while offset + 4 <= |bytes|
      invariant offset <= |bytes|
      invariant chunks == done + Rewrite(bytes[offset..])
      invariant |out| == |done|
      invariant forall i :: 0 <= i < |out| ==> out[i] == BigEndianBytes(clock(i), 8) + done[i]
      decreases |bytes| - offset
    {
      ghost var s := bytes[offset..];
      var len := bytes[offset] as int * 0x100_0000 + bytes[offset + 1] as int * 0x1_0000
                 + bytes[offset + 2] as int * 256 + bytes[offset + 3] as int;
      assert len == FromBigEndian32(s);
      offset := offset + 4;
      if offset + len > |bytes| {
        RewriteStops(s);
        assert chunks == done;
        break;
      }
      RewriteStep(s);
      assert s[4..4 + len] == bytes[offset..offset + len] && s[4 + len..] == bytes[offset + len..];
      var nal := AnnexBNal(bytes[offset..offset + len]);
      var chunk := EmitAnnexBChunk(nal[..], clock(|out|));
      out := out + [chunk[..]];
      done := done + [nal[..]];
      offset := offset + len;
    }
    if chunks != done {
      RewriteStops(bytes[offset..]);
    }
  }
}
