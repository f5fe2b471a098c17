/** What the relay makes of the frames the capturers emit. */
module CaptureToRelay {
  import opened Bytes
  import opened AnnexB
  import opened Avcc
  import opened NalKinds
  import opened WarmupWindows
  import opened WarmupHistory

  /** A NAL behind its start code and an 8-byte stamp. */
  function Stamped(wallUs: int, nal: seq<Byte>): Frame {
    BigEndianBytes(wallUs, 8) + (START_CODE + nal)
  }

  /** Behind any 8-byte stamp and either start code, a NAL is classified by its own header byte. */
  lemma FramedNalClassified(stamp: seq<Byte>, long: bool, nal: seq<Byte>, known: Option<Codec>)
    requires |stamp| == 8
    ensures nal != [] ==>
              ClassifyNal(stamp + (Code(long) + nal), known) == ClassifyHeader(nal[0], known)
    ensures nal == [] ==> ClassifyNal(stamp + (Code(long) + nal), known) == Unknown
  {
    hide ClassifyHeader;
    var body := Code(long) + nal;
    assert (stamp + body)[8..] == body;
    assert Code(long) <= body;
    assert !long && nal != [] ==> body[2] == 1;
  }

  /** A frame with no start code behind its stamp, or too short for one, is unknown. */
  lemma UnframedIsUnknown(frame: Frame, known: Option<Codec>)
    requires |frame| <= 8 || !IsAnnexB(frame[8..])
    ensures ClassifyNal(frame, known) == Unknown
  {
  }

  /** A non-empty stamped NAL is classified by its own header byte, whatever the timestamp, and
      is never unknown once the codec is. */
  lemma StampedNalClassified(wallUs: int, nal: seq<Byte>, known: Option<Codec>)
    ensures nal != [] ==> ClassifyNal(Stamped(wallUs, nal), known) == ClassifyHeader(nal[0], known)
    ensures nal != [] && known.Some? ==> !ClassifyNal(Stamped(wallUs, nal), known).Unknown?
    ensures nal == [] ==> ClassifyNal(Stamped(wallUs, nal), known) == Unknown
  {
    hide BigEndianBytes, ClassifyNal;
    FramedNalClassified(BigEndianBytes(wallUs, 8), true, nal, known);
  }

  /** So a room locked to `c` takes a NAL for a parameter set, a keyframe or a delta by its header
      byte alone. */
  lemma StampedNalKind(wallUs: int, nal: seq<Byte>, c: Codec)
    requires nal != []
    ensures var kind := ClassifyNal(Stamped(wallUs, nal), Some(c));
            && (kind.ParamSet? <==> IsParamSetHeader(c, nal[0]))
            && (kind.ParamSet? ==> kind == ParamSet(c, TypeOf(c, nal[0])))
            && (kind.Keyframe? <==> IsKeyframeHeader(c, nal[0]))
            && (kind.Delta? <==> !IsParamSetHeader(c, nal[0]) && !IsKeyframeHeader(c, nal[0]))
  {
    hide ClassifyNal, ClassifyHeader, IsParamSetHeader, IsKeyframeHeader;
    StampedNalClassified(wallUs, nal, Some(c));
    HeaderKinds(nal[0], c);
  }

  lemma {:induction false} RewriteIsFramed(s: seq<Byte>)
    ensures AllFramed(Rewrite(s))
    decreases |s|
  {
    hide FromBigEndian32;
    if |s| >= 4 && 4 + FromBigEndian32(s) <= |s| {
      RewriteIsFramed(s[4 + FromBigEndian32(s)..]);
    }
  }

  /** Every sample, sniffed or not: chunk `i` the Windows capturer emits is a stamped NAL, and the
      relay classifies it by that NAL's header byte. */
  lemma SampleClassified(sample: seq<Byte>, wallUs: int, i: nat, known: Option<Codec>)
    requires i < |Rewritten(sample)|
    ensures var nal := Rewritten(sample)[i];
            && |nal| >= 4
            && BigEndianBytes(wallUs, 8) + nal == Stamped(wallUs, nal[4..])
            && (|nal| > 4 ==>
                  ClassifyNal(BigEndianBytes(wallUs, 8) + nal, known) == ClassifyHeader(nal[4], known))
            && (|nal| > 4 && known.Some? ==>
                  !ClassifyNal(BigEndianBytes(wallUs, 8) + nal, known).Unknown?)
  {
    hide Rewrite, Split, ClassifyNal, BigEndianBytes, ClassifyHeader;
    RewriteIsFramed(sample);
    SplitIsCodeFree(sample);
    var nal := Rewritten(sample)[i];
    assert nal in Rewritten(sample);
    assert nal == START_CODE + nal[4..];
    StampedNalClassified(wallUs, nal[4..], known);
  }

  // ---------------------------------------------------------------------------------------------
  // Locking the room to the publisher's codec
  // ---------------------------------------------------------------------------------------------

  lemma ParamSetHeaderLocks(c: Codec, first: Byte)
    requires IsParamSetHeader(c, first)
    ensures ClassifyHeader(first, None).ParamSet? && ClassifyHeader(first, None).codec == c
  {
    hide ClassifyHeader;
    HeaderKinds(first, c);
    assert first % 128 % 32 == first % 32;
  }

  function StampedAll(wall: seq<int>, nals: seq<seq<Byte>>): (h: seq<Frame>)
    requires |wall| == |nals|
    ensures |h| == |nals|
  {
    seq(|nals|, i requires 0 <= i < |nals| => Stamped(wall[i], nals[i]))
  }

  lemma FirstFrameLocks(h: seq<Frame>, c: Codec, i: nat)
    requires h != [] && 0 < i <= |h|
    requires ClassifyNal(h[0], None).ParamSet? && ClassifyNal(h[0], None).codec == c
    ensures LockedCodec(h[..i]) == Some(c)
  {
    hide ClassifyNal;
    assert h[..i][0] == h[0];
  }

  /** A session whose first NAL is a parameter set of codec `c` locks the room to `c`, and every
      later NAL is classified as that codec classifies its header byte. */
  lemma SessionLocksItsCodec(wall: seq<int>, nals: seq<seq<Byte>>, c: Codec, i: nat)
    requires |wall| == |nals| && 0 < i < |nals|
    requires nals[0] != [] && IsParamSetHeader(c, nals[0][0])
    ensures WindowAfter(StampedAll(wall, nals)).codec == Some(c)
    ensures nals[i] != [] ==>
              KindAt(StampedAll(wall, nals), i) == ClassifyHeader(nals[i][0], Some(c))
    ensures nals[i] != [] ==> !KindAt(StampedAll(wall, nals), i).Unknown?
  {
    hide ClassifyNal, ClassifyHeader, WindowAfter;
    var h := StampedAll(wall, nals);
    StampedNalClassified(wall[0], nals[0], None);
    ParamSetHeaderLocks(c, nals[0][0]);
    FirstFrameLocks(h, c, |h|);
    FirstFrameLocks(h, c, i);
    assert h[..|h|] == h;
    CodecRefinesHistory(h);
    StampedNalClassified(wall[i], nals[i], Some(c));
  }

  // ---------------------------------------------------------------------------------------------
  // What a session leaves for joining viewers
  // ---------------------------------------------------------------------------------------------

  /** NAL `k` is the last random access point of the session. */
  ghost predicate LastRandomAccess(nals: seq<seq<Byte>>, c: Codec, k: nat) {
    && k < |nals| && nals[k] != [] && IsKeyframeHeader(c, nals[k][0])
    && forall j :: k < j < |nals| && nals[j] != [] ==> !IsKeyframeHeader(c, nals[j][0])
  }

  /** The bytes, stamps and start codes included, of the NALs from `from` on that are not parameter
      sets. */
  function TailBytes(nals: seq<seq<Byte>>, c: Codec, from: nat): nat {
    if |nals| <= from then 0
    else
      var last := nals[|nals| - 1];
      TailBytes(nals[..|nals| - 1], c, from)
      + if last != [] && IsParamSetHeader(c, last[0]) then 0 else 12 + |last|
  }

  lemma SessionKinds(wall: seq<int>, nals: seq<seq<Byte>>, c: Codec, i: nat)
    requires |wall| == |nals| && i < |nals| && nals[0] != [] && IsParamSetHeader(c, nals[0][0])
    ensures KindAt(StampedAll(wall, nals), i).Keyframe? <==>
            nals[i] != [] && IsKeyframeHeader(c, nals[i][0])
    ensures KindAt(StampedAll(wall, nals), i).ParamSet? <==>
            nals[i] != [] && IsParamSetHeader(c, nals[i][0])
  {
    hide ClassifyNal, ClassifyHeader;
    var h := StampedAll(wall, nals);
    StampedNalClassified(wall[0], nals[0], None);
    ParamSetHeaderLocks(c, nals[0][0]);
    StampedNalClassified(wall[i], nals[i], Some(c));
    if nals[i] != [] {
      StampedNalKind(wall[i], nals[i], c);
    }
    if i == 0 {
      assert h[..0] == [];
    } else {
      FirstFrameLocks(h, c, i);
    }
  }

  lemma {:induction false} SessionTailBytes(wall: seq<int>, nals: seq<seq<Byte>>, c: Codec, from: nat)
    requires |wall| == |nals| && nals != [] && nals[0] != [] && IsParamSetHeader(c, nals[0][0])
    ensures TotalBytes(NonParamSets(StampedAll(wall, nals), from)) == TailBytes(nals, c, from)
    decreases |nals|
  {
    hide ClassifyNal, KindAt, IsParamSetHeader, IsKeyframeHeader, TotalBytes, BigEndianBytes;
    var h, n := StampedAll(wall, nals), |nals| - 1;
    NoBytes();
    if |nals| <= from {
    } else {
      if n == 0 {
        NothingBefore(h, from);
        assert nals[..0] == [];
      } else {
        SessionTailBytes(wall[..n], nals[..n], c, from);
        assert h[..n] == StampedAll(wall[..n], nals[..n]);
      }
      SessionKinds(wall, nals, c, n);
      TotalBytesSnoc(NonParamSets(h[..n], from), h[n]);
      assert NonParamSets(h[..n], from) + [] == NonParamSets(h[..n], from);
    }
  }

  lemma NoBytes()
    ensures TotalBytes([]) == 0
  {
  }

  lemma NothingBefore(h: seq<Frame>, from: nat)
    ensures NonParamSets(h[..0], from) == []
  {
  }

  /** A viewer that joins a session of codec `c` is replayed something exactly when the last random
      access point fits in 8 MiB and what is not a parameter set since fits in 16 MiB. */
  lemma SessionSnapshotExactly(wall: seq<int>, nals: seq<seq<Byte>>, c: Codec)
    requires |wall| == |nals| && nals != [] && nals[0] != [] && IsParamSetHeader(c, nals[0][0])
    ensures Snapshot(WindowAfter(StampedAll(wall, nals))) != [] <==>
            exists k: nat :: LastRandomAccess(nals, c, k)
                             && 12 + |nals[k]| <= 8_388_608
                             && TailBytes(nals, c, k + 1) <= 16_777_216
  {
    hide KindAt, IsParamSetHeader, IsKeyframeHeader, NonParamSets, TailBytes, WindowAfter, Snapshot,
         TotalBytes, LatestParamSets, BigEndianBytes;
    var h := StampedAll(wall, nals);
    SnapshotRefinesHistory(h);
    forall k: nat
      ensures IsAnchor(h, k) <==> LastRandomAccess(nals, c, k)
                                  && 12 + |nals[k]| <= 8_388_608
                                  && TailBytes(nals, c, k + 1) <= 16_777_216
    {
      SessionTailBytes(wall, nals, c, k + 1);
      forall j | 0 <= j < |h|
        ensures KindAt(h, j).Keyframe? <==> nals[j] != [] && IsKeyframeHeader(c, nals[j][0])
      {
        SessionKinds(wall, nals, c, j);
      }
    }
  }

  /** The room locks to `c` exactly when the first NAL that looks like a parameter set of either
      codec looks like one of `c`. */
  lemma {:induction false} LocksExactly(h: seq<Frame>, c: Codec)
    ensures WindowAfter(h).codec == Some(c) <==>
            exists i :: 0 <= i < |h| && ClassifyNal(h[i], None).ParamSet?
                        && ClassifyNal(h[i], None).codec == c
                        && forall j :: 0 <= j < i ==> !ClassifyNal(h[j], None).ParamSet?
  {
    hide ClassifyNal, WindowAfter;
    CodecRefinesHistory(h);
    FirstParamSet(h);
  }

  lemma {:induction false} FirstParamSet(h: seq<Frame>)
    ensures forall i :: 0 <= i < |h| && ClassifyNal(h[i], None).ParamSet?
                        && (forall j :: 0 <= j < i ==> !ClassifyNal(h[j], None).ParamSet?) ==>
              LockedCodec(h) == Some(ClassifyNal(h[i], None).codec)
    ensures LockedCodec(h).Some? ==>
              exists i :: 0 <= i < |h| && ClassifyNal(h[i], None).ParamSet?
                          && LockedCodec(h) == Some(ClassifyNal(h[i], None).codec)
                          && forall j :: 0 <= j < i ==> !ClassifyNal(h[j], None).ParamSet?
  {
    hide ClassifyNal;
    if h != [] && !ClassifyNal(h[0], None).ParamSet? {
      var rest := h[1..];
      FirstParamSet(rest);
      forall i | 0 <= i < |h| && ClassifyNal(h[i], None).ParamSet?
                 && (forall j :: 0 <= j < i ==> !ClassifyNal(h[j], None).ParamSet?)
        ensures LockedCodec(h) == Some(ClassifyNal(h[i], None).codec)
      {
        assert rest[i - 1] == h[i];
        assert forall j :: 0 <= j < i - 1 ==> rest[j] == h[j + 1];
      }
      if LockedCodec(h).Some? {
        var i :| 0 <= i < |rest| && ClassifyNal(rest[i], None).ParamSet?
                 && LockedCodec(rest) == Some(ClassifyNal(rest[i], None).codec)
                 && forall j :: 0 <= j < i ==> !ClassifyNal(rest[j], None).ParamSet?;
        assert h[i + 1] == rest[i];
        forall j | 0 <= j < i + 1 ensures !ClassifyNal(h[j], None).ParamSet? {
          assert j > 0 ==> h[j] == rest[j - 1];
        }
      }
    }
  }

  /** Joining an H.264 session at a slice (header byte 0x41) locks the room to HEVC, and the
      parameter sets that follow are then deltas. */
  lemma SliceFirstLocksWrongCodec(wall: seq<int>, slice: seq<Byte>, sps: seq<Byte>)
    requires |wall| == 2 && slice != [] && slice[0] == 0x41 && sps != [] && sps[0] == 0x67
    ensures H264Type(0x41) == 1 && IsParamSetHeader(H264, 0x67)
    ensures WindowAfter(StampedAll(wall, [slice, sps])).codec == Some(Hevc)
    ensures KindAt(StampedAll(wall, [slice, sps]), 1) == Delta
  {
    SessionLocksItsCodec(wall, [slice, sps], Hevc, 1);
  }

  // ---------------------------------------------------------------------------------------------
  // Parameter sets glued into one chunk
  // ---------------------------------------------------------------------------------------------

  ghost predicate HevcSets(sets: seq<seq<Byte>>) {
    forall i :: 0 <= i < |sets| ==> sets[i] != [] && IsParamSetHeader(Hevc, sets[i][0])
  }

  /** What the macOS capturer emits first for a keyframe with parameter sets. */
  function GluedChunk(wallUs: int, sets: seq<seq<Byte>>, bytes: seq<Byte>): Frame
    requires sets != []
  {
    BigEndianBytes(wallUs, 8) + MacChunks(sets, bytes)[0]
  }

  /** Whatever the sets, and whatever the room holds unless it is locked to H.264, the relay files
      all of them together under the first one's type and changes nothing else; locked to H.264 it
      files none. */
  lemma GluedSetsShareOneSlot(w: Window, wallUs: int, sets: seq<seq<Byte>>, bytes: seq<Byte>)
    requires sets != [] && HevcSets(sets)
    ensures var chunk := GluedChunk(wallUs, sets, bytes);
            && (w.codec != Some(H264) ==>
                  Recorded(w, chunk)
                  == w.(codec := Some(Hevc),
                        paramSets := w.paramSets[TypeOf(Hevc, sets[0][0]) := chunk]))
            && (w.codec == Some(H264) ==> Recorded(w, chunk).paramSets == w.paramSets)
  {
    hide BigEndianBytes, ClassifyNal, ClassifyHeader, IsParamSetHeader, Rewrite, Prefixed, TypeOf;
    var glued := sets[0] + Flatten(Prefixed(sets[1..]));
    GluedStep(sets);
    assert GluedChunk(wallUs, sets, bytes) == Stamped(wallUs, glued);
    assert glued[0] == sets[0][0];
    StampedNalClassified(wallUs, glued, w.codec);
    assert w.codec.Some? ==> w.codec.value.Hevc? || w.codec.value.H264?;
    HeaderKinds(glued[0], Hevc);
    HeaderKinds(glued[0], H264);
    HevcSetIsNoH264Set(glued[0]);
  }

  lemma HevcSetIsNoH264Set(first: Byte)
    requires IsParamSetHeader(Hevc, first)
    ensures !IsParamSetHeader(H264, first)
  {
    assert first % 128 % 32 == first % 32;
  }

  /** So a room that had none of the types ends with each set under its own type exactly when all
      are of the first one's type: never with a VPS, an SPS and a PPS. */
  lemma GluedSetsKeepTypesExactly(w: Window, wallUs: int, sets: seq<seq<Byte>>, bytes: seq<Byte>)
    requires sets != [] && HevcSets(sets) && w.codec != Some(H264)
    ensures var after := Recorded(w, GluedChunk(wallUs, sets, bytes)).paramSets;
            && (forall i :: 0 <= i < |sets| ==>
                  (TypeOf(Hevc, sets[i][0]) in after <==>
                     || TypeOf(Hevc, sets[i][0]) == TypeOf(Hevc, sets[0][0])
                     || TypeOf(Hevc, sets[i][0]) in w.paramSets))
            && (w.paramSets == map[] ==>
                  ((forall i :: 0 <= i < |sets| ==> TypeOf(Hevc, sets[i][0]) in after) <==>
                   forall i :: 0 <= i < |sets| ==> TypeOf(Hevc, sets[i][0]) == TypeOf(Hevc, sets[0][0])))
  {
    hide Recorded, GluedChunk;
    GluedSetsShareOneSlot(w, wallUs, sets, bytes);
  }

  /** A viewer that splits the chunk behind its stamp gets every set back, in order, exactly when
      no set is empty or holds a start code. */
  lemma GluedSetsComeApartExactly(wallUs: int, sets: seq<seq<Byte>>, bytes: seq<Byte>)
    requires sets != []
    ensures Split(GluedChunk(wallUs, sets, bytes)[NAL_TIMESTAMP_PREFIX..]) == Prefixed(sets) <==>
            forall i :: 0 <= i < |sets| ==> sets[i] != [] && CodeFree(sets[i])
  {
    hide BigEndianBytes, Split, CodeFree;
    SplitUndoesPrefixExactly(sets);
    assert GluedChunk(wallUs, sets, bytes)[8..] == Flatten(Prefixed(sets));
  }
}
