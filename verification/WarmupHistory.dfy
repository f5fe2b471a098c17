/** The incremental cache against the whole frame history: refinement, replay and joining. */
module WarmupHistory {
  import opened Bytes
  import opened NalKinds
  import opened WarmupWindows

  // ---------------------------------------------------------------------------------------------
  // Runs of `record`
  // ---------------------------------------------------------------------------------------------

  function Replay(w: Window, frames: seq<Frame>): Window {
    if frames == [] then w
    else Recorded(Replay(w, frames[..|frames| - 1]), frames[|frames| - 1])
  }

  /** The room's window once exactly the frames of `h` have been recorded. */
  function WindowAfter(h: seq<Frame>): Window {
    Replay(EMPTY, h)
  }

  lemma {:induction false} ReplayAppend(w: Window, a: seq<Frame>, b: seq<Frame>)
    ensures Replay(w, a + b) == Replay(Replay(w, a), b)
  {
    hide Recorded;
    if b == [] {
      assert a + b == a;
    } else {
      ReplayAppend(w, a, b[..|b| - 1]);
      assert (a + b)[..|a + b| - 1] == a + b[..|b| - 1];
    }
  }

  /** Over all runs: the byte counters are the sums of the stored lengths and stay within the
      caps, at most one keyframe, no keyframe no deltas, keys of the locked codec only, and a
      locked codec never changes. */
  lemma {:induction false} InvariantOverRuns(w: Window, frames: seq<Frame>)
    requires WindowInv(w)
    ensures WindowInv(Replay(w, frames))
    ensures w.codec.Some? ==> Replay(w, frames).codec == w.codec
  {
    hide Recorded, WindowInv;
    if frames == [] {
    } else {
      InvariantOverRuns(w, frames[..|frames| - 1]);
      RecordKeepsInvariant(Replay(w, frames[..|frames| - 1]), frames[|frames| - 1]);
    }
  }

  lemma ReachableInvariant(h: seq<Frame>)
    ensures WindowInv(WindowAfter(h))
  {
    assert WindowInv(EMPTY);
    InvariantOverRuns(EMPTY, h);
  }

  // ---------------------------------------------------------------------------------------------
  // The declarative reading of a history
  // ---------------------------------------------------------------------------------------------

  /** The codec of the first frame that discovery mode takes for a parameter set. */
  function LockedCodec(h: seq<Frame>): Option<Codec> {
    if h == [] then None else
    match ClassifyNal(h[0], None)
    case ParamSet(c, _) => Some(c)
    case _ => LockedCodec(h[1..])
  }

  /** The kind frame `i` has, given everything that came before it. */
  function KindAt(h: seq<Frame>, i: nat): NalKind
    requires i < |h|
  {
    ClassifyNal(h[i], LockedCodec(h[..i]))
  }

  ghost predicate IsLastKeyframe(h: seq<Frame>, k: nat) {
    && k < |h|
    && KindAt(h, k).Keyframe?
    && forall j :: k < j < |h| ==> !KindAt(h, j).Keyframe?
  }

  /** The frames from index `from` on that are not parameter sets, in order. */
  function NonParamSets(h: seq<Frame>, from: nat): seq<Frame> {
    if |h| <= from then []
    else
      NonParamSets(h[..|h| - 1], from)
      + if KindAt(h, |h| - 1).ParamSet? then [] else [h[|h| - 1]]
  }

  /** The last frame of parameter-set type `t`. */
  function LatestOfType(h: seq<Frame>, t: Byte): Option<Frame> {
    if h == [] then None
    else if KindAt(h, |h| - 1).ParamSet? && KindAt(h, |h| - 1).nalType == t then Some(h[|h| - 1])
    else LatestOfType(h[..|h| - 1], t)
  }

  /** The latest frame of every type from `t` on, by ascending type. */
  function LatestParamSets(h: seq<Frame>, t: nat): seq<Frame>
    requires t <= 256
    decreases 256 - t
  {
    if t == 256 then []
    else
      (match LatestOfType(h, t) case Some(f) => [f] case None => [])
      + LatestParamSets(h, t + 1)
  }

  /** Keyframe `k` is what the room should replay from. */
  ghost predicate IsAnchor(h: seq<Frame>, k: nat) {
    && IsLastKeyframe(h, k)
    && |h[k]| <= WARMUP_KEY_MAX_BYTES
    && TotalBytes(NonParamSets(h, k + 1)) <= WARMUP_DELTA_MAX_BYTES
  }

  // ---------------------------------------------------------------------------------------------
  // The window refines the history
  // ---------------------------------------------------------------------------------------------

  lemma {:induction false} LockedCodecSnoc(h: seq<Frame>, f: Frame)
    ensures LockedCodec(h + [f]) ==
            if LockedCodec(h).Some? then LockedCodec(h)
            else if ClassifyNal(f, None).ParamSet? then Some(ClassifyNal(f, None).codec)
            else None
  {
    hide ClassifyNal;
    if h == [] {
      assert (h + [f])[1..] == [];
    } else {
      assert (h + [f])[0] == h[0] && (h + [f])[1..] == h[1..] + [f];
      LockedCodecSnoc(h[1..], f);
    }
  }

  /** The room is locked to the codec of the first parameter set seen, for good. */
  lemma {:induction false} CodecRefinesHistory(h: seq<Frame>)
    ensures WindowAfter(h).codec == LockedCodec(h)
  {
    hide ClassifyNal;
    if h == [] {
    } else {
      var front, f := h[..|h| - 1], h[|h| - 1];
      CodecRefinesHistory(front);
      assert h == front + [f];
      LockedCodecSnoc(front, f);
      KindsByCodec(f, if LockedCodec(front).Some? then LockedCodec(front).value else Hevc);
    }
  }

  lemma {:induction false} ParamSetsRefineHistory(h: seq<Frame>, t: Byte)
    ensures t in WindowAfter(h).paramSets <==> LatestOfType(h, t).Some?
    ensures t in WindowAfter(h).paramSets ==> LatestOfType(h, t) == Some(WindowAfter(h).paramSets[t])
  {
    hide ClassifyNal;
    if h == [] {
    } else {
      ParamSetsRefineHistory(h[..|h| - 1], t);
      CodecRefinesHistory(h[..|h| - 1]);
    }
  }

  lemma {:induction false} ParamSetListRefinesHistory(h: seq<Frame>, t: nat)
    requires t <= 256
    ensures Values(WindowAfter(h).paramSets, KeysFrom(WindowAfter(h).paramSets.Keys, t))
            == LatestParamSets(h, t)
    decreases 256 - t
  {
    hide WindowAfter;
    if t < 256 {
      ParamSetListRefinesHistory(h, t + 1);
      ParamSetsRefineHistory(h, t);
      var m := WindowAfter(h).paramSets;
      if t in m.Keys {
        var rest := KeysFrom(m.Keys, t + 1);
        assert ([t as Byte] + rest)[1..] == rest;
      }
    }
  }

  /** What remains of a keyframe and the frames after it that are not parameter sets. */
  ghost predicate TailIs(w: Window, key: Frame, ds: seq<Frame>) {
    if |key| <= WARMUP_KEY_MAX_BYTES && TotalBytes(ds) <= WARMUP_DELTA_MAX_BYTES
    then w.keyframe == [key] && w.sinceKeyframe == ds
    else w.keyframe == [] && w.sinceKeyframe == []
  }

  lemma DependentExtendsTail(w: Window, key: Frame, ds: seq<Frame>, f: Frame)
    requires WindowInv(w) && TailIs(w, key, ds)
    requires ClassifyNal(f, w.codec) in {Delta, Unknown}
    ensures TailIs(Recorded(w, f), key, ds + [f])
  {
    hide ClassifyNal, TotalBytes;
    TotalBytesSnoc(ds, f);
  }

  lemma NonParamSetsSnoc(h: seq<Frame>, from: nat)
    requires from < |h|
    ensures NonParamSets(h, from)
            == NonParamSets(h[..|h| - 1], from)
               + if KindAt(h, |h| - 1).ParamSet? then [] else [h[|h| - 1]]
  {
  }

  lemma KindAtFront(h: seq<Frame>, j: nat)
    requires j < |h| - 1
    ensures KindAt(h[..|h| - 1], j) == KindAt(h, j)
  {
    assert h[..|h| - 1][..j] == h[..j];
  }

  lemma {:induction false} TailRefinesHistory(h: seq<Frame>, k: nat)
    requires IsLastKeyframe(h, k)
    ensures TailIs(WindowAfter(h), h[k], NonParamSets(h, k + 1))
    decreases |h|
  {
    hide ClassifyNal, WindowInv, NonParamSets;
    var front, f := h[..|h| - 1], h[|h| - 1];
    CodecRefinesHistory(front);
    ReachableInvariant(front);
    assert WindowAfter(h) == Recorded(WindowAfter(front), f);
    assert KindAt(h, |h| - 1) == ClassifyNal(f, WindowAfter(front).codec);
    if k < |h| - 1 {
      forall j | 0 <= j < |h| - 1 ensures KindAt(front, j) == KindAt(h, j) { KindAtFront(h, j); }
      TailRefinesHistory(front, k);
      NonParamSetsSnoc(h, k + 1);
      var d := NonParamSets(front, k + 1);
      if KindAt(h, |h| - 1).ParamSet? {
        assert d + [] == d;
      } else {
        DependentExtendsTail(WindowAfter(front), h[k], d, f);
      }
    } else {
      NoneAfterLast(h);
    }
  }

  /** Of a burst of keyframe NALs, such as the slices of one access unit, only the last is kept: the
      whole burst is in the slot exactly when it is a single NAL, under its cap, with a tail under
      the other. */
  lemma BurstKeepsItsLast(h: seq<Frame>, i: nat, j: nat)
    requires i <= j && IsLastKeyframe(h, j)
    requires forall k :: i <= k <= j ==> KindAt(h, k).Keyframe?
    ensures WindowAfter(h).keyframe == [] || WindowAfter(h).keyframe == [h[j]]
    ensures WindowAfter(h).keyframe == h[i..j + 1] <==> i == j && IsAnchor(h, j)
  {
    hide KindAt, WindowAfter, NonParamSets;
    TailRefinesHistory(h, j);
  }

  lemma NoneAfterLast(h: seq<Frame>)
    ensures NonParamSets(h, |h|) == []
  {
  }

  lemma {:induction false} NoKeyframeNoAnchor(h: seq<Frame>)
    requires forall j :: 0 <= j < |h| ==> !KindAt(h, j).Keyframe?
    ensures WindowAfter(h).keyframe == []
  {
    hide ClassifyNal;
    if h == [] {
    } else {
      var front := h[..|h| - 1];
      forall j | 0 <= j < |h| - 1 ensures KindAt(front, j) == KindAt(h, j) { KindAtFront(h, j); }
      CodecRefinesHistory(front);
      assert KindAt(h, |h| - 1) == ClassifyNal(h[|h| - 1], WindowAfter(front).codec);
      NoKeyframeNoAnchor(front);
    }
  }

  lemma {:induction false} LastKeyframeExists(h: seq<Frame>, i: nat) returns (k: nat)
    requires i < |h| && KindAt(h, i).Keyframe?
    ensures i <= k && IsLastKeyframe(h, k)
    decreases |h| - i
  {
    if j :| i < j < |h| && KindAt(h, j).Keyframe? {
      k := LastKeyframeExists(h, j);
    } else {
      k := i;
    }
  }

  /** The incremental cache is a function of the history: with an anchor the snapshot is the
      latest parameter sets by ascending type, the last keyframe and everything but parameter
      sets since; with none it is empty. */
  lemma SnapshotRefinesHistory(h: seq<Frame>)
    ensures forall k: nat :: IsAnchor(h, k) ==>
              Snapshot(WindowAfter(h))
              == LatestParamSets(h, 0) + [h[k]] + NonParamSets(h, k + 1)
    ensures Snapshot(WindowAfter(h)) == [] <==> !exists k: nat :: IsAnchor(h, k)
  {
    hide WindowAfter, KindAt, NonParamSets, LatestParamSets;
    ParamSetListRefinesHistory(h, 0);
    forall k: nat | IsAnchor(h, k)
      ensures Snapshot(WindowAfter(h)) == LatestParamSets(h, 0) + [h[k]] + NonParamSets(h, k + 1)
    {
      TailRefinesHistory(h, k);
    }
    if i: nat :| i < |h| && KindAt(h, i).Keyframe? {
      var k := LastKeyframeExists(h, i);
      TailRefinesHistory(h, k);
      if !IsAnchor(h, k) {
        assert forall k': nat :: IsLastKeyframe(h, k') ==> k' == k;
      }
    } else {
      NoKeyframeNoAnchor(h);
    }
  }
}
