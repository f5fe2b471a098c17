/** Replaying a snapshot, and what a joining viewer's own window becomes. */
module WarmupJoin {
  import opened Bytes
  import opened NalKinds
  import opened WarmupWindows
  import opened WarmupHistory

  // ---------------------------------------------------------------------------------------------
  // Replaying a snapshot into a fresh window
  // ---------------------------------------------------------------------------------------------

  function Restrict(m: map<Byte, Frame>, keys: seq<Byte>): map<Byte, Frame>
    requires forall k :: k in keys ==> k in m
  {
    map k | k in keys :: m[k]
  }

  lemma EmptyRestrict(m: map<Byte, Frame>)
    ensures Restrict(m, []) == map[]
  {
  }

  lemma RestrictSnoc(m: map<Byte, Frame>, front: seq<Byte>, k: Byte)
    requires (forall j :: j in front ==> j in m) && k in m
    ensures forall j :: j in front + [k] ==> j in m
    ensures Restrict(m, front + [k]) == Restrict(m, front)[k := m[k]]
  {
  }

  lemma RecordStoredParamSet(w: Window, f: Frame, c: Codec, t: Byte)
    requires w.codec in {None, Some(c)} && ClassifyNal(f, Some(c)) == ParamSet(c, t)
    ensures Recorded(w, f) == w.(codec := Some(c), paramSets := w.paramSets[t := f])
  {
    hide ClassifyNal;
    DiscoveryAgrees(f, c);
  }

  lemma {:induction false} ReplayStoredParamSets(c: Codec, m: map<Byte, Frame>, keys: seq<Byte>)
    requires forall k :: k in keys ==> k in m && ClassifyNal(m[k], Some(c)) == ParamSet(c, k)
    ensures Replay(EMPTY, Values(m, keys))
            == EMPTY.(codec := if keys == [] then None else Some(c), paramSets := Restrict(m, keys))
  {
    hide ClassifyNal, Values, Recorded, Restrict;
    var vs := Values(m, keys);
    if keys == [] {
      EmptyRestrict(m);
    } else {
      var front, k := keys[..|keys| - 1], keys[|keys| - 1];
      ReplayStoredParamSets(c, m, front);
      assert vs[..|vs| - 1] == Values(m, front);
      assert keys == front + [k];
      RecordStoredParamSet(Replay(EMPTY, vs[..|vs| - 1]), m[k], c, k);
      RestrictSnoc(m, front, k);
    }
  }

  lemma {:induction false} ReplayDeltas(w: Window, ds: seq<Frame>)
    requires WindowInv(w) && w.keyframe != [] && w.sinceKeyframe == []
    requires TotalBytes(ds) <= WARMUP_DELTA_MAX_BYTES
    requires forall f :: f in ds ==> ClassifyNal(f, w.codec) in {Delta, Unknown}
    ensures Replay(w, ds) == w.(sinceKeyframe := ds, sinceKeyframeBytes := TotalBytes(ds))
  {
    hide ClassifyNal;
    if ds == [] {
    } else {
      ReplayDeltas(w, ds[..|ds| - 1]);
    }
  }

  lemma SingleTotal(f: Frame)
    ensures TotalBytes([f]) == |f|
  {
    var one: seq<Frame> := [f];
    assert one[..0] == [];
  }

  lemma ReplaySnapshot(w: Window)
    requires WindowInv(w) && w.keyframe != []
    ensures Replay(EMPTY, Snapshot(w)) == w
  {
    hide ClassifyNal, SortedKeys, Values;
    var keys := SortedKeys(w.paramSets.Keys);
    var ps := Values(w.paramSets, keys);
    ReplayStoredParamSets(w.codec.value, w.paramSets, keys);
    assert Restrict(w.paramSets, keys) == w.paramSets;
    assert w.paramSets.Keys != {};
    assert keys != [] by {
      var k :| k in w.paramSets.Keys;
      assert k in keys;
    }
    var w1 := Replay(EMPTY, ps);
    assert w1 == Window(w.codec, w.paramSets, [], 0, [], 0);
    var f := w.keyframe[0];
    assert w.keyframe == [f];
    SingleTotal(f);
    ReplayAppend(EMPTY, ps, [f]);
    var w2 := Replay(EMPTY, ps + [f]);
    assert Replay(w1, [f]) == Recorded(w1, f);
    assert w2 == Window(w.codec, w.paramSets, [f], |f|, [], 0);
    ReplayAppend(EMPTY, ps + [f], w.sinceKeyframe);
    ReplayDeltas(w2, w.sinceKeyframe);
  }

  /** For every reachable window with something to replay, recording the snapshot into a fresh
      window rebuilds exactly the same window. */
  lemma ReplayFixpoint(h: seq<Frame>)
    requires Snapshot(WindowAfter(h)) != []
    ensures WindowAfter(Snapshot(WindowAfter(h))) == WindowAfter(h)
  {
    ReachableInvariant(h);
    ReplaySnapshot(WindowAfter(h));
  }

  // ---------------------------------------------------------------------------------------------
  // Two windows fed the same frames
  // ---------------------------------------------------------------------------------------------

  /** Later parameter sets win: what `frames` overwrite in a room of codec `c`. */
  function ParamUpdates(c: Codec, frames: seq<Frame>): map<Byte, Frame> {
    if frames == [] then map[] else
    var u := ParamUpdates(c, frames[..|frames| - 1]);
    match ClassifyNal(frames[|frames| - 1], Some(c))
    case ParamSet(_, t) => u[t := frames[|frames| - 1]]
    case _ => u
  }

  lemma {:induction false} ReplayMergesParamSets(w: Window, c: Codec, frames: seq<Frame>)
    requires WindowInv(w)
    requires Replay(w, frames).codec in {None, Some(c)}
    ensures Replay(w, frames).paramSets == w.paramSets + ParamUpdates(c, frames)
  {
    hide ClassifyNal, WindowInv;
    if frames == [] {
    } else {
      var front, f := frames[..|frames| - 1], frames[|frames| - 1];
      InvariantOverRuns(w, front);
      RecordKeepsInvariant(Replay(w, front), f);
      DiscoveryAgrees(f, c);
      assert Replay(w, front).codec in {None, Some(c)};
      ReplayMergesParamSets(w, c, front);
    }
  }

  lemma {:induction false} UpdatesCoverPrefix(c: Codec, a: seq<Frame>, b: seq<Frame>)
    ensures ParamUpdates(c, a).Keys <= ParamUpdates(c, a + b).Keys
    ensures ParamUpdates(c, a) + ParamUpdates(c, a + b) == ParamUpdates(c, a + b)
  {
    hide ClassifyNal;
    if b == [] {
      assert a + b == a;
    } else {
      assert (a + b)[..|a + b| - 1] == a + b[..|b| - 1];
      UpdatesCoverPrefix(c, a, b[..|b| - 1]);
    }
  }

  /** Everything but the parameter sets. */
  ghost predicate SameTail(w: Window, v: Window) {
    && w.codec == v.codec
    && w.keyframe == v.keyframe
    && w.keyframeBytes == v.keyframeBytes
    && w.sinceKeyframe == v.sinceKeyframe
    && w.sinceKeyframeBytes == v.sinceKeyframeBytes
  }

  /** The kind each frame of `frames` has as it is recorded after `w`. */
  function KindIn(w: Window, frames: seq<Frame>, i: nat): NalKind
    requires i < |frames|
  {
    ClassifyNal(frames[i], Replay(w, frames[..i]).codec)
  }

  /** Two windows locked to the same codec agree on keyframe and deltas from the first keyframe
      both are fed. */
  lemma {:induction false} KeyframeSynchronises(w: Window, v: Window, frames: seq<Frame>)
    requires WindowInv(w) && WindowInv(v) && v.codec.Some?
    requires Replay(w, frames).codec in {None, v.codec}
    requires SameTail(w, v) || exists i :: 0 <= i < |frames| && KindIn(w, frames, i).Keyframe?
    ensures SameTail(Replay(w, frames), Replay(v, frames))
  {
    hide ClassifyNal, WindowInv;
    if frames == [] {
    } else {
      var front, f := frames[..|frames| - 1], frames[|frames| - 1];
      InvariantOverRuns(w, front);
      InvariantOverRuns(v, front);
      RecordKeepsInvariant(Replay(w, front), f);
      RecordKeepsInvariant(Replay(v, front), f);
      KindsByCodec(f, v.codec.value);
      if SameTail(w, v) {
        KeyframeSynchronises(w, v, front);
      } else {
        var i :| 0 <= i < |frames| && KindIn(w, frames, i).Keyframe?;
        if i < |frames| - 1 {
          assert front[..i] == frames[..i];
          assert KindIn(w, front, i).Keyframe?;
          KeyframeSynchronises(w, v, front);
        }
      }
    }
  }

  /** The frames that are not parameter sets of codec `c`. */
  function Dependents(c: Codec, frames: seq<Frame>): seq<Frame> {
    if frames == [] then []
    else
      Dependents(c, frames[..|frames| - 1])
      + if ClassifyNal(frames[|frames| - 1], Some(c)).ParamSet? then [] else [frames[|frames| - 1]]
  }

  lemma {:induction false} DependentsAppend(c: Codec, a: seq<Frame>, b: seq<Frame>)
    ensures Dependents(c, a + b) == Dependents(c, a) + Dependents(c, b)
  {
    hide ClassifyNal;
    if b == [] {
      assert a + b == a;
    } else {
      DependentsAppend(c, a, b[..|b| - 1]);
      assert (a + b)[..|a + b| - 1] == a + b[..|b| - 1];
    }
  }

  lemma {:induction false} NoDependents(c: Codec, frames: seq<Frame>)
    ensures Dependents(c, frames) == [] <==>
            forall i :: 0 <= i < |frames| ==> ClassifyNal(frames[i], Some(c)).ParamSet?
  {
    hide ClassifyNal;
    if frames == [] {
    } else {
      NoDependents(c, frames[..|frames| - 1]);
    }
  }

  /** `r` is `w` with `ds` added to the delta tail, or dropped when that overflows. */
  ghost predicate Extends(r: Window, w: Window, ds: seq<Frame>) {
    var tail := w.sinceKeyframe + ds;
    if TotalBytes(tail) <= WARMUP_DELTA_MAX_BYTES
    then SameTail(r, w.(sinceKeyframe := tail, sinceKeyframeBytes := TotalBytes(tail)))
    else SameTail(r, Dropped(w))
  }

  lemma ExtendsByParamSet(r: Window, w: Window, ds: seq<Frame>, f: Frame)
    requires Extends(r, w, ds) && r.codec.Some? && ClassifyNal(f, r.codec).ParamSet?
    ensures Extends(Recorded(r, f), w, ds + [])
  {
    hide ClassifyNal;
    assert ds + [] == ds;
  }

  lemma ExtendsByDependent(r: Window, w: Window, ds: seq<Frame>, f: Frame)
    requires Extends(r, w, ds) && w.keyframe != []
    requires ClassifyNal(f, r.codec) in {Delta, Unknown}
    ensures Extends(Recorded(r, f), w, ds + [f])
  {
    hide ClassifyNal, TotalBytes;
    var tail := w.sinceKeyframe + ds;
    assert w.sinceKeyframe + (ds + [f]) == tail + [f];
    TotalBytesSnoc(tail, f);
  }

  lemma ExtendsByNothing(w: Window)
    requires WindowInv(w)
    ensures Extends(w, w, [])
  {
    assert w.sinceKeyframe + [] == w.sinceKeyframe;
  }

  /** With no keyframe among them, frames only lengthen the delta tail or drop it. */
  lemma {:induction false} ReplayWithoutKeyframe(w: Window, frames: seq<Frame>)
    requires WindowInv(w) && w.codec.Some? && w.keyframe != []
    requires forall i :: 0 <= i < |frames| ==> !ClassifyNal(frames[i], w.codec).Keyframe?
    ensures Extends(Replay(w, frames), w, Dependents(w.codec.value, frames))
  {
    hide ClassifyNal, WindowInv, Extends, Recorded;
    if frames == [] {
      ExtendsByNothing(w);
    } else {
      var front, f := frames[..|frames| - 1], frames[|frames| - 1];
      ReplayWithoutKeyframe(w, front);
      InvariantOverRuns(w, front);
      var ds := Dependents(w.codec.value, front);
      if ClassifyNal(f, w.codec).ParamSet? {
        ExtendsByParamSet(Replay(w, front), w, ds, f);
      } else {
        ExtendsByDependent(Replay(w, front), w, ds, f);
      }
    }
  }

  // ---------------------------------------------------------------------------------------------
  // Joining: subscribed after `s` sends, snapshot taken after `r` recordings, received up to `m`
  // ---------------------------------------------------------------------------------------------

  lemma WindowAfterPrefix(h: seq<Frame>, s: nat, m: nat)
    requires s <= m <= |h|
    ensures WindowAfter(h[..m]) == Replay(WindowAfter(h[..s]), h[s..m])
  {
    ReplayAppend(EMPTY, h[..s], h[s..m]);
    assert h[..m] == h[..s] + h[s..m];
  }

  lemma KindAtIsKindIn(h: seq<Frame>, s: nat, m: nat, k: nat)
    requires s <= k < m <= |h|
    ensures KindIn(WindowAfter(h[..s]), h[s..m], k - s) == KindAt(h, k)
    ensures KindAt(h, k) == ClassifyNal(h[k], WindowAfter(h[..k]).codec)
  {
    hide WindowAfter, ClassifyNal, Replay;
    WindowAfterPrefix(h, s, k);
    assert h[s..m][..k - s] == h[s..k];
    CodecRefinesHistory(h[..k]);
  }

  lemma {:induction false} StaysWithoutKeyframe(w: Window, frames: seq<Frame>)
    requires w.keyframe == []
    requires forall i :: 0 <= i < |frames| ==> !KindIn(w, frames, i).Keyframe?
    ensures Replay(w, frames).keyframe == []
  {
    hide ClassifyNal;
    if frames == [] {
    } else {
      var front := frames[..|frames| - 1];
      forall i | 0 <= i < |front| ensures KindIn(w, front, i) == KindIn(w, frames, i) {
        assert front[..i] == frames[..i];
      }
      StaysWithoutKeyframe(w, front);
      assert !KindIn(w, frames, |frames| - 1).Keyframe?;
    }
  }

  lemma MergeTwice(m: map<Byte, Frame>, u: map<Byte, Frame>, v: map<Byte, Frame>)
    requires u + v == v
    ensures (m + u) + v == m + v
  {
    assert v.Keys == u.Keys + v.Keys;
  }

  /** The viewer's parameter sets are the room's, whatever it was sent twice. */
  lemma ParamSetsHeal(h: seq<Frame>, s: nat, r: nat, m: nat)
    requires s <= r <= m <= |h|
    requires WindowAfter(h[..r]).codec.Some?
    ensures Replay(WindowAfter(h[..r]), h[s..m]).codec == WindowAfter(h[..r]).codec
    ensures WindowAfter(h[..m]).codec == WindowAfter(h[..r]).codec
    ensures Replay(WindowAfter(h[..r]), h[s..m]).paramSets == WindowAfter(h[..m]).paramSets
  {
    hide WindowAfter, Replay, WindowInv, ParamUpdates;
    var before, at := WindowAfter(h[..s]), WindowAfter(h[..r]);
    var c := at.codec.value;
    ReachableInvariant(h[..s]);
    ReachableInvariant(h[..r]);
    WindowAfterPrefix(h, s, r);
    WindowAfterPrefix(h, s, m);
    WindowAfterPrefix(h, r, m);
    InvariantOverRuns(at, h[r..m]);
    InvariantOverRuns(at, h[s..m]);
    ReplayMergesParamSets(before, c, h[s..r]);
    ReplayMergesParamSets(before, c, h[s..m]);
    ReplayMergesParamSets(at, c, h[s..m]);
    UpdatesCoverPrefix(c, h[s..r], h[r..m]);
    assert h[s..m] == h[s..r] + h[r..m];
    MergeTwice(before.paramSets, ParamUpdates(c, h[s..r]), ParamUpdates(c, h[s..m]));
  }

  /** A keyframe received live brings the viewer level with the room. */
  lemma KeyframeHeals(h: seq<Frame>, s: nat, r: nat, m: nat, k: nat)
    requires s <= r <= m <= |h| && s <= k < m
    requires WindowAfter(h[..r]).codec.Some? && KindAt(h, k).Keyframe?
    ensures Replay(WindowAfter(h[..r]), h[s..m]) == WindowAfter(h[..m])
  {
    hide WindowAfter, Replay, WindowInv, KindAt, KindIn;
    ReachableInvariant(h[..s]);
    ReachableInvariant(h[..r]);
    WindowAfterPrefix(h, s, m);
    ParamSetsHeal(h, s, r, m);
    KindAtIsKindIn(h, s, m, k);
    KeyframeSynchronises(WindowAfter(h[..s]), WindowAfter(h[..r]), h[s..m]);
  }

  /** A room and a viewer whose tail grew by the same frames, the viewer's after `twice`. */
  lemma CompareTails(before: Window, at: Window, room: Window, view: Window,
                     twice: seq<Frame>, rest: seq<Frame>)
    requires before.keyframe != [] && at.keyframe != []
    requires Extends(at, before, twice)
    requires Extends(room, before, twice + rest) && Extends(view, at, twice + rest)
    requires view.paramSets == room.paramSets
    ensures view == room <==> twice == [] || room.keyframe == []
  {
    var since := before.sinceKeyframe;
    assert at.sinceKeyframe == since + twice;
    TotalBytesAppend(since, twice + rest);
    TotalBytesAppend(since + twice, twice + rest);
    TotalBytesAppend(since, twice);
    if twice == [] {
      assert since + twice == since;
    } else {
      assert |since + twice + (twice + rest)| > |since + (twice + rest)|;
    }
  }

  /** With no keyframe received, the deltas sent twice are what matters. */
  lemma WithoutKeyframe(h: seq<Frame>, s: nat, r: nat, m: nat)
    requires s <= r <= m <= |h|
    requires WindowAfter(h[..r]).keyframe != []
    requires forall k :: s <= k < m ==> !KindAt(h, k).Keyframe?
    ensures Replay(WindowAfter(h[..r]), h[s..m]) == WindowAfter(h[..m]) <==>
            (forall k :: s <= k < r ==> KindAt(h, k).ParamSet?) || WindowAfter(h[..m]).keyframe == []
  {
    hide WindowAfter, Replay, KindAt, KindIn, ClassifyNal, Extends, Dependents;
    var before, at, frames := WindowAfter(h[..s]), WindowAfter(h[..r]), h[s..m];
    ReachableInvariant(h[..s]);
    ReachableInvariant(h[..r]);
    WindowAfterPrefix(h, s, r);
    WindowAfterPrefix(h, s, m);
    ParamSetsHeal(h, s, r, m);
    AnchoredThroughout(h, s, r, m);
    var c := at.codec.value;
    assert frames == h[s..r] + h[r..m];
    assert forall i :: 0 <= i < |frames| ==> frames[i] == h[s + i];
    assert forall i :: 0 <= i < r - s ==> h[s..r][i] == h[s + i];
    ReplayWithoutKeyframe(before, h[s..r]);
    ReplayWithoutKeyframe(before, frames);
    ReplayWithoutKeyframe(at, frames);
    var twice, rest := Dependents(c, h[s..r]), Dependents(c, h[r..m]);
    DependentsAppend(c, h[s..r], h[r..m]);
    NoDependents(c, h[s..r]);
    assert twice == [] <==> forall k :: s <= k < r ==> KindAt(h, k).ParamSet? by {
      if twice == [] {
        forall k | s <= k < r ensures KindAt(h, k).ParamSet? {
          assert h[s..r][k - s] == h[k];
        }
      }
    }
    CompareTails(before, at, WindowAfter(h[..m]), Replay(at, frames), twice, rest);
  }

  /** With no keyframe between, the room was already locked and anchored when the viewer
      subscribed. */
  lemma AnchoredThroughout(h: seq<Frame>, s: nat, r: nat, m: nat)
    requires s <= r <= m <= |h|
    requires WindowAfter(h[..r]).keyframe != []
    requires forall k :: s <= k < m ==> !KindAt(h, k).Keyframe?
    ensures WindowAfter(h[..s]).keyframe != []
    ensures WindowAfter(h[..s]).codec == WindowAfter(h[..r]).codec
    ensures forall k :: s <= k < m ==> KindAt(h, k) == ClassifyNal(h[k], WindowAfter(h[..r]).codec)
  {
    hide WindowAfter, Replay, KindAt, KindIn, ClassifyNal;
    var before := WindowAfter(h[..s]);
    ReachableInvariant(h[..s]);
    WindowAfterPrefix(h, s, r);
    if before.keyframe == [] {
      forall i | 0 <= i < r - s ensures !KindIn(before, h[s..r], i).Keyframe? {
        KindAtIsKindIn(h, s, r, s + i);
      }
      StaysWithoutKeyframe(before, h[s..r]);
    }
    InvariantOverRuns(before, h[s..r]);
    forall k | s <= k < m ensures KindAt(h, k) == ClassifyNal(h[k], WindowAfter(h[..r]).codec) {
      KindAtIsKindIn(h, s, m, k);
      WindowAfterPrefix(h, s, k);
      InvariantOverRuns(before, h[s..k]);
    }
  }

  /** What folding `record` over everything a viewer was sent gives: the room's own window exactly
      when a keyframe came live, or nothing but parameter sets was sent twice, or the room itself
      has dropped its cache. */
  lemma JoinHealsExactly(h: seq<Frame>, s: nat, r: nat, m: nat)
    requires s <= r <= m <= |h|
    requires Snapshot(WindowAfter(h[..r])) != []
    ensures WindowAfter(Snapshot(WindowAfter(h[..r])) + h[s..m]) == WindowAfter(h[..m]) <==>
            || (exists k :: s <= k < m && KindAt(h, k).Keyframe?)
            || (forall k :: s <= k < r ==> KindAt(h, k).ParamSet?)
            || WindowAfter(h[..m]).keyframe == []
  {
    hide Replay, KindAt;
    var at := WindowAfter(h[..r]);
    ReachableInvariant(h[..r]);
    assert at.keyframe != [] && at.codec.Some?;
    ReplayFixpoint(h[..r]);
    ReplayAppend(EMPTY, Snapshot(at), h[s..m]);
    if k :| s <= k < m && KindAt(h, k).Keyframe? {
      KeyframeHeals(h, s, r, m, k);
    } else {
      WithoutKeyframe(h, s, r, m);
    }
  }

  /** Nothing recorded between subscribing and the snapshot: the viewer is level at once. */
  lemma JoinWithoutRaceHeals(h: seq<Frame>, r: nat, m: nat)
    requires r <= m <= |h|
    requires Snapshot(WindowAfter(h[..r])) != []
    ensures WindowAfter(Snapshot(WindowAfter(h[..r])) + h[r..m]) == WindowAfter(h[..m])
  {
    JoinHealsExactly(h, r, r, m);
  }

  /** A five-byte H.264 NAL (start code and header) behind a zero stamp. */
  function Sample(header: Byte): Frame {
    [0, 0, 0, 0, 0, 0, 0, 0, 0, 0, 0, 1, header]
  }

  lemma SampleKinds()
    ensures ClassifyNal(Sample(0x67), None) == ParamSet(H264, 7)
    ensures ClassifyNal(Sample(0x65), Some(H264)) == Keyframe
    ensures ClassifyNal(Sample(0x41), Some(H264)) == Delta
  {
    forall b: Byte ensures Sample(b)[8..] == [0, 0, 0, 1, b] {
    }
  }

  lemma SampleWindow()
    ensures var h := [Sample(0x67), Sample(0x65), Sample(0x41)];
            && WindowAfter(h) == Window(Some(H264), map[7 := h[0]], [h[1]], 13, [h[2]], 13)
            && WindowAfter(h[..2]) == Window(Some(H264), map[7 := h[0]], [h[1]], 13, [], 0)
  {
    hide ClassifyNal, Sample;
    hide WindowAfter, Replay;
    var a, b, c := Sample(0x67), Sample(0x65), Sample(0x41);
    SampleKinds();
    SampleLengths();
    WindowAfterNext([], a);
    WindowAfterNext([a], b);
    WindowAfterNext([a, b], c);
    WindowAfterNone();
    assert [] + [a] == [a] && [a] + [b] == [a, b] && [a, b] + [c] == [a, b, c] == [a, b, c][..2] + [c];
    assert [a, b, c][..2] == [a, b];
  }

  lemma WindowAfterNone()
    ensures WindowAfter([]) == EMPTY
  {
  }

  lemma WindowAfterNext(h: seq<Frame>, f: Frame)
    ensures WindowAfter(h + [f]) == Recorded(WindowAfter(h), f)
  {
    hide Recorded;
    assert (h + [f])[..|h|] == h;
  }

  lemma SampleLengths()
    ensures forall b: Byte :: |Sample(b)| == 13
  {
  }

  /** Parameter set, keyframe, delta: a viewer that subscribes before the delta is recorded and
      takes its snapshot after is sent the delta twice and is out of step with the room. */
  lemma RacedJoinDiverges()
    ensures var h := [Sample(0x67), Sample(0x65), Sample(0x41)];
            && Snapshot(WindowAfter(h)) == h
            && WindowAfter(Snapshot(WindowAfter(h)) + h[2..]) != WindowAfter(h)
  {
    hide ClassifyNal, SortedKeys, Replay, WindowAfter, Sample, KindAt, KindIn;
    var h := [Sample(0x67), Sample(0x65), Sample(0x41)];
    SampleWindow();
    SampleKinds();
    var w := WindowAfter(h);
    assert w.paramSets.Keys == {7};
    OnlyKey(SortedKeys(w.paramSets.Keys), 7);
    assert Snapshot(w) == [h[0]] + [h[1]] + [h[2]];
    assert h[..3] == h && h[2..3] == h[2..];
    KindAtIsKindIn(h, 0, 3, 2);
    JoinHealsExactly(h, 2, 3, 3);
  }
}
