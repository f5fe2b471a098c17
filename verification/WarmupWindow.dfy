/** The per-room warm-up cache: what one call to `record` and `snapshot` does. */
module WarmupWindows {
  import opened Bytes
  import opened NalKinds

  const WARMUP_DELTA_MAX_BYTES := 16 * 1024 * 1024
  const WARMUP_KEY_MAX_BYTES := 8 * 1024 * 1024
  const USIZE_MAX := 0xFFFF_FFFF_FFFF_FFFF

  datatype Window = Window(
    codec: Option<Codec>,
    paramSets: map<Byte, Frame>,
    keyframe: seq<Frame>,
    keyframeBytes: nat,
    sinceKeyframe: seq<Frame>,
    sinceKeyframeBytes: nat)

  const EMPTY := Window(None, map[], [], 0, [], 0)

  function SaturatingAdd(a: nat, b: nat): nat {
    if a + b > USIZE_MAX then USIZE_MAX else a + b
  }

  function Dropped(w: Window): Window {
    w.(keyframe := [], keyframeBytes := 0, sinceKeyframe := [], sinceKeyframeBytes := 0)
  }

  /** The window after recording one frame. */
  function Recorded(w: Window, frame: Frame): Window {
    match ClassifyNal(frame, w.codec)
    case ParamSet(codec, nalType) =>
      w.(codec := if w.codec.None? then Some(codec) else w.codec,
         paramSets := w.paramSets[nalType := frame])
    case Keyframe =>
      if |frame| <= WARMUP_KEY_MAX_BYTES
      then Dropped(w).(keyframe := [frame], keyframeBytes := |frame|)
      else Dropped(w)
    case _ =>
      if w.keyframe == [] then w
      else
        var projected := SaturatingAdd(w.sinceKeyframeBytes, |frame|);
        if projected > WARMUP_DELTA_MAX_BYTES then Dropped(w)
        else w.(sinceKeyframe := w.sinceKeyframe + [frame], sinceKeyframeBytes := projected)
  }

  /** The members of `s` that are at least `from`, in ascending order. */
  function KeysFrom(s: set<Byte>, from: nat): (r: seq<Byte>)
    requires from <= 256
    ensures forall k :: k in r <==> k in s && from <= k
    ensures forall i, j :: 0 <= i < j < |r| ==> r[i] < r[j]
    decreases 256 - from
  {
    if from == 256 then []
    else if from in s then
      var rest := KeysFrom(s, from + 1);
      assert forall j :: 0 <= j < |rest| ==> rest[j] in rest;
      [from] + rest
    else KeysFrom(s, from + 1)
  }

  function SortedKeys(s: set<Byte>): (r: seq<Byte>)
    ensures forall k :: k in r <==> k in s
    ensures forall i, j :: 0 <= i < j < |r| ==> r[i] < r[j]
  {
    KeysFrom(s, 0)
  }

  lemma OnlyKey(keys: seq<Byte>, k: Byte)
    requires forall x :: x in keys <==> x == k
    requires forall i, j :: 0 <= i < j < |keys| ==> keys[i] < keys[j]
    ensures keys == [k]
  {
    assert k in keys;
    assert |keys| < 2 || keys[0] < keys[1];
    forall i | 0 <= i < |keys| ensures keys[i] == k {
      assert keys[i] in keys;
    }
  }

  function Values(m: map<Byte, Frame>, keys: seq<Byte>): (r: seq<Frame>)
    requires forall k :: k in keys ==> k in m
    ensures |r| == |keys| && forall i :: 0 <= i < |r| ==> r[i] == m[keys[i]]
  {
    if keys == [] then [] else [m[keys[0]]] + Values(m, keys[1..])
  }

  /** What a joining viewer is sent first. */
  function Snapshot(w: Window): seq<Frame> {
    if w.keyframe == [] then []
    else Values(w.paramSets, SortedKeys(w.paramSets.Keys)) + w.keyframe + w.sinceKeyframe
  }

  /** What holds of the window in every run. */
  ghost predicate WindowInv(w: Window) {
    && w.keyframeBytes == TotalBytes(w.keyframe) <= WARMUP_KEY_MAX_BYTES
    && w.sinceKeyframeBytes == TotalBytes(w.sinceKeyframe) <= WARMUP_DELTA_MAX_BYTES
    && |w.keyframe| <= 1
    && (w.keyframe == [] ==> w.sinceKeyframe == [])
    && (w.codec.None? <==> w.paramSets == map[])
    && (w.codec.None? ==> w.keyframe == [])
    && (w.codec.Some? ==> w.paramSets.Keys <= ParamSetTypes(w.codec.value))
    && (forall k :: k in w.paramSets ==>
          w.codec.Some? && ClassifyNal(w.paramSets[k], w.codec) == ParamSet(w.codec.value, k))
    && (forall f :: f in w.keyframe ==> ClassifyNal(f, w.codec) == Keyframe)
    && (forall f :: f in w.sinceKeyframe ==> ClassifyNal(f, w.codec) in {Delta, Unknown})
  }

  lemma RecordKeepsInvariant(w: Window, frame: Frame)
    requires WindowInv(w)
    ensures WindowInv(Recorded(w, frame))
    ensures w.codec.Some? ==> Recorded(w, frame).codec == w.codec
  {
    hide ClassifyNal, ParamSetTypes;
    var w' := Recorded(w, frame);
    if w.codec.Some? {
      KindsByCodec(frame, w.codec.value);
    } else {
      KindsByCodec(frame, Hevc);
    }
    match ClassifyNal(frame, w.codec) {
      case ParamSet(codec, nalType) =>
        DiscoveryAgrees(frame, codec);
        assert nalType in w'.paramSets;
      case Keyframe =>
        assert [frame][..0] == [] && TotalBytes([frame]) == |frame|;
      case _ =>
        assert (w.sinceKeyframe + [frame])[..|w.sinceKeyframe|] == w.sinceKeyframe;
    }
  }

  class WarmupWindow {
    var codec: Option<Codec>
    var paramSets: map<Byte, Frame>
    var keyframe: seq<Frame>
    var keyframeTotalBytes: nat
    var sinceKeyframe: seq<Frame>
    var sinceKeyframeTotalBytes: nat

    function View(): Window
      reads this
    {
      Window(codec, paramSets, keyframe, keyframeTotalBytes, sinceKeyframe, sinceKeyframeTotalBytes)
    }

    ghost predicate Valid()
      reads this
    {
      WindowInv(View())
    }

    constructor ()
      ensures Valid() && View() == EMPTY
    {
      codec, paramSets := None, map[];
      keyframe, keyframeTotalBytes := [], 0;
      sinceKeyframe, sinceKeyframeTotalBytes := [], 0;
    }

    /** Records an inbound NAL; true when a fresh keyframe just landed. */
    method Record(frame: Frame) returns (landed: bool)
      requires Valid()
      modifies this
      ensures Valid() && View() == Recorded(old(View()), frame)
      ensures landed == ClassifyNal(frame, old(codec)).Keyframe?
    {
      RecordKeepsInvariant(View(), frame);
      match ClassifyNal(frame, codec) {
        case ParamSet(c, nalType) =>
          if codec.None? {
            codec := Some(c);
          }
          paramSets := paramSets[nalType := frame];
          landed := false;
        case Keyframe =>
          keyframe := [];
          keyframeTotalBytes := 0;
          sinceKeyframe := [];
          sinceKeyframeTotalBytes := 0;
          var len := |frame|;
          if len <= WARMUP_KEY_MAX_BYTES {
            keyframeTotalBytes := len;
            keyframe := keyframe + [frame];
          }
          landed := true;
        case _ =>
          landed := false;
          if keyframe == [] {
            return;
          }
          var projected := SaturatingAdd(sinceKeyframeTotalBytes, |frame|);
          if projected > WARMUP_DELTA_MAX_BYTES {
            sinceKeyframe := [];
            sinceKeyframeTotalBytes := 0;
            keyframe := [];
            keyframeTotalBytes := 0;
            return;
          }
          sinceKeyframeTotalBytes := projected;
          sinceKeyframe := sinceKeyframe + [frame];
      }
    }

    /** The cache as a flat list: parameter sets by ascending type, keyframe, deltas. */
    method TakeSnapshot() returns (out: seq<Frame>)
      ensures out == Snapshot(View())
    {
      hide SortedKeys, Values;
      if keyframe == [] {
        return [];
      }
      out := [];
      var keys := SortedKeys(paramSets.Keys);
      for i := 0 to |keys|
        invariant |out| == i && forall j :: 0 <= j < i ==> out[j] == paramSets[keys[j]]
      {
        if keys[i] in paramSets {
          out := out + [paramSets[keys[i]]];
        }
      }
      assert out == Values(paramSets, keys);
      out := out + keyframe;
      out := out + sinceKeyframe;
    }
  }
}
