/** The relay's NAL sniffer: which frames are parameter sets, keyframes or deltas. */
module NalKinds {
  import opened Bytes

  datatype Codec = Hevc | H264

  datatype NalKind = ParamSet(codec: Codec, nalType: Byte) | Keyframe | Delta | Unknown

  /** Every frame starts with this many bytes of wall-clock timestamp. */
  const NAL_TIMESTAMP_PREFIX := 8

  function H264Type(first: Byte): (t: Byte)
    ensures t < 32
  {
    first % 32
  }

  function HevcType(first: Byte): (t: Byte)
    ensures t < 64
  {
    (first / 2) % 64
  }

  /** Classification from the NAL header byte alone. */
  function ClassifyHeader(first: Byte, known: Option<Codec>): NalKind {
    match known
    case Some(Hevc) =>
      var t := HevcType(first);
      if 32 <= t <= 34 then ParamSet(Hevc, t)
      else if 16 <= t <= 23 then Keyframe
      else Delta
    case Some(H264) =>
      var t := H264Type(first);
      if t == 7 || t == 8 then ParamSet(H264, t)
      else if t == 5 then Keyframe
      else Delta
    case None =>
      if 32 <= HevcType(first) <= 34 then ParamSet(Hevc, HevcType(first))
      else if H264Type(first) == 7 || H264Type(first) == 8 then ParamSet(H264, H264Type(first))
      else Unknown
  }

  function ClassifyNal(stamped: Frame, known: Option<Codec>): NalKind {
    if |stamped| <= NAL_TIMESTAMP_PREFIX then Unknown else
    var body := stamped[NAL_TIMESTAMP_PREFIX..];
    if [0, 0, 0, 1] <= body then
      if |body| <= 4 then Unknown else ClassifyHeader(body[4], known)
    else if [0, 0, 1] <= body then
      if |body| <= 3 then Unknown else ClassifyHeader(body[3], known)
    else Unknown
  }

  /** A codec's own parameter-set types. */
  function ParamSetTypes(c: Codec): set<Byte> {
    match c
    case Hevc => {32, 33, 34}
    case H264 => {7, 8}
  }

  // ---------------------------------------------------------------------------------------------
  // The same on whole header bytes: section 7.4.1 of ITU-T H.264, section 7.4.2.2 of ITU-T H.265
  // ---------------------------------------------------------------------------------------------

  /** A parameter set of codec `c`: SPS or PPS, and VPS in HEVC. */
  predicate IsParamSetHeader(c: Codec, first: Byte) {
    match c
    case Hevc => 64 <= first % 128 < 70
    case H264 => first % 32 == 7 || first % 32 == 8
  }

  /** A random access point of codec `c`: any IRAP type of HEVC, reserved ones included, or an IDR
      slice of H.264. */
  predicate IsKeyframeHeader(c: Codec, first: Byte) {
    match c
    case Hevc => 32 <= first % 128 < 48
    case H264 => first % 32 == 5
  }

  /** The type field of codec `c`. */
  function TypeOf(c: Codec, first: Byte): Byte {
    match c
    case Hevc => first % 128 / 2
    case H264 => first % 32
  }

  /** Locked to a codec, its parameter sets and random access points are told apart by header byte
      and everything else is a delta; with no codec known, HEVC parameter sets are looked for before
      H.264 ones and everything else is unknown. */
  lemma HeaderKinds(first: Byte, c: Codec)
    ensures IsParamSetHeader(c, first) <==>
            ClassifyHeader(first, Some(c)) == ParamSet(c, TypeOf(c, first))
    ensures IsKeyframeHeader(c, first) <==> ClassifyHeader(first, Some(c)) == Keyframe
    ensures !IsParamSetHeader(c, first) && !IsKeyframeHeader(c, first) <==>
            ClassifyHeader(first, Some(c)) == Delta
    ensures ClassifyHeader(first, None)
            == if IsParamSetHeader(Hevc, first) then ParamSet(Hevc, TypeOf(Hevc, first))
               else if IsParamSetHeader(H264, first) then ParamSet(H264, TypeOf(H264, first))
               else Unknown
  {
  }

  /** Discovery mode and locked mode agree about parameter sets: a stored parameter set is
      recognised again with no codec known, and a frame that locks nothing is not a parameter
      set of either codec. */
  lemma DiscoveryAgrees(frame: Frame, c: Codec)
    ensures ClassifyNal(frame, Some(c)).ParamSet? ==>
              ClassifyNal(frame, None) == ClassifyNal(frame, Some(c))
    ensures ClassifyNal(frame, None).ParamSet? && ClassifyNal(frame, None).codec == c ==>
              ClassifyNal(frame, Some(c)) == ClassifyNal(frame, None)
    ensures !ClassifyNal(frame, None).ParamSet? ==> !ClassifyNal(frame, Some(c)).ParamSet?
  {
  }

  /** Locked to a codec, a parameter set is always one of that codec's own types; with no codec
      known nothing is a keyframe or a delta. */
  lemma KindsByCodec(frame: Frame, c: Codec)
    ensures ClassifyNal(frame, Some(c)).ParamSet? ==>
              ClassifyNal(frame, Some(c)).codec == c
              && ClassifyNal(frame, Some(c)).nalType in ParamSetTypes(c)
    ensures ClassifyNal(frame, None).ParamSet? || ClassifyNal(frame, None).Unknown?
    ensures ClassifyNal(frame, None).ParamSet? ==>
              ClassifyNal(frame, None).nalType in ParamSetTypes(ClassifyNal(frame, None).codec)
  {
  }
}
