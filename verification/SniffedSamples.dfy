/** Which samples of several NALs the Windows capturer rewrites faithfully although, or because,
    its sniffer takes them for Annex-B. */
module SniffedSamples {
  import opened Bytes
  import opened AnnexB
  import opened Avcc

  const UINT16_LIMIT := 0x1_0000

  ghost predicate Short(nals: seq<seq<Byte>>) {
    forall i :: 0 <= i < |nals| ==> |nals[i]| < UINT16_LIMIT
  }

  /** What every NAL that comes out of the splitter is. */
  ghost predicate Proper(nals: seq<seq<Byte>>) {
    forall i :: 0 <= i < |nals| ==> nals[i] != [] && CodeFree(nals[i])
  }

  // ---------------------------------------------------------------------------------------------
  // The next NAL the splitter reads
  // ---------------------------------------------------------------------------------------------

  /** Where the first start code of `s` is, or the end of `s`. */
  function FirstCode(s: seq<Byte>): (k: nat)
    ensures k <= |s|
    ensures k < |s| ==> CodeLen(s[k..]) > 0
  {
    if |s| < 3 then |s|
    else if CodeLen(s) > 0 then assert s[0..] == s; 0
    else
      var k := 1 + FirstCode(s[1..]);
      assert s[1..][k - 1..] == s[k..];
      k
  }

  /** What is read after the first start code of `s`. */
  function AfterCode(s: seq<Byte>): seq<seq<Byte>> {
    var k := FirstCode(s);
    if k == |s| then [] else NalsFrom([], s[k + CodeLen(s[k..])..])
  }

  lemma {:induction false} NalsToFirstCode(cur: seq<Byte>, s: seq<Byte>)
    ensures NalsFrom(cur, s) == Framed(cur + s[..FirstCode(s)]) + AfterCode(s)
    decreases |s|
  {
    hide CodeLen, Framed;
    if |s| < 3 {
      assert s[..|s|] == s;
    } else if CodeLen(s) > 0 {
      assert s[0..] == s && cur + s[..0] == cur;
    } else {
      var k := FirstCode(s[1..]);
      NalsToFirstCode(cur + [s[0]], s[1..]);
      assert cur + [s[0]] + s[1..][..k] == cur + s[..k + 1];
      assert s[1..][k..] == s[k + 1..];
      if k < |s[1..]| {
        var n := CodeLen(s[k + 1..]);
        assert s[1..][k + n..] == s[k + 1 + n..];
      }
    }
  }

  /** When `s` does not begin with a start code, the first NAL read from it runs to the first. */
  lemma FirstNal(s: seq<Byte>, nals: seq<seq<Byte>>)
    requires nals != [] && NalsFrom([], s) == Prefixed(nals) && FirstCode(s) > 0
    ensures |nals[0]| <= |s| && FirstCode(s) == |nals[0]| && s[..|nals[0]|] == nals[0]
    ensures Prefixed(nals[1..]) == AfterCode(s)
  {
    hide FirstCode, AfterCode, NalsFrom;
    var k := FirstCode(s);
    NalsToFirstCode([], s);
    assert [] + s[..k] == s[..k];
    var out := NalsFrom([], s);
    assert out[0] == START_CODE + s[..k] == START_CODE + nals[0];
    assert (START_CODE + s[..k])[4..] == s[..k] && (START_CODE + nals[0])[4..] == nals[0];
    assert out[1..] == AfterCode(s) && Prefixed(nals)[1..] == Prefixed(nals[1..]);
  }

  lemma FirstCodeAtOnce(s: seq<Byte>)
    requires FirstCode(s) == 0 && s != []
    ensures 0 < CodeLen(s) <= |s| && NalsFrom([], s) == NalsFrom([], s[CodeLen(s)..])
  {
    hide CodeLen;
    NalsToFirstCode([], s);
    assert s[0..] == s;
  }

  /** No start code begins well inside a NAL. */
  lemma NoCodeInside(nal: seq<Byte>, tail: seq<Byte>, i: nat)
    requires CodeFree(nal) && i + 4 <= |nal|
    ensures CodeLen((nal + tail)[i..]) == 0
  {
    var s := (nal + tail)[i..];
    CodeLenBytes(s);
    assert s[0] == nal[i] && s[1] == nal[i + 1] && s[2] == nal[i + 2] && s[3] == nal[i + 3];
    assert !CodeAt(nal, i) && !CodeAt(nal, i + 1);
  }

  // ---------------------------------------------------------------------------------------------
  // Length-prefixed samples read by the splitter
  // ---------------------------------------------------------------------------------------------

  /** The first record of a sample of short NALs. */
  lemma FirstRecord(nals: seq<seq<Byte>>)
    requires nals != [] && Short(nals)
    ensures Representable(nals) && Short(nals[1..]) && Representable(nals[1..])
    ensures var n := |nals[0]|;
            Encoded(nals) == [0, 0, n / 256, n % 256] + nals[0] + Encoded(nals[1..])
  {
    hide Encoded, BigEndianBytes, BigEndian32;
    EncodedUnfold(nals);
    var n := |nals[0]|;
    assert n / 0x1_0000 == 0 && n / 0x100_0000 == 0;
    assert BigEndian32(n) == [0, 0, n / 256, n % 256];
  }

  /** A NAL read just behind the low byte of its length: either that byte begins a start code with
      the NAL, or the next record is again one of 256..511 bytes and is read the same way. */
  lemma BehindLowByte(nals: seq<seq<Byte>>, s: seq<Byte>)
    requires nals != [] && Short(nals) && Representable(nals) && Proper(nals)
    requires 256 <= |nals[0]| < 512 && s == Encoded(nals)[3..]
    requires NalsFrom([], s) == Prefixed(nals)
    ensures nals[1..] != [] && Representable(nals[1..])
    ensures 256 <= |nals[1]| < 512
    ensures NalsFrom([], Encoded(nals[1..])[3..]) == Prefixed(nals[1..])
  {
    hide CodeLen, NalsFrom, Prefixed, Encoded, CodeFree, FirstCode;
    FirstRecord(nals);
    var nal, rest := nals[0], Encoded(nals[1..]);
    var n := |nal|;
    assert s == [n % 256] + nal + rest;
    LowByteBeginsNoCode(nals, s);
    FirstNal(s, nals);
    var code := s[n..];
    assert code == [nal[n - 1]] + rest;
    CodeLenBytes(code);
    if nals[1..] == [] {
      NothingEncoded();
    } else {
      FirstRecord(nals[1..]);
      assert nals[1..][0] == nals[1];
      assert code[1] == 0 && code[2] == 0;
      assert CodeLen(code) == 4 && code[3] == 1;
      assert s[n + 4..] == rest[3..];
    }
  }

  /** If the low byte of the length and the NAL's first two bytes were a start code, the NAL read
      would have to end in front of an empty one. */
  lemma LowByteBeginsNoCode(nals: seq<seq<Byte>>, s: seq<Byte>)
    requires nals != [] && Short(nals) && Representable(nals) && Proper(nals)
    requires 256 <= |nals[0]| < 512 && s == [|nals[0]| % 256] + nals[0] + Encoded(nals[1..])
    ensures NalsFrom([], s) == Prefixed(nals) ==> FirstCode(s) > 0
  {
    hide CodeLen, NalsFrom, Prefixed, Encoded, CodeFree, FirstCode;
    var nal, rest := nals[0], Encoded(nals[1..]);
    if FirstCode(s) == 0 {
      BehindCodeInside(nal, rest, s);
      var later := nal[2..] + rest;
      if nals[1..] == [] {
        NothingEncoded();
      } else {
        FirstRecord(nals[1..]);
        assert nals[1..][0] == nals[1] && nals[1] != [];
        CodeLenBytes(rest[2..]);
        assert later[256..] == rest[2..];
      }
      assert FirstCode(later) != 256;
      if NalsFrom([], later) == Prefixed(nals) {
        FirstNal(later, nals);
      }
    }
  }

  /** A code of the low byte and the NAL's first two bytes has no code right behind it. */
  lemma BehindCodeInside(nal: seq<Byte>, rest: seq<Byte>, s: seq<Byte>)
    requires CodeFree(nal) && 256 <= |nal| < 512
    requires s == [|nal| % 256] + nal + rest && FirstCode(s) == 0
    ensures |nal| == 256 && NalsFrom([], s) == NalsFrom([], nal[2..] + rest)
    ensures FirstCode(nal[2..] + rest) > 1
  {
    hide NalsFrom, CodeFree;
    FirstCodeAtOnce(s);
    CodeLenBytes(s);
    assert s[1] == nal[0] && s[2] == nal[1] && s[3] == nal[2];
    NoCodeInside(nal, rest, 0);
    CodeLenBytes(nal + rest);
    assert (nal + rest)[0..] == nal + rest;
    assert CodeLen(s) == 3 && s[3..] == nal[2..] + rest;
    NoCodeInside(nal, rest, 2);
    NoCodeInside(nal, rest, 3);
    var later := nal[2..] + rest;
    assert (nal + rest)[2..] == later && (nal + rest)[3..] == later[1..];
    assert later[0..] == later;
  }

  /** Behind a 3-byte code made of a length field, nothing comes out right. */
  lemma {:induction false} BehindShortCodeWrong(nals: seq<seq<Byte>>)
    requires nals != [] && Short(nals) && Representable(nals) && Proper(nals)
    requires 256 <= |nals[0]| < 512
    ensures |Encoded(nals)| >= 3 && NalsFrom([], Encoded(nals)[3..]) != Prefixed(nals)
    decreases |nals|
  {
    hide NalsFrom, Prefixed, Encoded, CodeFree;
    FirstRecord(nals);
    if NalsFrom([], Encoded(nals)[3..]) == Prefixed(nals) {
      BehindLowByte(nals, Encoded(nals)[3..]);
      assert nals[1..][0] == nals[1];
      BehindShortCodeWrong(nals[1..]);
    }
  }

  /** A one-byte NAL behind its length read as a code cannot begin a code with the next length. */
  lemma SingletonBeginsNoCode(nals: seq<seq<Byte>>, s: seq<Byte>)
    requires |nals| > 1 && Short(nals) && Representable(nals) && Proper(nals) && |nals[0]| == 1
    requires s == nals[0] + Encoded(nals[1..])
    ensures NalsFrom([], s) == Prefixed(nals) ==> FirstCode(s) > 0
  {
    hide CodeLen, NalsFrom, Prefixed, Encoded, CodeFree, FirstCode;
    if FirstCode(s) == 0 {
      var next := nals[1..];
      FirstRecord(next);
      var nal, rest := next[0], Encoded(next[1..]);
      FirstCodeAtOnce(s);
      CodeLenBytes(s);
      assert nal == nals[1];
      assert s[1] == 0 && s[2] == 0 && s[3] == |nal| / 256;
      assert CodeLen(s) == 4 && |nal| / 256 == 1;
      var t := [|nal| % 256] + nal + rest;
      assert s[4..] == t;
      NoCodeInside(nal, rest, 0);
      assert t[1..] == (nal + rest)[0..];
      if FirstCode(t) == 0 {
        BehindCodeInside(nal, rest, t);
        t := nal[2..] + rest;
      }
      assert FirstCode(t) > 0 && FirstCode(t) != 1;
      if NalsFrom([], t) == Prefixed(nals) {
        FirstNal(t, nals);
      }
    }
  }

  /** Behind a 4-byte code made of the length 1, only one-byte NALs come out right. */
  lemma {:induction false} BehindLongCodeSingletons(nals: seq<seq<Byte>>)
    requires nals != [] && Short(nals) && Representable(nals) && Proper(nals) && |nals[0]| == 1
    requires |Encoded(nals)| >= 4 && NalsFrom([], Encoded(nals)[4..]) == Prefixed(nals)
    ensures Singletons(nals)
    decreases |nals|
  {
    hide CodeLen, NalsFrom, Prefixed, Encoded, CodeFree, FirstCode;
    FirstRecord(nals);
    var next := nals[1..];
    var s := Encoded(nals)[4..];
    assert s == nals[0] + Encoded(next);
    if next == [] {
    } else {
      FirstRecord(next);
      assert next[0] == nals[1] && nals[1] != [];
      SingletonBeginsNoCode(nals, s);
      FirstNal(s, nals);
      assert s[1..] == Encoded(next);
      CodeLenBytes(Encoded(next));
      if CodeLen(Encoded(next)) == 3 {
        assert Encoded(next)[2] == |nals[1]| / 256;
        assert s[4..] == Encoded(next)[3..];
        BehindShortCodeWrong(next);
      } else {
        assert Encoded(next)[2] == |nals[1]| / 256 && Encoded(next)[3] == |nals[1]| % 256;
        assert s[5..] == Encoded(next)[4..];
        BehindLongCodeSingletons(next);
        assert forall i :: 0 < i < |nals| ==> nals[i] == next[i - 1];
      }
    }
  }

  // ---------------------------------------------------------------------------------------------
  // NALs of any size that section 7.4.1 of ITU-T H.264 permits
  // ---------------------------------------------------------------------------------------------

  /** The header byte of a NAL of any specified type is not zero, and neither is its last byte. */
  ghost predicate Permitted(nals: seq<seq<Byte>>) {
    forall i :: 0 <= i < |nals| ==>
      nals[i] != [] && nals[i][0] != 0 && nals[i][|nals[i]| - 1] != 0
  }

  lemma FirstRecordLength(nals: seq<seq<Byte>>)
    requires nals != [] && Representable(nals) && nals[0] != []
    ensures Representable(nals[1..])
    ensures var s, n := Encoded(nals), |nals[0]|;
            && |s| >= 5
            && (CodeLen(s) == 4 <==> n == 1) && (CodeLen(s) == 3 <==> 256 <= n < 512)
            && s[4..] == nals[0] + Encoded(nals[1..])
            && (256 <= n < 512 ==> s[3..] == [n - 256] + nals[0] + Encoded(nals[1..]))
  {
    hide Encoded, BigEndianBytes, BigEndian32, CodeLen;
    EncodedUnfold(nals);
    var n := |nals[0]|;
    var rest := Encoded(nals[1..]);
    var s := Encoded(nals);
    assert s == BigEndian32(n) + (nals[0] + rest);
    CodeLenBytes(s);
    assert s[..4] == BigEndian32(n);
    assert s[0] == n / 0x100_0000 && s[1] == n / 0x1_0000 % 256 && s[2] == n / 256 % 256
           && s[3] == n % 256;
    if 256 <= n < 512 {
      assert s[3] == n - 256;
    }
  }

  /** Behind the low byte of its length, a permitted NAL is never read on its own: no code can
      begin with its last byte. */
  lemma PermittedBehindShortCode(nals: seq<seq<Byte>>)
    requires nals != [] && Representable(nals) && Permitted(nals) && 256 <= |nals[0]| < 512
    ensures |Encoded(nals)| >= 3 && NalsFrom([], Encoded(nals)[3..]) != Prefixed(nals)
  {
    hide CodeLen, NalsFrom, Prefixed, Encoded, FirstCode;
    FirstRecordLength(nals);
    var nal, n := nals[0], |nals[0]|;
    var s := Encoded(nals)[3..];
    CodeLenBytes(s);
    CodeLenBytes(s[n..]);
    assert s[1] == nal[0] && s[n..][0] == nal[n - 1];
    assert s[0..] == s;
    assert FirstCode(s) != 0 && FirstCode(s) != n;
    if NalsFrom([], s) == Prefixed(nals) {
      FirstNal(s, nals);
    }
  }

  lemma {:induction false} PermittedBehindLongCode(nals: seq<seq<Byte>>)
    requires nals != [] && Representable(nals) && Permitted(nals) && |nals[0]| == 1
    requires |Encoded(nals)| >= 4 && NalsFrom([], Encoded(nals)[4..]) == Prefixed(nals)
    ensures Singletons(nals)
    decreases |nals|
  {
    hide CodeLen, NalsFrom, Prefixed, Encoded, FirstCode;
    var next := nals[1..];
    FirstRecordLength(nals);
    if next == [] {
    } else {
      var s := Encoded(nals)[4..];
      assert next[0] == nals[1];
      FirstRecordLength(next);
      CodeLenBytes(s);
      assert s[0] == nals[0][0] && s[0..] == s;
      FirstNal(s, nals);
      var rest := Encoded(next);
      assert s[1..] == rest;
      CodeLenBytes(rest);
      if CodeLen(rest) == 3 {
        assert s[4..] == rest[3..];
        PermittedBehindShortCode(next);
      } else {
        assert s[5..] == rest[4..];
        PermittedBehindLongCode(next);
        assert forall i :: 0 < i < |nals| ==> nals[i] == next[i - 1];
      }
    }
  }

  // ---------------------------------------------------------------------------------------------
  // Which samples come out right
  // ---------------------------------------------------------------------------------------------

  /** A sample of permitted NALs of any size is rewritten faithfully exactly when its first length
      is neither 1 nor in 256..511, or all its NALs are of one byte. */
  lemma PermittedSampleExactly(nals: seq<seq<Byte>>)
    requires nals != [] && Representable(nals) && Permitted(nals)
    ensures Rewritten(Encoded(nals)) == Prefixed(nals) <==>
            (|nals[0]| != 1 && !(256 <= |nals[0]| < 512)) || Singletons(nals)
  {
    hide CodeLen, NalsFrom, Prefixed, Encoded, Rewrite;
    var s := Encoded(nals);
    assert s + [] == s;
    SniffedExactly(nals, []);
    RewriteOfEncoded(nals, []);
    FirstRecordLength(nals);
    if Singletons(nals) {
      SingletonsSurvive(nals);
    } else if |nals[0]| == 1 {
      if Split(s) == Prefixed(nals) {
        PermittedBehindLongCode(nals);
      }
    } else if 256 <= |nals[0]| < 512 {
      PermittedBehindShortCode(nals);
    }
  }

  lemma SplitIsProper(s: seq<Byte>, nals: seq<seq<Byte>>)
    requires Split(s) == Prefixed(nals)
    ensures Proper(nals)
  {
    hide Split;
    SplitIsCodeFree(s);
    forall i | 0 <= i < |nals| ensures nals[i] != [] && CodeFree(nals[i]) {
      PrefixedAt(nals, i);
      assert IsFramedNal(START_CODE + nals[i]);
      assert (START_CODE + nals[i])[4..] == nals[i];
    }
  }

  /** A sample of NALs shorter than 65536 bytes is rewritten faithfully exactly when its first
      length is neither 1 nor in 256..511, or all its NALs are of one byte. */
  lemma ShortSampleExactly(nals: seq<seq<Byte>>)
    requires nals != [] && Short(nals)
    ensures Representable(nals)
    ensures Rewritten(Encoded(nals)) == Prefixed(nals) <==>
            (|nals[0]| != 1 && !(256 <= |nals[0]| < 512)) || Singletons(nals)
  {
    hide CodeLen, NalsFrom, Prefixed, Encoded, CodeFree, Rewrite;
    var s := Encoded(nals);
    assert s + [] == s;
    SniffedExactly(nals, []);
    RewriteOfEncoded(nals, []);
    if Singletons(nals) {
      SingletonsSurvive(nals);
    } else if IsAnnexB(s) && Split(s) == Prefixed(nals) {
      SplitIsProper(s, nals);
      FirstRecord(nals);
      CodeLenBytes(s);
      if |nals[0]| == 1 {
        BehindLongCodeSingletons(nals);
      } else {
        BehindShortCodeWrong(nals);
      }
    }
  }

  // ---------------------------------------------------------------------------------------------
  // Beyond both
  // ---------------------------------------------------------------------------------------------

  function Repeat(b: Byte, n: nat): (s: seq<Byte>)
    ensures |s| == n
  {
    seq(n, _ => b)
  }

  /** `n` bytes, alternately 0 and 1. */
  function Alternating(n: nat): (s: seq<Byte>)
    ensures |s| == n
  {
    seq(n, i => i % 2)
  }

  /** NALs of 256, 256, 65536 and 16777217 bytes that are neither short nor permitted. */
  function LuckyNals(): (nals: seq<seq<Byte>>)
    ensures Representable(nals) && nals != []
  {
    [Repeat(0, 256), Alternating(256), Repeat(1, 0x1_0000), Repeat(2, 0x100_0001)]
  }

  /** How the splitter reads them: the first code begins one length field, later ones end another
      or begin a NAL. */
  function LuckyUnits(): seq<Unit> {
    [Unit(false, Repeat(0, 256)), Unit(true, []), Unit(false, Alternating(256)),
     Unit(false, Repeat(1, 0x1_0000)), Unit(false, Repeat(2, 0x100_0001))]
  }

  lemma Shifted(b: Byte, n: nat)
    ensures [b] + Repeat(b, n) == Repeat(b, n) + [b]
  {
  }

  lemma AlternatingShifted(n: nat)
    requires n % 2 == 0
    ensures [0, 1] + Alternating(n) == Alternating(n) + [0, 1]
  {
  }

  lemma LuckyLengths()
    ensures BigEndian32(256) == [0, 0, 1, 0] && BigEndian32(0x1_0000) == [0, 1, 0, 0]
    ensures BigEndian32(0x100_0001) == [1, 0, 0, 1]
  {
  }

  lemma LuckyEncoded()
    ensures Encoded(LuckyNals())
            == [0, 0, 1, 0] + Repeat(0, 256) + ([0, 0, 1, 0] + Alternating(256)
               + ([0, 1, 0, 0] + Repeat(1, 0x1_0000) + ([1, 0, 0, 1] + Repeat(2, 0x100_0001))))
  {
    hide BigEndian32, Repeat, Alternating, Encoded;
    LuckyLengths();
    NothingEncoded();
    var nals := LuckyNals();
    EncodedUnfold(nals);
    EncodedUnfold(nals[1..]);
    EncodedUnfold(nals[2..]);
    EncodedUnfold(nals[3..]);
    assert nals[1..][1..] == nals[2..] && nals[2..][1..] == nals[3..];
    assert nals[3..][1..] == nals[4..] && |nals| == 4;
    assert [1, 0, 0, 1] + nals[3] + [] == [1, 0, 0, 1] + nals[3];
  }

  lemma LuckyJoined()
    ensures Join(LuckyUnits())
            == [0, 0, 1] + Repeat(0, 256) + ([0, 0, 0, 1] + ([0, 0, 1] + Alternating(256)
               + ([0, 0, 1] + Repeat(1, 0x1_0000) + ([0, 0, 1] + Repeat(2, 0x100_0001)))))
  {
    hide Repeat, Alternating, Join;
    var units := LuckyUnits();
    JoinUnfold(units);
    JoinUnfold(units[1..]);
    JoinUnfold(units[2..]);
    JoinUnfold(units[3..]);
    JoinUnfold(units[4..]);
    EmptyJoin();
    assert units[1..][1..] == units[2..] && units[2..][1..] == units[3..]
           && units[3..][1..] == units[4..] && units[4..][1..] == [];
    assert units[4].nal + [] == units[4].nal;
  }

  lemma Regroup(z: seq<Byte>, a: seq<Byte>, one: seq<Byte>, end: seq<Byte>)
    requires [0] + z == z + [0] && [0, 1] + a == a + [0, 1] && [1] + one == one + [1]
    ensures [0, 0, 1, 0] + z + ([0, 0, 1, 0] + a + ([0, 1, 0, 0] + one + ([1, 0, 0, 1] + end)))
            == [0, 0, 1] + z + ([0, 0, 0, 1] + ([0, 0, 1] + a + ([0, 0, 1] + one + ([0, 0, 1] + end))))
  {
    var ones := [0, 0, 1] + one + ([0, 0, 1] + end);
    assert [0, 1, 0, 0] + one + ([1, 0, 0, 1] + end) == [0, 1, 0, 0] + (one + [1]) + ([0, 0, 1] + end)
           == [0, 1, 0, 0] + ([1] + one) + ([0, 0, 1] + end) == [0, 1] + ones;
    assert [0, 0, 1, 0] + a + ([0, 1] + ones) == [0, 0, 1, 0] + (a + [0, 1]) + ones
           == [0, 0, 1, 0] + ([0, 1] + a) + ones == [0, 0, 1] + ([0, 0, 1] + a + ones);
    var rest := [0, 0, 1] + a + ones;
    assert [0, 0, 1, 0] + z + ([0, 0, 1] + rest) == [0, 0, 1] + ([0] + z) + ([0, 0, 1] + rest)
           == [0, 0, 1] + (z + [0]) + ([0, 0, 1] + rest) == [0, 0, 1] + z + ([0, 0, 0, 1] + rest);
  }

  lemma LuckyRecovered()
    ensures AllCodeFree(LuckyUnits()) && Recovered(LuckyUnits()) == Prefixed(LuckyNals())
  {
    var units, nals := LuckyUnits(), LuckyNals();
    assert Alternating(256)[255] == 1;
    forall i | 0 <= i < |units| ensures CodeFree(units[i].nal) {
    }
    hide Repeat, Alternating, CodeFree;
    assert units[1..][1..] == units[2..] && units[2..][1..] == units[3..]
           && units[3..][1..] == units[4..] && units[4..][1..] == [];
    assert nals[1..][1..] == nals[2..] && nals[2..][1..] == nals[3..];
    assert nals[3..][1..] == nals[4..] && |nals| == 4;
    assert Recovered(units[4..]) == Prefixed(nals[3..]);
    assert Recovered(units[3..]) == Prefixed(nals[2..]);
    assert Recovered(units[2..]) == Prefixed(nals[1..]);
    assert Recovered(units[1..]) == Prefixed(nals[1..]);
  }

  /** The condition of the two theorems does not extend to every sample: these NALs are sniffed
      for their first length, are not all of one byte, and still come out right. */
  lemma LuckySampleSurvives()
    ensures |LuckyNals()[0]| == 256 && !Singletons(LuckyNals())
    ensures Rewritten(Encoded(LuckyNals())) == Prefixed(LuckyNals())
  {
    hide Repeat, Alternating, Encoded, Split, Recovered, Join, Prefixed, Rewrite, LuckyUnits;
    var nals := LuckyNals();
    assert Encoded(nals) + [] == Encoded(nals);
    SniffedExactly(nals, []);
    LuckyEncoded();
    LuckyJoined();
    Shifted(0, 256);
    Shifted(1, 0x1_0000);
    AlternatingShifted(256);
    Regroup(Repeat(0, 256), Alternating(256), Repeat(1, 0x1_0000), Repeat(2, 0x100_0001));
    LuckyRecovered();
    SplitOfJoin(LuckyUnits());
  }
}
