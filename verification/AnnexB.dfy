/** Annex-B byte streams (ITU-T H.264, section B.1): finding NALs between 3- and 4-byte start
    codes, and joining them again. */
module AnnexB {
  import opened Bytes

  const START_CODE: seq<Byte> := [0, 0, 0, 1]
  const SHORT_START_CODE: seq<Byte> := [0, 0, 1]

  predicate IsAnnexB(buf: seq<Byte>) {
    START_CODE <= buf || SHORT_START_CODE <= buf
  }

  // ---------------------------------------------------------------------------------------------
  // Splitting, as one pass over the bytes
  // ---------------------------------------------------------------------------------------------

  /** The length of the start code `s` begins with, or 0. */
  function CodeLen(s: seq<Byte>): (n: nat)
    ensures n <= |s| && n <= 4
  {
    if START_CODE <= s then 4 else if SHORT_START_CODE <= s then 3 else 0
  }

  function Framed(nal: seq<Byte>): seq<seq<Byte>> {
    if nal == [] then [] else [START_CODE + nal]
  }

  /** The NALs of `s`, given the bytes `cur` of the NAL being read. */
  function NalsFrom(cur: seq<Byte>, s: seq<Byte>): seq<seq<Byte>>
    decreases |s|
  {
    if |s| < 3 then Framed(cur + s)
    else if CodeLen(s) > 0 then Framed(cur) + NalsFrom([], s[CodeLen(s)..])
    else NalsFrom(cur + [s[0]], s[1..])
  }

  /** Bytes before the first start code are dropped. */
  function Split(s: seq<Byte>): seq<seq<Byte>>
    decreases |s|
  {
    if |s| < 3 then []
    else if CodeLen(s) > 0 then NalsFrom([], s[CodeLen(s)..])
    else Split(s[1..])
  }

  // ---------------------------------------------------------------------------------------------
  // The two loops over positions
  // ---------------------------------------------------------------------------------------------

  /** A NAL's first byte and the length of the start code before it. */
  datatype Start = Start(begin: nat, code: nat)

  function StartsFrom(buf: seq<Byte>, i: nat): seq<Start>
    requires i <= |buf|
    decreases |buf| - i
  {
    if i + 3 > |buf| then []
    else if CodeLen(buf[i..]) > 0 then
      var n := CodeLen(buf[i..]);
      [Start(i + n, n)] + StartsFrom(buf, i + n)
    else StartsFrom(buf, i + 1)
  }

  ghost predicate StartsInside(buf: seq<Byte>, starts: seq<Start>) {
    forall i :: 0 <= i < |starts| ==> starts[i].code <= starts[i].begin <= |buf|
  }

  function EndOf(buf: seq<Byte>, starts: seq<Start>, i: nat): int
    requires i < |starts|
  {
    if i + 1 < |starts| then starts[i + 1].begin - starts[i + 1].code else |buf|
  }

  function Slice(buf: seq<Byte>, begin: nat, end: int): seq<seq<Byte>> {
    if begin >= end || end > |buf| then [] else [START_CODE + buf[begin..end]]
  }

  function Slices(buf: seq<Byte>, starts: seq<Start>): seq<seq<Byte>> {
    if starts == [] then []
    else Slice(buf, starts[0].begin, EndOf(buf, starts, 0)) + Slices(buf, starts[1..])
  }

  lemma {:induction false} StartsFromInside(buf: seq<Byte>, i: nat)
    requires i <= |buf|
    ensures StartsInside(buf, StartsFrom(buf, i))
    decreases |buf| - i
  {
    hide CodeLen;
    if i + 3 <= |buf| {
      if CodeLen(buf[i..]) > 0 {
        StartsFromInside(buf, i + CodeLen(buf[i..]));
      } else {
        StartsFromInside(buf, i + 1);
      }
    }
  }

  lemma SliceIsFramed(buf: seq<Byte>, begin: nat, end: nat)
    requires begin <= end <= |buf|
    ensures Slice(buf, begin, end) == Framed(buf[begin..end])
  {
  }

  lemma SlicesStep(buf: seq<Byte>, first: Start, later: seq<Start>)
    ensures Slices(buf, [first] + later)
            == Slice(buf, first.begin,
                     if later == [] then |buf| else later[0].begin - later[0].code)
               + Slices(buf, later)
  {
    hide Slice;
    var all := [first] + later;
    assert all != [] && all[0] == first && all[1..] == later;
    assert EndOf(buf, all, 0) == if later == [] then |buf| else later[0].begin - later[0].code;
  }

  /** Slicing between the starts found later is reading on with the NAL that began at `begin`. */
  lemma {:induction false} SlicesAreNals(buf: seq<Byte>, begin: nat, code: nat, i: nat)
    requires begin <= i <= |buf|
    ensures Slices(buf, [Start(begin, code)] + StartsFrom(buf, i))
            == NalsFrom(buf[begin..i], buf[i..])
    decreases |buf| - i
  {
    hide CodeLen, Framed, Slice, Slices;
    SlicesStep(buf, Start(begin, code), StartsFrom(buf, i));
    if i + 3 > |buf| {
      assert buf[begin..i] + buf[i..] == buf[begin..|buf|];
      SliceIsFramed(buf, begin, |buf|);
      NothingToSlice(buf);
    } else if CodeLen(buf[i..]) > 0 {
      var n := CodeLen(buf[i..]);
      SlicesAreNals(buf, i + n, n, i + n);
      SliceIsFramed(buf, begin, i);
      assert buf[i + n..i + n] == [];
      assert buf[i..][n..] == buf[i + n..];
    } else {
      SlicesAreNals(buf, begin, code, i + 1);
      SlicesStep(buf, Start(begin, code), StartsFrom(buf, i + 1));
      assert buf[begin..i] + [buf[i..][0]] == buf[begin..i + 1];
      assert buf[i..][1..] == buf[i + 1..];
    }
  }

  lemma NothingToSlice(buf: seq<Byte>)
    ensures Slices(buf, []) == []
  {
  }

  lemma {:induction false} SlicesAreSplit(buf: seq<Byte>, i: nat)
    requires i <= |buf|
    ensures Slices(buf, StartsFrom(buf, i)) == Split(buf[i..])
    decreases |buf| - i
  {
    hide CodeLen, Framed, Slice;
    if i + 3 <= |buf| {
      if CodeLen(buf[i..]) > 0 {
        var n := CodeLen(buf[i..]);
        SlicesAreNals(buf, i + n, n, i + n);
        assert buf[i + n..i + n] == [];
        assert buf[i..][n..] == buf[i + n..];
      } else {
        SlicesAreSplit(buf, i + 1);
        assert buf[i..][1..] == buf[i + 1..];
      }
    }
  }

  lemma StartsStep(buf: seq<Byte>, i: nat)
    requires i + 3 <= |buf|
    ensures var zeros := buf[i] == 0 && buf[i + 1] == 0;
            StartsFrom(buf, i) ==
            if zeros && i + 4 <= |buf| && buf[i + 2] == 0 && buf[i + 3] == 1
            then [Start(i + 4, 4)] + StartsFrom(buf, i + 4)
            else if zeros && buf[i + 2] == 1 then [Start(i + 3, 3)] + StartsFrom(buf, i + 3)
            else StartsFrom(buf, i + 1)
  {
    assert START_CODE <= buf[i..] <==>
           i + 4 <= |buf| && buf[i] == 0 && buf[i + 1] == 0 && buf[i + 2] == 0 && buf[i + 3] == 1;
    assert SHORT_START_CODE <= buf[i..] <==> buf[i] == 0 && buf[i + 1] == 0 && buf[i + 2] == 1;
  }

  method FindStarts(buf: seq<Byte>) returns (starts: seq<Start>)
    ensures starts == StartsFrom(buf, 0)
  {
    hide CodeLen, StartsFrom;
    starts := [];
    var i := 0;
    while i + 3 <= |buf|
      invariant i <= |buf|
      invariant StartsFrom(buf, 0) == starts + StartsFrom(buf, i)
      decreases |buf| - i
    {
      StartsStep(buf, i);
      if buf[i] == 0 && buf[i + 1] == 0 {
        if i + 4 <= |buf| && buf[i + 2] == 0 && buf[i + 3] == 1 {
          StartsSnoc(starts, Start(i + 4, 4), StartsFrom(buf, i + 4));
          starts := starts + [Start(i + 4, 4)];
          i := i + 4;
          continue;
        }
        if buf[i + 2] == 1 {
          StartsSnoc(starts, Start(i + 3, 3), StartsFrom(buf, i + 3));
          starts := starts + [Start(i + 3, 3)];
          i := i + 3;
          continue;
        }
      }
      i := i + 1;
    }
    NoMoreStarts(buf, i);
  }

  lemma StartsSnoc(starts: seq<Start>, next: Start, later: seq<Start>)
    ensures starts + [next] + later == starts + ([next] + later)
  {
  }

  lemma NoMoreStarts(buf: seq<Byte>, i: nat)
    requires i <= |buf| < i + 3
    ensures StartsFrom(buf, i) == []
  {
  }

  method AnnexBSplit(buf: seq<Byte>) returns (out: seq<seq<Byte>>)
    ensures out == Split(buf)
  {
    hide CodeLen, StartsFrom, Split, Slices, EndOf;
    var starts := FindStarts(buf);
    StartsFromInside(buf, 0);
    SlicesAreSplit(buf, 0);
    assert buf[0..] == buf && starts[0..] == starts;
    out := [];
    for idx := 0 to |starts|
      invariant Split(buf) == out + Slices(buf, starts[idx..])
    {
      SlicesStep(buf, starts[idx], starts[idx + 1..]);
      assert [starts[idx]] + starts[idx + 1..] == starts[idx..];
      var begin := starts[idx].begin;
      var end := if idx + 1 < |starts| then starts[idx + 1].begin - starts[idx + 1].code else |buf|;
      if begin >= end {
        continue;
      }
      var nal := buf[begin..end];
      out := out + [START_CODE + nal];
    }
    NothingToSlice(buf);
  }

  // ---------------------------------------------------------------------------------------------
  // Joining
  // ---------------------------------------------------------------------------------------------

  /** A NAL behind a start code of 4 or 3 bytes. */
  datatype Unit = Unit(long: bool, nal: seq<Byte>)

  function Code(long: bool): seq<Byte> {
    if long then START_CODE else SHORT_START_CODE
  }

  function Join(units: seq<Unit>): seq<Byte> {
    if units == [] then [] else Code(units[0].long) + units[0].nal + Join(units[1..])
  }

  predicate CodeAt(s: seq<Byte>, i: nat)
    requires i + 3 <= |s|
  {
    s[i] == 0 && s[i + 1] == 0 && s[i + 2] == 1
  }

  /** Section 7.4.1 of ITU-T H.264: no start code inside a NAL. */
  ghost predicate CodeFree(nal: seq<Byte>) {
    forall i: nat :: i + 3 <= |nal| ==> !CodeAt(nal, i)
  }

  ghost predicate AllCodeFree(units: seq<Unit>) {
    forall i :: 0 <= i < |units| ==> CodeFree(units[i].nal)
  }

  /** A NAL's trailing zero is read as part of a 3-byte code that follows it. */
  function Trimmed(nal: seq<Byte>, rest: seq<Unit>): seq<Byte> {
    if nal != [] && nal[|nal| - 1] == 0 && rest != [] && !rest[0].long then nal[..|nal| - 1]
    else nal
  }

  function Recovered(units: seq<Unit>): seq<seq<Byte>> {
    if units == [] then []
    else Framed(Trimmed(units[0].nal, units[1..])) + Recovered(units[1..])
  }

  lemma CodeLenBytes(s: seq<Byte>)
    ensures CodeLen(s) ==
            if |s| >= 4 && s[0] == 0 && s[1] == 0 && s[2] == 0 && s[3] == 1 then 4
            else if |s| >= 3 && s[0] == 0 && s[1] == 0 && s[2] == 1 then 3
            else 0
  {
    assert START_CODE <= s <==>
           |s| >= 4 && s[0] == 0 && s[1] == 0 && s[2] == 0 && s[3] == 1;
    assert SHORT_START_CODE <= s <==> |s| >= 3 && s[0] == 0 && s[1] == 0 && s[2] == 1;
  }

  lemma JoinStarts(rest: seq<Unit>)
    requires rest != []
    ensures |Join(rest)| >= |Code(rest[0].long)|
    ensures Join(rest)[..|Code(rest[0].long)|] == Code(rest[0].long)
    ensures Join(rest)[|Code(rest[0].long)|..] == rest[0].nal + Join(rest[1..])
  {
    hide Join;
    JoinUnfold(rest);
    Halves(Code(rest[0].long), rest[0].nal + Join(rest[1..]));
  }

  lemma JoinUnfold(rest: seq<Unit>)
    requires rest != []
    ensures Join(rest) == Code(rest[0].long) + (rest[0].nal + Join(rest[1..]))
  {
  }

  lemma Halves(a: seq<Byte>, b: seq<Byte>)
    ensures |a + b| >= |a| && (a + b)[..|a|] == a && (a + b)[|a|..] == b
  {
  }

  lemma CodeLenAtJoin(rest: seq<Unit>)
    requires rest != []
    ensures CodeLen(Join(rest)) == |Code(rest[0].long)|
    ensures Join(rest)[CodeLen(Join(rest))..] == rest[0].nal + Join(rest[1..])
  {
    hide CodeLen, Join;
    var s, code := Join(rest), Code(rest[0].long);
    JoinStarts(rest);
    CodeLenBytes(s);
    assert forall i :: 0 <= i < |code| ==> s[i] == s[..|code|][i];
  }

  lemma CodeLenInside(x: seq<Byte>, rest: seq<Unit>)
    requires x != [] && CodeFree(x) && |x + Join(rest)| >= 3
    ensures CodeLen(x + Join(rest))
            == if x == [0] && rest != [] && !rest[0].long then 4 else 0
  {
    hide CodeLen, Join;
    var s := x + Join(rest);
    CodeLenBytes(s);
    if rest == [] {
      EmptyJoin();
    } else {
      var code := Code(rest[0].long);
      JoinStarts(rest);
      assert forall i :: 0 <= i < |code| ==> Join(rest)[i] == Join(rest)[..|code|][i];
      assert s[|x|] == 0 && s[|x| + 1] == 0 && (s[|x| + 2] == 1 <==> !rest[0].long);
    }
    assert |x| >= 3 ==> !CodeAt(x, 0);
    assert |x| >= 4 ==> !CodeAt(x, 1);
  }

  lemma NalsAtCode(cur: seq<Byte>, s: seq<Byte>, n: nat, tail: seq<Byte>)
    requires |s| >= 3 && CodeLen(s) == n > 0 && s[n..] == tail
    ensures NalsFrom(cur, s) == Framed(cur) + NalsFrom([], tail)
  {
  }

  lemma TrimmedStep(cur: seq<Byte>, x: seq<Byte>, rest: seq<Unit>)
    requires x != [] && (|x| > 1 || x == Trimmed(x, rest))
    ensures cur + [x[0]] + Trimmed(x[1..], rest) == cur + Trimmed(x, rest)
  {
  }

  /** Reading NAL bytes `x` and whatever units follow. */
  lemma {:induction false} NalsFromJoin(cur: seq<Byte>, x: seq<Byte>, rest: seq<Unit>)
    requires CodeFree(x) && AllCodeFree(rest)
    ensures NalsFrom(cur, x + Join(rest)) == Framed(cur + Trimmed(x, rest)) + Recovered(rest)
    decreases |rest|, |x| + 1
  {
    hide CodeLen, Framed, Join, CodeFree;
    var s := x + Join(rest);
    if x != [] && |s| >= 3 && CodeLen(s) == 0 {
      CodeLenInside(x, rest);
      assert s[1..] == x[1..] + Join(rest);
      CodeFreeTail(x);
      NalsFromJoin(cur + [x[0]], x[1..], rest);
      TrimmedStep(cur, x, rest);
    } else if rest == [] {
      EmptyJoin();
      assert s == x;
      ShortTail(cur, x);
    } else {
      NalsFromJoinAtCode(cur, x, rest);
    }
  }

  lemma ShortTail(cur: seq<Byte>, x: seq<Byte>)
    requires CodeFree(x) && (x == [] || |x| < 3 || CodeLen(x) > 0)
    ensures |x| < 3 && NalsFrom(cur, x) == Framed(cur + x) + []
  {
    CodeLenBytes(x);
    assert |x| >= 3 ==> !CodeAt(x, 0);
    assert |x| >= 4 ==> !CodeAt(x, 1);
  }

  /** At a start code the NAL being read ends. */
  lemma {:induction false} NalsFromJoinAtCode(cur: seq<Byte>, x: seq<Byte>, rest: seq<Unit>)
    requires CodeFree(x) && AllCodeFree(rest) && rest != []
    requires x == [] || |x + Join(rest)| < 3 || CodeLen(x + Join(rest)) > 0
    ensures NalsFrom(cur, x + Join(rest)) == Framed(cur + Trimmed(x, rest)) + Recovered(rest)
    decreases |rest|, 0
  {
    hide CodeLen, Framed, Join, CodeFree, NalsFrom, Trimmed;
    var s := x + Join(rest);
    var nal, later := rest[0].nal, rest[1..];
    CodeLenAtJoin(rest);
    NalsFromJoin([], nal, later);
    assert [] + Trimmed(nal, later) == Trimmed(nal, later);
    assert Recovered(rest) == Framed(Trimmed(nal, later)) + Recovered(later);
    if x == [] {
      assert s == Join(rest);
      NalsAtCode(cur, s, CodeLen(s), nal + Join(later));
    } else {
      CodeLenInside(x, rest);
      assert s[4..] == Join(rest)[3..];
      NalsAtCode(cur, s, 4, nal + Join(later));
    }
    NothingTrimmed(x, rest);
    assert cur + [] == cur;
  }

  lemma NothingTrimmed(x: seq<Byte>, rest: seq<Unit>)
    ensures Trimmed([], rest) == []
    ensures x == [0] && rest != [] && !rest[0].long ==> Trimmed(x, rest) == []
  {
  }

  lemma EmptyJoin()
    ensures Join([]) == []
  {
  }

  lemma CodeFreeTail(x: seq<Byte>)
    requires x != [] && CodeFree(x)
    ensures CodeFree(x[1..])
  {
    forall i: nat | i + 3 <= |x| - 1 ensures !CodeAt(x[1..], i) {
      assert !CodeAt(x, i + 1);
    }
  }

  /** Splitting a join of code-free NALs gives them back in order, less a zero that ends one in
      front of a 3-byte code, and less the empty ones. */
  lemma SplitOfJoin(units: seq<Unit>)
    requires AllCodeFree(units)
    ensures Split(Join(units)) == Recovered(units)
  {
    hide CodeLen;
    if units != [] {
      CodeLenAtJoin(units);
      NalsFromJoin([], units[0].nal, units[1..]);
      assert [] + Trimmed(units[0].nal, units[1..]) == Trimmed(units[0].nal, units[1..]);
    }
  }

  // ---------------------------------------------------------------------------------------------
  // What comes out of any buffer
  // ---------------------------------------------------------------------------------------------

  ghost predicate IsFramedNal(o: seq<Byte>) {
    |o| > 4 && o[..4] == START_CODE && CodeFree(o[4..])
  }

  ghost predicate NoCodeBefore(s: seq<Byte>, n: nat) {
    forall i: nat :: i < n && i + 3 <= |s| ==> !CodeAt(s, i)
  }

  lemma FramedIsNal(cur: seq<Byte>)
    requires CodeFree(cur)
    ensures forall o :: o in Framed(cur) ==> IsFramedNal(o)
  {
    assert (START_CODE + cur)[4..] == cur;
  }

  lemma {:induction false} NalsAreCodeFree(cur: seq<Byte>, s: seq<Byte>)
    requires NoCodeBefore(cur + s, |cur|)
    ensures forall o :: o in NalsFrom(cur, s) ==> IsFramedNal(o)
    decreases |s|
  {
    hide Framed, IsFramedNal;
    if |s| < 3 {
      FramedIsNal(cur + s);
    } else if CodeLen(s) > 0 {
      forall i: nat | i + 3 <= |cur| ensures !CodeAt(cur, i) {
        assert !CodeAt(cur + s, i);
      }
      FramedIsNal(cur);
      NalsAreCodeFree([], s[CodeLen(s)..]);
    } else {
      assert cur + [s[0]] + s[1..] == cur + s;
      CodeLenBytes(s);
      assert !CodeAt(cur + s, |cur|);
      NalsAreCodeFree(cur + [s[0]], s[1..]);
    }
  }

  lemma {:induction false} SplitIsCodeFree(s: seq<Byte>)
    ensures forall o :: o in Split(s) ==> IsFramedNal(o)
    decreases |s|
  {
    if |s| >= 3 {
      if CodeLen(s) > 0 {
        NalsAreCodeFree([], s[CodeLen(s)..]);
      } else {
        SplitIsCodeFree(s[1..]);
      }
    }
  }

  /** Bytes before the first start code are dropped. */
  lemma {:induction false} LeadingBytesDropped(lead: seq<Byte>, s: seq<Byte>)
    requires CodeLen(s) > 0 && NoCodeBefore(lead + s, |lead|)
    ensures Split(lead + s) == Split(s)
  {
    CodeLenBytes(s);
    var all := lead + s;
    CodeLenBytes(all);
    if lead == [] {
      assert all == s;
    } else if CodeLen(all) > 0 {
      assert !CodeAt(all, 0);
      assert |lead| > 1 ==> !CodeAt(all, 1);
      assert lead == [0] && all[4..] == s[3..];
    } else {
      assert all[1..] == lead[1..] + s;
      forall i: nat | i < |lead| - 1 && i + 3 <= |all| - 1 ensures !CodeAt(all[1..], i) {
        assert !CodeAt(all, i + 1);
      }
      LeadingBytesDropped(lead[1..], s);
    }
  }

  /** Each NAL behind a 4-byte code. */
  function Prefixed(nals: seq<seq<Byte>>): seq<seq<Byte>> {
    if nals == [] then [] else [START_CODE + nals[0]] + Prefixed(nals[1..])
  }

  /** The NALs that were joined. */
  function NalsOf(units: seq<Unit>): (nals: seq<seq<Byte>>)
    ensures |nals| == |units| && forall i :: 0 <= i < |units| ==> nals[i] == units[i].nal
  {
    if units == [] then [] else [units[0].nal] + NalsOf(units[1..])
  }

  /** Non-empty, no start code inside, no trailing zero in front of a 3-byte code. */
  ghost predicate Separable(units: seq<Unit>) {
    forall i :: 0 <= i < |units| ==>
      && units[i].nal != []
      && CodeFree(units[i].nal)
      && (units[i].nal[|units[i].nal| - 1] == 0 && i + 1 < |units| ==> units[i + 1].long)
  }

  lemma SeparableStep(units: seq<Unit>)
    requires units != []
    requires forall i :: 0 <= i < |units| ==> units[i].nal != [] && CodeFree(units[i].nal)
    ensures Separable(units) <==>
            Separable(units[1..]) && Trimmed(units[0].nal, units[1..]) == units[0].nal
  {
    hide CodeFree;
    var rest := units[1..];
    assert forall i :: 0 <= i < |rest| ==> rest[i] == units[i + 1];
    assert forall i :: 0 < i < |units| ==> units[i] == rest[i - 1];
    assert rest != [] ==> rest[0] == units[1];
  }

  lemma FlattenCons(nal: seq<Byte>, outs: seq<seq<Byte>>)
    ensures |Flatten([START_CODE + nal] + outs)| == 4 + |nal| + |Flatten(outs)|
    ensures |Flatten(Framed(nal) + outs)| <= 4 + |nal| + |Flatten(outs)|
    ensures nal != [] ==> Framed(nal) + outs == [START_CODE + nal] + outs
  {
    assert ([START_CODE + nal] + outs)[1..] == outs;
    if nal == [] {
      assert Framed(nal) + outs == outs;
    }
  }

  lemma {:induction false} RecoveredBytes(units: seq<Unit>)
    requires forall i :: 0 <= i < |units| ==> units[i].nal != [] && CodeFree(units[i].nal)
    ensures |Flatten(Recovered(units))| <= |Flatten(Prefixed(NalsOf(units)))|
    ensures Separable(units) ==> Recovered(units) == Prefixed(NalsOf(units))
    ensures |Flatten(Recovered(units))| == |Flatten(Prefixed(NalsOf(units)))| ==> Separable(units)
  {
    hide CodeFree, Separable, Flatten, Framed;
    if units == [] {
      assert Separable(units) by { NothingSeparable(); }
    } else {
      var rest := units[1..];
      RecoveredBytes(rest);
      SeparableStep(units);
      var t := Trimmed(units[0].nal, rest);
      FlattenCons(t, Recovered(rest));
      FlattenCons(units[0].nal, Prefixed(NalsOf(rest)));
      assert NalsOf(units)[1..] == NalsOf(rest);
    }
  }

  lemma NothingSeparable()
    ensures Separable([])
  {
  }

  lemma {:induction false} PrefixedAt(nals: seq<seq<Byte>>, i: nat)
    requires i < |nals|
    ensures START_CODE + nals[i] in Prefixed(nals)
  {
    if i == 0 {
    } else {
      PrefixedAt(nals[1..], i - 1);
    }
  }

  /** Splitting undoes joining exactly when every NAL is non-empty, holds no start code and does
      not end in zero in front of a 3-byte code. */
  lemma SplitUndoesJoinExactly(units: seq<Unit>)
    ensures Split(Join(units)) == Prefixed(NalsOf(units)) <==> Separable(units)
  {
    if Split(Join(units)) == Prefixed(NalsOf(units)) {
      SplitIsCodeFree(Join(units));
      forall i | 0 <= i < |units| ensures units[i].nal != [] && CodeFree(units[i].nal) {
        PrefixedAt(NalsOf(units), i);
        assert IsFramedNal(START_CODE + units[i].nal);
        assert (START_CODE + units[i].nal)[4..] == units[i].nal;
      }
      SplitOfJoin(units);
      RecoveredBytes(units);
    }
    if Separable(units) {
      SplitOfJoin(units);
      RecoveredBytes(units);
    }
  }

  ghost predicate AllFramed(outs: seq<seq<Byte>>) {
    forall i :: 0 <= i < |outs| ==> |outs[i]| >= 4 && outs[i][..4] == START_CODE
  }

  function LongUnits(nals: seq<seq<Byte>>): (units: seq<Unit>)
    ensures |units| == |nals|
    ensures forall i :: 0 <= i < |nals| ==> units[i] == Unit(true, nals[i])
  {
    if nals == [] then [] else [Unit(true, nals[0])] + LongUnits(nals[1..])
  }

  lemma {:induction false} LongUnitsJoin(nals: seq<seq<Byte>>)
    ensures Join(LongUnits(nals)) == Flatten(Prefixed(nals)) && NalsOf(LongUnits(nals)) == nals
  {
    if nals == [] {
    } else {
      LongUnitsJoin(nals[1..]);
      assert LongUnits(nals)[1..] == LongUnits(nals[1..]);
    }
  }

  /** NALs put together behind 4-byte codes come apart again exactly when none is empty or holds a
      start code. */
  lemma SplitUndoesPrefixExactly(nals: seq<seq<Byte>>)
    ensures Split(Flatten(Prefixed(nals))) == Prefixed(nals) <==>
            forall i :: 0 <= i < |nals| ==> nals[i] != [] && CodeFree(nals[i])
  {
    hide Split, CodeFree;
    LongUnitsJoin(nals);
    SplitUndoesJoinExactly(LongUnits(nals));
    assert forall i :: 0 <= i < |nals| ==> LongUnits(nals)[i].nal == nals[i];
  }

  function Bodies(outs: seq<seq<Byte>>): (nals: seq<seq<Byte>>)
    requires AllFramed(outs)
    ensures |nals| == |outs| && forall i :: 0 <= i < |outs| ==> nals[i] == outs[i][4..]
  {
    if outs == [] then [] else [outs[0][4..]] + Bodies(outs[1..])
  }

  lemma {:induction false} BodiesPrefixed(outs: seq<seq<Byte>>)
    requires AllFramed(outs)
    ensures Prefixed(Bodies(outs)) == outs
  {
    if outs == [] {
    } else {
      BodiesPrefixed(outs[1..]);
      assert outs[0] == outs[0][..4] + outs[0][4..];
    }
  }

  /** Whatever the buffer, splitting the concatenated output again gives the same output. */
  lemma SplitIdempotent(buf: seq<Byte>)
    ensures Split(Flatten(Split(buf))) == Split(buf)
  {
    hide Split, CodeFree, Bodies;
    var outs := Split(buf);
    SplitIsCodeFree(buf);
    forall i | 0 <= i < |outs| ensures IsFramedNal(outs[i]) {
      assert outs[i] in outs;
    }
    BodiesPrefixed(outs);
    SplitUndoesPrefixExactly(Bodies(outs));
  }
}
