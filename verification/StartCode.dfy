/**
  NAL units in a byte stream with start codes: the matcher of src/nalunit.cpp and the
  splitting loop of src/h264rtppacketizer.cpp, against the plain meaning of a start code.
 */
module StartCode {
  import opened Bits

  /** The separators that are start codes; `Either` is the source's StartSequence. */
  datatype Separator = Long | Short | Either {
    predicate DetectShort() { this != Long }
    predicate DetectLong() { this != Short }

    /** `addSeparator` of the depacketizers. */
    function Code(): Bytes {
      if this == Short then [0, 0, 1] else [0, 0, 0, 1]
    }
  }

  datatype Match = NoMatch | FirstZero | SecondZero | ThirdZero | ShortMatch | LongMatch {
    predicate Found() { ShortMatch? || LongMatch? }

    function Length(): nat {
      if LongMatch? then 4 else 3
    }
  }

  /** `StartSequenceMatchSucc` */
  function Succ(m: Match, b: Byte, sep: Separator): Match {
    match m
    case NoMatch => if b == 0 then FirstZero else NoMatch
    case FirstZero => if b == 0 then SecondZero else NoMatch
    case SecondZero =>
      if b == 0 && sep.DetectLong() then ThirdZero
      else if b == 0 && sep.DetectShort() then SecondZero
      else if b == 1 && sep.DetectShort() then ShortMatch
      else NoMatch
    case ThirdZero =>
      if b == 0 && sep.DetectLong() then ThirdZero
      else if b == 1 && sep.DetectLong() then LongMatch
      else NoMatch
    case ShortMatch => ShortMatch
    case LongMatch => LongMatch
  }

  // ---------------------------------------------------------------- what a start code is

  /** The last bytes of `r` are a start code of mode `sep`. */
  predicate EndsInCode(sep: Separator, r: Bytes) {
    var n := |r|;
    && n >= 3 && r[n - 1] == 1 && r[n - 2] == 0 && r[n - 3] == 0
    && (sep == Long ==> n >= 4 && r[n - 4] == 0)
  }

  /** No start code of mode `sep` anywhere in `r`. */
  ghost predicate CodeFree(sep: Separator, r: Bytes) {
    forall k :: 0 <= k <= |r| ==> !EndsInCode(sep, r[..k])
  }

  function TrailingZeros(r: Bytes): nat {
    if r == [] || r[|r| - 1] != 0 then 0 else 1 + TrailingZeros(r[..|r| - 1])
  }

  /** The matcher's state after `r`, as a count of zeros. */
  function ByZeros(sep: Separator, z: nat): Match {
    if z == 0 then NoMatch
    else if z == 1 then FirstZero
    else if z == 2 || sep == Short then SecondZero
    else ThirdZero
  }

  function Joined(sep: Separator, nals: seq<Bytes>): Bytes {
    if nals == [] then [] else Joined(sep, nals[..|nals| - 1]) + sep.Code() + nals[|nals| - 1]
  }

  lemma {:induction false} AtLeastZeros(r: Bytes, k: nat)
    ensures TrailingZeros(r) >= k <==> |r| >= k && forall j :: |r| - k <= j < |r| ==> r[j] == 0
    decreases k
  {
    if k > 0 && r != [] {
      AtLeastZeros(r[..|r| - 1], k - 1);
    }
  }

  /** One byte more: the matcher counts zeros and finds exactly the codes. */
  lemma Track(sep: Separator, r: Bytes, b: Byte)
    ensures var m := Succ(ByZeros(sep, TrailingZeros(r)), b, sep);
            && (m.Found() <==> EndsInCode(sep, r + [b]))
            && (!m.Found() ==> m == ByZeros(sep, TrailingZeros(r + [b])))
            && (m.Found() ==> m.LongMatch? == (sep != Short && TrailingZeros(r) >= 3))
  {
    assert (r + [b])[..|r|] == r;
    AtLeastZeros(r, 2);
    AtLeastZeros(r, 3);
  }

  // ---------------------------------------------------------------- splitting

  /** The units from `start` on, `m` being the matcher's state at index `i`. */
  function SplitFrom(sep: Separator, frame: Bytes, start: nat, i: nat, m: Match): (units: seq<Bytes>)
    requires start <= i <= |frame| && m == ByZeros(sep, TrailingZeros(frame[start..i]))
    ensures units != []
    decreases |frame| - i
  {
    if i == |frame| then [frame[start..]]
    else
      assert frame[start..i] + [frame[i]] == frame[start..i + 1];
      Track(sep, frame[start..i], frame[i]);
      var m' := Succ(m, frame[i], sep);
      if m'.Found() then
        MatchIsInside(sep, frame[start..i]);
        [frame[start..i + 1 - m'.Length()]] + SplitFrom(sep, frame, i + 1, i + 1, NoMatch)
      else
        SplitFrom(sep, frame, start, i + 1, m')
  }

  lemma {:induction false} TrailingBound(r: Bytes)
    ensures TrailingZeros(r) <= |r|
  {
    if r != [] && r[|r| - 1] == 0 {
      TrailingBound(r[..|r| - 1]);
    }
  }

  lemma MatchIsInside(sep: Separator, r: Bytes)
    ensures var m := Succ(ByZeros(sep, TrailingZeros(r)), 1, sep);
            m.Found() ==> m.Length() <= |r| + 1
  {
    TrailingBound(r);
  }

  /** The index just behind the first start code, or the end of the frame. */
  function FirstCode(sep: Separator, frame: Bytes, i: nat, m: Match): (k: nat)
    requires i <= |frame|
    ensures i <= k <= |frame|
    decreases |frame| - i
  {
    if i == |frame| then i
    else
      var m' := Succ(m, frame[i], sep);
      if m'.Found() then i + 1 else FirstCode(sep, frame, i + 1, m')
  }

  function Split(sep: Separator, frame: Bytes): seq<Bytes> {
    var k := FirstCode(sep, frame, 0, NoMatch);
    SplitFrom(sep, frame, k, k, NoMatch)
  }

  /** The first loop of `splitFrame`. */
  method SkipToFirst(sep: Separator, frame: Bytes) returns (index: nat)
    ensures index == FirstCode(sep, frame, 0, NoMatch)
  {
    var m := NoMatch;
    index := 0;
    while index < |frame|
      invariant index <= |frame|
      invariant FirstCode(sep, frame, index, m) == FirstCode(sep, frame, 0, NoMatch)
    {
      m := Succ(m, frame[index], sep);
      index := index + 1;
      if m.Found() {
        break;
      }
    }
  }

  /** `splitFrame` in the start-code modes. */
  method SplitFrame(sep: Separator, frame: Bytes) returns (nalus: seq<Bytes>)
    ensures nalus == Split(sep, frame)
  {
    var index := SkipToFirst(sep, frame);
    var m := NoMatch;
    var naluStart := index;
    ghost var all := Split(sep, frame);
    FreshStart(sep, frame, index);
    nalus := [];
    hide Succ, ByZeros, TrailingZeros, EndsInCode, FirstCode;
    while index < |frame|
      invariant 0 <= naluStart <= index <= |frame|
      invariant m == ByZeros(sep, TrailingZeros(frame[naluStart..index]))
      invariant nalus + SplitFrom(sep, frame, naluStart, index, m) == all
    {
      ScanStep(sep, frame, naluStart, index, m);
      m := Succ(m, frame[index], sep);
      if m.Found() {
        var naluEnd := index + 1 - m.Length();
        ghost var unit, rest := [frame[naluStart..naluEnd]], SplitFrom(sep, frame, index + 1, index + 1, NoMatch);
        assert nalus + (unit + rest) == (nalus + unit) + rest;
        m := NoMatch;
        nalus := nalus + [frame[naluStart..naluEnd]];
        naluStart := index + 1;
      }
      index := index + 1;
    }
    nalus := nalus + [frame[naluStart..]];
  }

  // ---------------------------------------------------------------- splitting undoes joining

  lemma PrefixCodeFree(sep: Separator, r: Bytes, k: nat)
    requires k <= |r| && CodeFree(sep, r)
    ensures CodeFree(sep, r[..k])
  {
    forall j | 0 <= j <= k
      ensures !EndsInCode(sep, r[..k][..j])
    {
      assert r[..k][..j] == r[..j];
    }
  }

  lemma ExtendCodeFree(sep: Separator, r: Bytes, b: Byte)
    requires CodeFree(sep, r) && !EndsInCode(sep, r + [b])
    ensures CodeFree(sep, r + [b])
  {
    forall j | 0 <= j <= |r| + 1
      ensures !EndsInCode(sep, (r + [b])[..j])
    {
      assert j <= |r| ==> (r + [b])[..j] == r[..j];
      assert j == |r| + 1 ==> (r + [b])[..j] == r + [b];
    }
  }

  /** The matcher's invariant while it scans from `start`. */
  ghost predicate At(sep: Separator, frame: Bytes, start: nat, i: nat, m: Match) {
    start <= i <= |frame| && m == ByZeros(sep, TrailingZeros(frame[start..i]))
  }

  /** One step of the scan: on to the next byte, or a unit delivered and a fresh start. */
  lemma ScanStep(sep: Separator, frame: Bytes, start: nat, i: nat, m: Match)
    requires At(sep, frame, start, i, m) && i < |frame|
    ensures var m' := Succ(m, frame[i], sep);
            && (m'.Found() <==> EndsInCode(sep, frame[start..i] + [frame[i]]))
            && (m'.Found() ==>
                  && start <= i + 1 - m'.Length() && At(sep, frame, i + 1, i + 1, NoMatch)
                  && SplitFrom(sep, frame, start, i, m) ==
                     [frame[start..i + 1 - m'.Length()]] + SplitFrom(sep, frame, i + 1, i + 1, NoMatch))
            && (!m'.Found() ==>
                  && At(sep, frame, start, i + 1, m')
                  && SplitFrom(sep, frame, start, i, m) == SplitFrom(sep, frame, start, i + 1, m'))
  {
    hide Succ, EndsInCode, ByZeros;
    assert frame[start..i] + [frame[i]] == frame[start..i + 1];
    Track(sep, frame[start..i], frame[i]);
    MatchIsInside(sep, frame[start..i]);
    FreshStart(sep, frame, i + 1);
    assert frame[i] == 1 || !Succ(m, frame[i], sep).Found() by { FoundOnOne(sep, frame[start..i], frame[i]); }
  }

  lemma FoundOnOne(sep: Separator, r: Bytes, b: Byte)
    ensures b == 1 || !Succ(ByZeros(sep, TrailingZeros(r)), b, sep).Found()
  {
    hide TrailingZeros;
  }

  lemma FreshStart(sep: Separator, frame: Bytes, i: nat)
    requires i <= |frame|
    ensures At(sep, frame, i, i, NoMatch)
  {
    assert frame[i..i] == [];
  }

  /** Every unit that splitting delivers is free of start codes. */
  lemma {:induction false} UnitsAreCodeFree(sep: Separator, frame: Bytes, start: nat, i: nat, m: Match)
    requires At(sep, frame, start, i, m)
    requires CodeFree(sep, frame[start..i])
    ensures forall u :: u in SplitFrom(sep, frame, start, i, m) ==> CodeFree(sep, u)
    decreases |frame| - i
  {
    if i == |frame| {
      assert frame[start..i] == frame[start..];
    } else {
      hide Succ, CodeFree, EndsInCode, SplitFrom;
      var r, b := frame[start..i], frame[i];
      assert r + [b] == frame[start..i + 1];
      ScanStep(sep, frame, start, i, m);
      var m' := Succ(m, b, sep);
      if m'.Found() {
        var k := i + 1 - m'.Length();
        PrefixCodeFree(sep, r, k - start);
        assert r[..k - start] == frame[start..k];
        NothingIsCodeFree(sep);
        assert frame[i + 1..i + 1] == [];
        UnitsAreCodeFree(sep, frame, i + 1, i + 1, NoMatch);
      } else {
        ExtendCodeFree(sep, r, b);
        UnitsAreCodeFree(sep, frame, start, i + 1, m');
      }
    }
  }

  lemma NothingIsCodeFree(sep: Separator)
    ensures CodeFree(sep, [])
  {
  }

  lemma SplitIsCodeFree(sep: Separator, frame: Bytes)
    ensures |Split(sep, frame)| > 0
    ensures forall u :: u in Split(sep, frame) ==> CodeFree(sep, u)
  {
    var k := FirstCode(sep, frame, 0, NoMatch);
    assert frame[k..k] == [];
    UnitsAreCodeFree(sep, frame, k, k, NoMatch);
  }

  /** The matcher walks over bytes that end no code. */
  lemma {:induction false} Walk(sep: Separator, frame: Bytes, start: nat, i: nat, j: nat)
    requires start <= i <= j <= |frame|
    requires forall k :: i < k <= j ==> !EndsInCode(sep, frame[start..k])
    ensures SplitFrom(sep, frame, start, i, ByZeros(sep, TrailingZeros(frame[start..i]))) ==
            SplitFrom(sep, frame, start, j, ByZeros(sep, TrailingZeros(frame[start..j])))
    decreases j - i
  {
    hide Succ, ByZeros, EndsInCode, TrailingZeros;
    if i < j {
      assert frame[start..i] + [frame[i]] == frame[start..i + 1];
      Track(sep, frame[start..i], frame[i]);
      Walk(sep, frame, start, i + 1, j);
    }
  }

  /** A start code that ends a unit in mode `sep`. */
  predicate IsCode(sep: Separator, code: Bytes) {
    code == sep.Code() || (sep == Either && code == [0, 0, 1])
  }

  /** Inside a unit followed by a code only the code's last byte ends one. */
  lemma NoCodeBefore(sep: Separator, nal: Bytes, code: Bytes, k: nat)
    requires IsCode(sep, code) && CodeFree(sep, nal) && k < |nal| + |code|
    ensures !EndsInCode(sep, (nal + code)[..k])
  {
    if k <= |nal| {
      assert (nal + code)[..k] == nal[..k];
    } else {
      assert (nal + code)[k - 1] == 0;
    }
  }

  /** A code-free stretch, up to the last byte of the separator behind it if there is one. */
  lemma WalkUnit(sep: Separator, frame: Bytes, start: nat, stretch: Bytes, e: nat)
    requires start <= e == start + |stretch| <= |frame| && frame[start..e] == stretch
    requires forall k :: 0 <= k <= |stretch| ==> !EndsInCode(sep, stretch[..k])
    ensures SplitFrom(sep, frame, start, start, NoMatch) ==
            SplitFrom(sep, frame, start, e, ByZeros(sep, TrailingZeros(stretch)))
  {
    hide EndsInCode;
    forall k | start < k <= e
      ensures !EndsInCode(sep, frame[start..k])
    {
      assert frame[start..k] == frame[start..e][..k - start];
    }
    assert frame[start..start] == [];
    Walk(sep, frame, start, start, e);
  }

  /** Whether a short code takes a unit's last zero for its own first. */
  predicate TakesZero(sep: Separator, nal: Bytes, code: Bytes) {
    sep == Either && code == [0, 0, 1] && nal != [] && nal[|nal| - 1] == 0
  }

  /** What is found of a unit that `code` follows. */
  function Found(sep: Separator, nal: Bytes, code: Bytes): Bytes {
    if TakesZero(sep, nal, code) then nal[..|nal| - 1] else nal
  }

  lemma SplitUnit(sep: Separator, frame: Bytes, start: nat, nal: Bytes, code: Bytes, e: nat)
    requires IsCode(sep, code) && e == start + |nal| + |code| <= |frame| && CodeFree(sep, nal)
    requires frame[start..e] == nal + code
    ensures SplitFrom(sep, frame, start, start, NoMatch) == [Found(sep, nal, code)] + SplitFrom(sep, frame, e, e, NoMatch)
  {
    hide Found;
    var whole := nal + code;
    var r := whole[..|whole| - 1];
    forall k | 0 <= k <= |r|
      ensures !EndsInCode(sep, r[..k])
    {
      assert r[..k] == whole[..k];
      NoCodeBefore(sep, nal, code, k);
    }
    assert frame[start..e - 1] == frame[start..e][..|r|] == r;
    WalkUnit(sep, frame, start, r, e - 1);
    CutHere(sep, frame, start, nal, code, e);
  }

  lemma Around(frame: Bytes, start: nat, nal: Bytes, code: Bytes, e: nat)
    requires code != [] && e == start + |nal| + |code| <= |frame| && frame[start..e] == nal + code
    ensures frame[start..start + |nal|] == nal
    ensures frame[start..e - 1] == nal + code[..|code| - 1] && frame[e - 1] == code[|code| - 1]
  {
    assert frame[start..start + |nal|] == frame[start..e][..|nal|];
    assert frame[start..e - 1] == frame[start..e][..e - 1 - start];
    assert frame[e - 1] == frame[start..e][e - 1 - start];
  }

  lemma CutHere(sep: Separator, frame: Bytes, start: nat, nal: Bytes, code: Bytes, e: nat)
    requires IsCode(sep, code) && e == start + |nal| + |code| <= |frame|
    requires frame[start..e] == nal + code
    ensures var r := frame[start..e - 1];
            SplitFrom(sep, frame, start, e - 1, ByZeros(sep, TrailingZeros(r))) ==
            [Found(sep, nal, code)] + SplitFrom(sep, frame, e, e, NoMatch)
  {
    hide Succ, ByZeros, SplitFrom, TrailingZeros, EndsInCode, Match.Length, Match.Found;
    var r := frame[start..e - 1];
    Around(frame, start, nal, code, e);
    ScanStep(sep, frame, start, e - 1, ByZeros(sep, TrailingZeros(r)));
    CodeIsFound(sep, nal, code, r);
    if TakesZero(sep, nal, code) {
      assert frame[start..start + |nal|][..|nal| - 1] == frame[start..start + |nal| - 1];
    }
  }

  /** The last byte of a code completes a match of its own length, or of one more zero. */
  lemma CodeIsFound(sep: Separator, nal: Bytes, code: Bytes, r: Bytes)
    requires IsCode(sep, code) && r == nal + code[..|code| - 1]
    ensures var m := Succ(ByZeros(sep, TrailingZeros(r)), 1, sep);
            m.Found() && m.Length() == if TakesZero(sep, nal, code) then 4 else |code|
  {
    assert |code| == 3 && nal != [] ==> r[|r| - 3] == nal[|nal| - 1];
    AtLeastZeros(r, |code| - 1);
    AtLeastZeros(r, 3);
    Track(sep, r, 1);
    hide TrailingZeros;
  }

  lemma Regroup(a: Bytes, b: Bytes, c: Bytes, d: Bytes)
    ensures ((a + b) + c) + d == a + ((b + c) + d)
  {
  }

  lemma JoinedBack(sep: Separator, nals: seq<Bytes>)
    requires nals != []
    ensures Joined(sep, nals) == Joined(sep, nals[..|nals| - 1]) + sep.Code() + nals[|nals| - 1]
  {
  }

  lemma {:induction false} JoinedFront(sep: Separator, nals: seq<Bytes>)
    requires nals != []
    ensures Joined(sep, nals) == sep.Code() + nals[0] + Joined(sep, nals[1..])
  {
    var n := |nals|;
    if n == 1 {
      assert nals[..0] == [] && nals[1..] == [];
    } else {
      JoinedFront(sep, nals[..n - 1]);
      assert nals[..n - 1][1..] == nals[1..][..n - 2];
      JoinedBack(sep, nals);
      JoinedBack(sep, nals[1..]);
      hide Joined, Separator.Code;
      Regroup(sep.Code() + nals[0], Joined(sep, nals[1..][..n - 2]), sep.Code(), nals[n - 1]);
    }
  }

  /** Units behind start codes of any kind. */
  function Mixed(codes: seq<Bytes>, nals: seq<Bytes>): Bytes
    requires |codes| == |nals|
  {
    if nals == [] then [] else codes[0] + nals[0] + Mixed(codes[1..], nals[1..])
  }

  lemma SplitAt(sep: Separator, frame: Bytes, k: nat)
    requires FirstCode(sep, frame, 0, NoMatch) == k
    ensures k <= |frame| && frame[k..k] == [] && Split(sep, frame) == SplitFrom(sep, frame, k, k, NoMatch)
  {
    hide SplitFrom, Succ;
  }

  lemma MixedFront(codes: seq<Bytes>, nals: seq<Bytes>)
    requires |codes| == |nals| > 0
    ensures Mixed(codes, nals) == codes[0] + (nals[0] + Mixed(codes[1..], nals[1..]))
  {
    var a, b, c := codes[0], nals[0], Mixed(codes[1..], nals[1..]);
    assert a + b + c == a + (b + c);
  }

  /** What is found of each unit. */
  function AllFound(sep: Separator, codes: seq<Bytes>, nals: seq<Bytes>): (r: seq<Bytes>)
    requires |codes| == |nals|
    ensures |r| == |nals|
  {
    seq(|nals|, i requires 0 <= i < |nals| => if i + 1 < |nals| then Found(sep, nals[i], codes[i + 1]) else nals[i])
  }

  lemma AllFoundFront(sep: Separator, codes: seq<Bytes>, nals: seq<Bytes>)
    requires |codes| == |nals| > 1
    ensures AllFound(sep, codes, nals) == [Found(sep, nals[0], codes[1])] + AllFound(sep, codes[1..], nals[1..])
  {
  }

  ghost predicate AllCodes(sep: Separator, codes: seq<Bytes>) {
    forall i :: 0 <= i < |codes| ==> IsCode(sep, codes[i])
  }

  lemma {:induction false} SplitMixedFrom(sep: Separator, frame: Bytes, start: nat, codes: seq<Bytes>, nals: seq<Bytes>)
    requires |codes| == |nals| > 0 && AllCodes(sep, codes) && forall u :: u in nals ==> CodeFree(sep, u)
    requires start <= |frame| && frame[start..] == nals[0] + Mixed(codes[1..], nals[1..])
    ensures SplitFrom(sep, frame, start, start, NoMatch) == AllFound(sep, codes, nals)
    decreases |nals|
  {
    hide EndsInCode, Succ, Found, IsCode;
    if |nals| == 1 {
      assert frame[start..] == nals[0] && frame[start..|frame|] == nals[0];
      assert CodeFree(sep, nals[0]);
      WalkUnit(sep, frame, start, nals[0], |frame|);
    } else {
      var nal, code := nals[0], codes[1];
      var tail := nals[1] + Mixed(codes[2..], nals[2..]);
      assert codes[1..][1..] == codes[2..] && nals[1..][1..] == nals[2..];
      assert Mixed(codes[1..], nals[1..]) == code + tail;
      assert frame[start..] == (nal + code) + tail;
      var e := start + |nal| + |code|;
      assert frame[start..e] == frame[start..][..|nal| + |code|] == nal + code;
      assert frame[e..] == frame[start..][|nal| + |code|..] == tail;
      SplitUnit(sep, frame, start, nal, code, e);
      SplitMixedFrom(sep, frame, e, codes[1..], nals[1..]);
      AllFoundFront(sep, codes, nals);
    }
  }

  /** The first loop ends behind the first code, or at the end when there is none. */
  lemma {:induction false} FirstCodeAt(sep: Separator, frame: Bytes, i: nat, e: nat)
    requires i < e <= |frame| || i == e == |frame|
    requires forall k :: i < k < e ==> !EndsInCode(sep, frame[..k])
    requires e < |frame| ==> EndsInCode(sep, frame[..e])
    ensures FirstCode(sep, frame, i, ByZeros(sep, TrailingZeros(frame[..i]))) == e
    decreases e - i
  {
    hide EndsInCode, ByZeros, TrailingZeros, Succ;
    if i < e {
      assert frame[..i] + [frame[i]] == frame[..i + 1];
      Track(sep, frame[..i], frame[i]);
      if i + 1 < e {
        FirstCodeAt(sep, frame, i + 1, e);
      }
    }
  }

  lemma NoZeros(sep: Separator)
    ensures ByZeros(sep, TrailingZeros([])) == NoMatch
  {
  }

  lemma FirstCodeBehind(sep: Separator, lead: Bytes, code: Bytes, tail: Bytes)
    requires IsCode(sep, code) && CodeFree(sep, lead)
    ensures FirstCode(sep, lead + code + tail, 0, NoMatch) == |lead| + |code|
  {
    hide FirstCode, ByZeros, TrailingZeros, CodeFree;
    var frame, e := lead + code + tail, |lead| + |code|;
    forall k | 0 < k < e
      ensures !EndsInCode(sep, frame[..k])
    {
      NoCodeBefore(sep, lead, code, k);
      assert frame[..k] == (lead + code)[..k];
    }
    assert frame[..e] == lead + code;
    assert frame[..0] == [];
    NoZeros(sep);
    FirstCodeAt(sep, frame, 0, e);
  }

  /**
    Code-free units behind any mixture of codes are found, each but for a zero that a short code
    takes; what is ahead of the first code is not.
   */
  lemma SplitFindsMixed(sep: Separator, lead: Bytes, codes: seq<Bytes>, nals: seq<Bytes>)
    requires |codes| == |nals| > 0 && AllCodes(sep, codes) && forall u :: u in nals ==> CodeFree(sep, u)
    requires CodeFree(sep, lead)
    ensures Split(sep, lead + Mixed(codes, nals)) == AllFound(sep, codes, nals)
  {
    hide CodeFree, SplitFrom, FirstCode, IsCode, AllFound, Mixed, Split;
    assert IsCode(sep, codes[0]);
    hide AllCodes;
    var code := codes[0];
    var tail := nals[0] + Mixed(codes[1..], nals[1..]);
    MixedFront(codes, nals);
    var frame := lead + Mixed(codes, nals);
    assert frame == lead + code + tail;
    assert frame[|lead| + |code|..] == tail;
    FirstCodeBehind(sep, lead, code, tail);
    SplitAt(sep, frame, |lead| + |code|);
    SplitMixedFrom(sep, frame, |lead| + |code|, codes, nals);
  }

  /** Bytes without any code are one empty unit. */
  lemma SplitFindsNothing(sep: Separator, frame: Bytes)
    requires CodeFree(sep, frame)
    ensures Split(sep, frame) == [[]]
  {
    hide FirstCode, ByZeros, TrailingZeros;
    assert frame[..0] == [];
    NoZeros(sep);
    FirstCodeAt(sep, frame, 0, |frame|);
    assert frame[|frame|..] == [];
  }

  /** All is found but where a zero is taken. */
  lemma FoundIff(sep: Separator, codes: seq<Bytes>, nals: seq<Bytes>)
    requires |codes| == |nals|
    ensures AllFound(sep, codes, nals) == nals <==> forall i :: 0 < i < |nals| ==> !TakesZero(sep, nals[i - 1], codes[i])
  {
    var found := AllFound(sep, codes, nals);
    if i :| 0 < i < |nals| && TakesZero(sep, nals[i - 1], codes[i]) {
      assert |found[i - 1]| < |nals[i - 1]|;
    } else {
      assert found == nals;
    }
  }

  /**
    Splitting recovers a list of units from any mixture of start codes if and only if none of them
    contains a start code of the mode, and none ends in a zero in front of a three-byte code where
    four-byte codes are looked for as well.
   */
  lemma SplitMixedIff(sep: Separator, codes: seq<Bytes>, nals: seq<Bytes>)
    requires |codes| == |nals| > 0 && AllCodes(sep, codes)
    ensures Split(sep, Mixed(codes, nals)) == nals <==>
            && (forall u :: u in nals ==> CodeFree(sep, u))
            && (forall i :: 0 < i < |nals| ==> !TakesZero(sep, nals[i - 1], codes[i]))
  {
    hide CodeFree, Split, Mixed, AllCodes, AllFound, TakesZero;
    if forall u :: u in nals ==> CodeFree(sep, u) {
      NothingIsCodeFree(sep);
      SplitFindsMixed(sep, [], codes, nals);
      assert [] + Mixed(codes, nals) == Mixed(codes, nals);
      FoundIff(sep, codes, nals);
    } else {
      SplitIsCodeFree(sep, Mixed(codes, nals));
    }
  }

  /** A unit that ends in a zero loses it to the three-byte code behind it. */
  lemma LostZeroExample()
    ensures Split(Either, [0, 0, 1, 65, 0, 0, 0, 1, 66]) == [[65], [66]]
    ensures Mixed([[0, 0, 1], [0, 0, 1]], [[65, 0], [66]]) == [0, 0, 1, 65, 0, 0, 0, 1, 66]
  {
    var codes: seq<Bytes>, nals: seq<Bytes> := [[0, 0, 1], [0, 0, 1]], [[65, 0], [66]];
    assert codes[1..] == [[0, 0, 1]] && nals[1..] == [[66]] && codes[1..][1..] == [] && nals[1..][1..] == [];
    assert Mixed(codes[1..], nals[1..]) == [0, 0, 1] + [66] + [];
    assert Mixed(codes, nals) == [0, 0, 1, 65, 0, 0, 0, 1, 66];
    SplitFindsMixed(Either, [], codes, nals);
    assert [] + Mixed(codes, nals) == Mixed(codes, nals);
    assert Found(Either, [65, 0], [0, 0, 1]) == [65];
  }

  /** The codes of a frame with one kind of them. */
  function SameCodes(sep: Separator, n: nat): (r: seq<Bytes>)
    ensures |r| == n
  {
    seq(n, i => sep.Code())
  }

  lemma {:induction false} JoinedIsMixed(sep: Separator, nals: seq<Bytes>)
    ensures Joined(sep, nals) == Mixed(SameCodes(sep, |nals|), nals)
    decreases |nals|
  {
    if nals != [] {
      JoinedFront(sep, nals);
      JoinedIsMixed(sep, nals[1..]);
      assert SameCodes(sep, |nals|)[1..] == SameCodes(sep, |nals| - 1);
    }
  }

  /**
    Splitting recovers a list of units from the frame that separates them if and only if
    none of them contains a start code of that mode.
   */
  lemma SplitJoined(sep: Separator, nals: seq<Bytes>)
    requires nals != []
    ensures Split(sep, Joined(sep, nals)) == nals <==> forall u :: u in nals ==> CodeFree(sep, u)
  {
    hide CodeFree, Split, Joined, Mixed;
    JoinedIsMixed(sep, nals);
    SplitMixedIff(sep, SameCodes(sep, |nals|), nals);
  }
}
