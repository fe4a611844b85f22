/**
  Generic NACK feedback, section 6.2.1 of RFC 4585 (src/rtp.cpp): a list of missing sequence
  numbers travels as parts, each a first number and a bitmap of the sixteen that follow it.
 */
module Nack {
  import opened Bits
  import opened RtpPacket

  datatype Part = Part(pid: U16, blp: U16)

  // ---------------------------------------------------------------- expanding

  /** `i + 1` and `i + k` in 16 bits */
  function Next(i: U16): U16 {
    if i == 65535 then 0 else i + 1
  }

  function Ahead(i: U16, k: nat): U16 {
    (i + k) % 65536
  }

  /** The numbers that the set bits of `mask` stand for, bit 0 being `i`. */
  function Ones(i: U16, mask: nat): seq<U16>
    decreases mask
  {
    if mask == 0 then []
    else (if mask % 2 == 1 then [i] else []) + Ones(Next(i), mask / 2)
  }

  function Expand(p: Part): seq<U16> {
    [p.pid] + Ones(Next(p.pid), p.blp)
  }

  function ExpandAll(parts: seq<Part>): seq<U16> {
    if parts == [] then [] else ExpandAll(parts[..|parts| - 1]) + Expand(parts[|parts| - 1])
  }

  /** `getSequenceNumbers` */
  method GetSequenceNumbers(p: Part) returns (result: seq<U16>)
    ensures result == Expand(p)
  {
    result := [p.pid];
    var bitmask: nat := p.blp;
    var i: U16 := Next(p.pid);
    while bitmask > 0
      invariant result + Ones(i, bitmask) == Expand(p)
      decreases bitmask
    {
      if bitmask % 2 == 1 {
        result := result + [i];
      }
      i := Next(i);
      bitmask := bitmask / 2;
    }
  }

  // ---------------------------------------------------------------- building

  predicate BitSet(mask: nat, k: nat) {
    Shr(mask, k) % 2 == 1
  }

  /** `blp | (1 << k)` */
  function WithBit(mask: U16, k: nat): (r: U16)
    requires k < 16
  {
    if BitSet(mask, k) then mask
    else
      Pow2Values();
      SetBound(mask, k, 16);
      mask + Pow2(k)
  }

  lemma {:induction false} SetBound(mask: nat, k: nat, n: nat)
    requires mask < Pow2(n) && k < n && !BitSet(mask, k)
    ensures mask + Pow2(k) < Pow2(n)
    decreases k
  {
    assert Pow2(n) == 2 * Pow2(n - 1);
    if k > 0 {
      assert Pow2(k) == 2 * Pow2(k - 1) && !BitSet(mask / 2, k - 1);
      hide Pow2, BitSet;
      SetBound(mask / 2, k - 1, n - 1);
    } else {
      assert mask % 2 == 0;
    }
  }

  predicate OpensPart(parts: seq<Part>, missing: U16) {
    parts == [] || missing < parts[|parts| - 1].pid || missing > parts[|parts| - 1].pid + 16
  }

  /** What `addMissingPacket` leaves; a number equal to the open part's first would be a shift by -1. */
  function Added(parts: seq<Part>, missing: U16): (r: seq<Part>)
    requires parts != [] ==> missing != parts[|parts| - 1].pid
    ensures r != []
  {
    if OpensPart(parts, missing) then parts + [Part(missing, 0)]
    else
      var p := parts[|parts| - 1];
      parts[..|parts| - 1] + [Part(p.pid, WithBit(p.blp, missing - (1 + p.pid)))]
  }

  /** A NACK packet under construction: its parts and the two counters kept by the caller. */
  class NackPacket {
    var parts: seq<Part>
    var fciCount: nat
    var fciPid: U16

    ghost predicate Valid()
      reads this
    {
      fciCount == |parts| && (parts != [] ==> fciPid == parts[|parts| - 1].pid)
    }

    constructor ()
      ensures Valid() && parts == []
    {
      parts, fciCount, fciPid := [], 0, 0;
    }

    /** `addMissingPacket` */
    method AddMissingPacket(missing: U16) returns (grown: bool)
      requires Valid() && (parts != [] ==> missing != fciPid)
      modifies this
      ensures Valid() && parts == Added(old(parts), missing) && grown == (|parts| > |old(parts)|)
    {
      if fciCount == 0 || missing < fciPid || missing > fciPid + 16 {
        parts := parts + [Part(missing, 0)];
        fciPid := missing;
        fciCount := fciCount + 1;
        return true;
      } else {
        var blp := parts[fciCount - 1].blp;
        parts := parts[fciCount - 1 := Part(fciPid, WithBit(blp, missing - (1 + fciPid)))];
        return false;
      }
    }
  }

  // ---------------------------------------------------------------- which lists

  /** The first number of the part that is open after `list`. */
  function OpenPid(list: seq<U16>): (pid: U16)
    requires list != []
    ensures pid <= list[|list| - 1] <= pid + 16
  {
    var m := list[|list| - 1];
    if |list| == 1 then m
    else
      var pid := OpenPid(list[..|list| - 1]);
      if m < pid || m > pid + 16 then m else pid
  }

  /** No number repeats the first one of the part open at that point. */
  predicate Buildable(list: seq<U16>) {
    |list| <= 1 || (Buildable(list[..|list| - 1]) && list[|list| - 1] != OpenPid(list[..|list| - 1]))
  }

  /** Each number opens a part or is larger than the one before. */
  predicate InOrder(list: seq<U16>) {
    |list| <= 1 ||
    var front, m := list[..|list| - 1], list[|list| - 1];
    InOrder(front) && (m < OpenPid(front) || m > front[|front| - 1])
  }

  function Built(list: seq<U16>): (parts: seq<Part>)
    requires Buildable(list)
    ensures list == [] <==> parts == []
    ensures list != [] ==> parts[|parts| - 1].pid == OpenPid(list)
  {
    if list == [] then [] else Added(Built(list[..|list| - 1]), list[|list| - 1])
  }

  // ---------------------------------------------------------------- one bit more

  /** How far `x` is ahead of `i`. */
  function Dist(i: U16, x: U16): (d: U16)
    ensures Ahead(i, d) == x
  {
    if x >= i then x - i else x - i + 65536
  }

  lemma {:induction false} OnesRange(i: U16, mask: nat, k: nat, x: U16)
    requires mask < Pow2(k) && k < 65536 && x in Ones(i, mask)
    ensures Dist(i, x) < k
    decreases mask
  {
    if mask > 0 && !(mask % 2 == 1 && x == i) {
      OnesRange(Next(i), mask / 2, k - 1, x);
    }
  }

  /** Unfolding that holds of an empty mask too. */
  lemma OnesStep(i: U16, mask: nat)
    ensures Ones(i, mask) == (if mask % 2 == 1 then [i] else []) + Ones(Next(i), mask / 2)
  {
  }

  /** Bit `k` of a mask is bit `k - 1` of its half. */
  lemma Halved(i: U16, mask: nat, k: nat)
    requires k > 0
    ensures Ones(i, mask + Pow2(k)) ==
            (if mask % 2 == 1 then [i] else []) + Ones(Next(i), mask / 2 + Pow2(k - 1))
  {
    OnesStep(i, mask + Pow2(k));
    hide Ones;
    assert (mask + Pow2(k)) / 2 == mask / 2 + Pow2(k - 1) && (mask + Pow2(k)) % 2 == mask % 2;
  }

  lemma OnesOfOne(i: U16)
    ensures Pow2(0) == 1 && Ahead(i, 0) == i && Ones(i, 0) == [] && Ones(i, 1) == [i]
  {
    assert Ones(Next(i), 0) == [];
  }

  lemma NextPlus(i: U16, k: nat)
    requires k > 0
    ensures Ahead(Next(i), k - 1) == Ahead(i, k)
  {
  }

  /** A bit above all others adds its number at the end. */
  lemma {:induction false} SetTop(i: U16, mask: nat, k: nat)
    requires mask < Pow2(k)
    ensures Ones(i, mask + Pow2(k)) == Ones(i, mask) + [Ahead(i, k)]
    decreases k
  {
    if k > 0 {
      assert Pow2(k) == 2 * Pow2(k - 1);
      hide Ones, Pow2, Ahead, Next;
      OnesStep(i, mask);
      Halved(i, mask, k);
      NextPlus(i, k);
      SetTop(Next(i), mask / 2, k - 1);
    } else {
      OnesOfOne(i);
    }
  }

  lemma SetLowest(i: U16, mask: nat)
    requires mask % 2 == 0
    ensures Ones(i, mask + 1) == [i] + Ones(i, mask)
  {
    OnesStep(i, mask);
    OnesStep(i, mask + 1);
    assert (mask + 1) / 2 == mask / 2;
    hide Ones;
  }

  /** `b` has what `a` has, and `m`. */
  ghost predicate OneMore(a: seq<U16>, b: seq<U16>, m: U16) {
    |b| == |a| + 1 && forall x: U16 :: x in b <==> x in a || x == m
  }

  lemma OneMoreBehind(front: seq<U16>, a: seq<U16>, b: seq<U16>, m: U16)
    requires OneMore(a, b, m)
    ensures OneMore(front + a, front + b, m)
  {
  }

  lemma HalfBit(mask: nat, k: nat)
    ensures k > 0 ==> (BitSet(mask, k) <==> BitSet(mask / 2, k - 1))
    ensures k == 0 ==> (BitSet(mask, k) <==> mask % 2 == 1)
  {
  }

  /** Any new bit adds its number and nothing else. */
  lemma {:induction false} SetAny(i: U16, mask: nat, k: nat)
    requires !BitSet(mask, k)
    ensures OneMore(Ones(i, mask), Ones(i, mask + Pow2(k)), Ahead(i, k))
    decreases k
  {
    HalfBit(mask, k);
    hide Ones, Pow2, Ahead, Next, BitSet;
    if k > 0 {
      hide OneMore;
      SetAny(Next(i), mask / 2, k - 1);
      OnesStep(i, mask);
      Halved(i, mask, k);
      NextPlus(i, k);
      OneMoreBehind(if mask % 2 == 1 then [i] else [], Ones(Next(i), mask / 2),
                    Ones(Next(i), mask / 2 + Pow2(k - 1)), Ahead(i, k));
    } else {
      OnesOfOne(i);
      SetLowest(i, mask);
    }
  }

  lemma {:induction false} OnesNonempty(i: U16, mask: nat)
    requires mask > 0
    ensures Ones(i, mask) != []
    decreases mask
  {
    if mask % 2 == 0 {
      OnesNonempty(Next(i), mask / 2);
    }
  }

  /** A bit below another one does not end the list. */
  lemma {:induction false} SetInside(i: U16, mask: nat, k: nat, n: nat)
    requires !BitSet(mask, k) && Pow2(k) <= mask < Pow2(n) && n <= 16
    ensures var r := Ones(i, mask + Pow2(k)); r != [] && k < Dist(i, r[|r| - 1]) < n
    decreases k
  {
    if k == 0 {
      SetInsideLowest(i, mask, n);
    } else {
      assert Pow2(k) == 2 * Pow2(k - 1) && !BitSet(mask / 2, k - 1) && Pow2(n) == 2 * Pow2(n - 1) by {
        assert n > 0;
      }
      hide Ones, Ahead, Pow2, BitSet;
      Halved(i, mask, k);
      SetInside(Next(i), mask / 2, k - 1, n - 1);
    }
  }

  lemma SetInsideLowest(i: U16, mask: nat, n: nat)
    requires mask % 2 == 0 && 0 < mask < Pow2(n) && n <= 16
    ensures var r := Ones(i, mask + 1); r != [] && 0 < Dist(i, r[|r| - 1]) < n
  {
    assert n > 0 && Pow2(n) == 2 * Pow2(n - 1);
    hide Ones, Ahead, Pow2, Next, Dist;
    var r := Ones(Next(i), mask / 2);
    OnesNonempty(Next(i), mask / 2);
    OnesRange(Next(i), mask / 2, n - 1, r[|r| - 1]);
    SetLowest(i, mask);
    OnesStep(i, mask);
    OneFurther(i, r[|r| - 1]);
  }

  lemma OneFurther(i: U16, x: U16)
    ensures Dist(Next(i), x) < 65535 ==> Dist(i, x) == Dist(Next(i), x) + 1
  {
    hide Ahead;
  }

  lemma {:induction false} AlreadySet(i: U16, mask: nat, k: nat)
    requires BitSet(mask, k)
    ensures Ahead(i, k) in Ones(i, mask)
    decreases k
  {
    OnesStep(i, mask);
    if k > 0 {
      AlreadySet(Next(i), mask / 2, k - 1);
      NextPlus(i, k);
    }
  }

  // ---------------------------------------------------------------- one number more

  lemma ExpandInit(parts: seq<Part>, p: Part)
    ensures ExpandAll(parts + [p]) == ExpandAll(parts) + Expand(p)
  {
    assert (parts + [p])[..|parts|] == parts;
  }

  /** Where a number that opens no part goes. */
  lemma Inside(parts: seq<Part>, m: U16)
    requires parts != [] && !OpensPart(parts, m) && m != parts[|parts| - 1].pid
    ensures var init, p := parts[..|parts| - 1], parts[|parts| - 1];
            var k := m - (1 + p.pid);
            && k < 16
            && ExpandAll(parts) == ExpandAll(init) + [p.pid] + Ones(Next(p.pid), p.blp)
            && ExpandAll(Added(parts, m)) == ExpandAll(init) + [p.pid] + Ones(Next(p.pid), WithBit(p.blp, k))
  {
    var init, p := parts[..|parts| - 1], parts[|parts| - 1];
    assert parts == init + [p];
    ExpandInit(init, p);
    ExpandInit(init, Part(p.pid, WithBit(p.blp, m - (1 + p.pid))));
  }

  /** Everything about a list one number longer. */
  lemma Unfold(front: seq<U16>, m: U16)
    requires front != []
    ensures var list := front + [m];
            && (Buildable(list) <==> Buildable(front) && m != OpenPid(front))
            && (InOrder(list) <==>
                InOrder(front) && (m < OpenPid(front) || m > front[|front| - 1]))
            && (Buildable(list) ==> Built(list) == Added(Built(front), m))
  {
    assert (front + [m])[..|front|] == front;
  }

  lemma Single(m: U16)
    ensures Buildable([m]) && InOrder([m]) && Built([m]) == [Part(m, 0)] && ExpandAll(Built([m])) == [m]
  {
    OnesZero(Next(m));
    assert Built([m]) == Added([], m);
    ExpandInit([], Part(m, 0));
  }

  /** A number is requested afterwards if it was before or has just been added. */
  lemma AddedContents(parts: seq<Part>, m: U16)
    requires parts != [] ==> m != parts[|parts| - 1].pid
    ensures |ExpandAll(Added(parts, m))| <= |ExpandAll(parts)| + 1
    ensures forall x: U16 :: x in ExpandAll(Added(parts, m)) <==> x in ExpandAll(parts) || x == m
  {
    hide ExpandAll, Ones, BitSet;
    if OpensPart(parts, m) {
      ExpandInit(parts, Part(m, 0));
      assert Expand(Part(m, 0)) == [m] by { OnesZero(Next(m)); }
    } else {
      Inside(parts, m);
      var p := parts[|parts| - 1];
      var k := m - (1 + p.pid);
      assert Ahead(Next(p.pid), k) == m;
      if BitSet(p.blp, k) {
        AlreadySet(Next(p.pid), p.blp, k);
      } else {
        SetAny(Next(p.pid), p.blp, k);
      }
    }
  }

  lemma OnesZero(i: U16)
    ensures Ones(i, 0) == []
  {
  }

  /** A number above all of the open part's goes at the end. */
  lemma AddedAtEnd(parts: seq<Part>, m: U16)
    requires parts != [] && !OpensPart(parts, m) && m != parts[|parts| - 1].pid
    requires parts[|parts| - 1].blp < Pow2(m - (1 + parts[|parts| - 1].pid))
    ensures ExpandAll(Added(parts, m)) == ExpandAll(parts) + [m]
    ensures Added(parts, m)[|parts| - 1].blp < Pow2(m - parts[|parts| - 1].pid)
    ensures |Added(parts, m)| == |parts| && Added(parts, m)[|parts| - 1].pid == parts[|parts| - 1].pid
  {
    var p := parts[|parts| - 1];
    var k := m - (1 + p.pid);
    NotSet(p.blp, k);
    Inside(parts, m);
    SetTop(Next(p.pid), p.blp, k);
    assert Ahead(Next(p.pid), k) == m;
    hide ExpandAll, Ones, BitSet;
  }

  lemma {:induction false} NotSet(mask: nat, k: nat)
    requires mask < Pow2(k)
    ensures !BitSet(mask, k)
    decreases k
  {
    if k > 0 {
      NotSet(mask / 2, k - 1);
    }
  }

  /** A list is a single number, or its front and one number more. */
  lemma Cases(list: seq<U16>)
    requires list != []
    ensures list == list[..|list| - 1] + [list[|list| - 1]]
  {
  }

  lemma AddedPart(parts: seq<Part>, m: U16)
    requires OpensPart(parts, m)
    ensures Added(parts, m) == parts + [Part(m, 0)] && ExpandAll(Added(parts, m)) == ExpandAll(parts) + [m]
  {
    ExpandInit(parts, Part(m, 0));
    OnesZero(Next(m));
  }

  /** Numbers in order come out as they went in, and the open part's highest bit is the last one's. */
  lemma {:induction false} InOrderComesBack(list: seq<U16>)
    requires list != [] && Buildable(list) && InOrder(list)
    ensures ExpandAll(Built(list)) == list
    ensures Built(list)[|Built(list)| - 1].blp < Pow2(list[|list| - 1] - OpenPid(list))
    decreases |list|
  {
    hide Buildable, InOrder, Built, ExpandAll, OpenPid, Added;
    var n := |list| - 1;
    var front, m := list[..n], list[n];
    Cases(list);
    if n == 0 {
      Single(m);
    } else {
      Unfold(front, m);
      InOrderComesBack(front);
      var parts := Built(front);
      if OpensPart(parts, m) {
        AddedPart(parts, m);
      } else {
        Pow2Monotone(front[n - 1] - parts[|parts| - 1].pid, m - (1 + parts[|parts| - 1].pid));
        AddedAtEnd(parts, m);
      }
    }
  }

  /** Whatever the order: exactly the numbers of the list are requested. */
  lemma {:induction false} RequestsTheList(list: seq<U16>)
    requires Buildable(list)
    ensures |ExpandAll(Built(list))| <= |list|
    ensures forall x: U16 :: x in ExpandAll(Built(list)) <==> x in list
    decreases |list|
  {
    hide Buildable, Built, ExpandAll, OpenPid, Added;
    if list == [] {
      NothingBuilt();
    } else {
      var n := |list| - 1;
      var front, m := list[..n], list[n];
      Cases(list);
      if n == 0 {
        Single(m);
      } else {
        Unfold(front, m);
        RequestsTheList(front);
        AddedContents(Built(front), m);
      }
    }
  }

  lemma NothingBuilt()
    ensures Built([]) == [] && ExpandAll(Built([])) == []
  {
  }

  /** If the last number came out last, it was the highest of its part. */
  lemma LastWasHighest(parts: seq<Part>, l: seq<U16>, m: U16)
    requires parts != [] && !OpensPart(parts, m) && m != parts[|parts| - 1].pid
    requires |ExpandAll(parts)| <= |l| && ExpandAll(Added(parts, m)) == l + [m]
    ensures parts[|parts| - 1].blp < Pow2(m - (1 + parts[|parts| - 1].pid))
  {
    hide ExpandAll, BitSet;
    var p := parts[|parts| - 1];
    var k := m - (1 + p.pid);
    Inside(parts, m);
    hide Ones;
    if !BitSet(p.blp, k) && p.blp >= Pow2(k) {
      LastIsLast(p, k, ExpandAll(parts[..|parts| - 1]) + [p.pid], l + [m]);
    }
  }

  lemma LastIsLast(p: Part, k: nat, front: seq<U16>, whole: seq<U16>)
    requires k < 16 && p.pid + 1 + k < 65536 && !BitSet(p.blp, k) && p.blp >= Pow2(k)
    requires whole == front + Ones(Next(p.pid), p.blp + Pow2(k))
    ensures whole != [] && whole[|whole| - 1] != p.pid + 1 + k
  {
    hide Ones;
    Pow2Values();
    SetInside(Next(p.pid), p.blp, k, 16);
  }

  /** Below the next bit, all numbers of a part are smaller. */
  lemma LastIsBelow(p: Part, k: nat)
    requires p.blp < Pow2(k) && k < 16 && p.pid + 1 + k < 65536
    ensures Expand(p)[|Expand(p)| - 1] < p.pid + 1 + k
  {
    var r := Ones(Next(p.pid), p.blp);
    if r != [] {
      OnesRange(Next(p.pid), p.blp, k, r[|r| - 1]);
    }
  }

  lemma {:induction false} ComesBackInOrder(list: seq<U16>)
    requires list != [] && Buildable(list) && ExpandAll(Built(list)) == list
    ensures InOrder(list)
    decreases |list|
  {
    hide Buildable, InOrder, Built, ExpandAll, Expand, OpenPid, Added;
    var n := |list| - 1;
    var front, m := list[..n], list[n];
    Cases(list);
    if n == 0 {
      Single(m);
    } else {
      Unfold(front, m);
      var parts := Built(front);
      if OpensPart(parts, m) {
        AddedPart(parts, m);
        assert (ExpandAll(parts) + [m])[..n] == ExpandAll(parts);
      } else {
        RequestsTheList(front);
        LastWasHighest(parts, front, m);
        AddedAtEnd(parts, m);
        assert (ExpandAll(parts) + [m])[..n] == ExpandAll(parts);
        LastIsBelow(parts[|parts| - 1], m - (1 + parts[|parts| - 1].pid));
        LastOfAll(parts);
      }
      ComesBackInOrder(front);
    }
  }

  lemma LastOfAll(parts: seq<Part>)
    requires parts != []
    ensures var all, e := ExpandAll(parts), Expand(parts[|parts| - 1]);
            all != [] && e != [] && all[|all| - 1] == e[|e| - 1]
  {
  }

  /**
    Expanding the parts built from a list gives back that list, in its order and with its
    multiplicities, if and only if each number opens a part or is larger than the one before.
   */
  lemma ComesBackIff(list: seq<U16>)
    requires Buildable(list)
    ensures ExpandAll(Built(list)) == list <==> InOrder(list)
  {
    if list == [] {
      NothingBuilt();
    } else if InOrder(list) {
      InOrderComesBack(list);
    } else if ExpandAll(Built(list)) == list {
      ComesBackInOrder(list);
    }
  }

  /** Each number is above the one before, or more than sixteen below it (as after a wraparound). */
  predicate Forward(list: seq<U16>) {
    forall i :: 0 < i < |list| ==> list[i] > list[i - 1] || (list[i] as int) + 16 < list[i - 1]
  }

  lemma {:induction false} ForwardIsInOrder(list: seq<U16>)
    requires Forward(list)
    ensures Buildable(list) && InOrder(list)
    decreases |list|
  {
    if |list| > 1 {
      hide Buildable, InOrder, OpenPid;
      var n := |list| - 1;
      Cases(list);
      ForwardIsInOrder(list[..n]);
      Unfold(list[..n], list[n]);
      assert list[n] > list[n - 1] || (list[n] as int) + 16 < list[n - 1];
    }
  }

  /** Every strictly ascending list is requested exactly. */
  lemma AscendingComesBack(list: seq<U16>)
    requires forall i, j :: 0 <= i < j < |list| ==> list[i] < list[j]
    ensures Buildable(list) && ExpandAll(Built(list)) == list
  {
    ForwardIsInOrder(list);
    ComesBackIff(list);
  }

  lemma AddedThree()
    ensures Added([Part(1, 0)], 3) == [Part(1, 2)]
  {
    assert WithBit(0, 1) == 2 by {
      assert Shr(0, 1) == Shr(0, 0) == 0 && Pow2(1) == 2 * Pow2(0) == 2;
    }
  }

  lemma AddedTwo()
    ensures Added([Part(1, 2)], 2) == [Part(1, 3)]
  {
    assert WithBit(2, 0) == 3 by {
      assert Shr(2, 0) == 2 && Pow2(0) == 1;
    }
  }

  lemma ExpandedThree()
    ensures ExpandAll([Part(1, 3)]) == [1, 2, 3]
  {
    ExpandInit([], Part(1, 3));
    assert [] + [Part(1, 3)] == [Part(1, 3)] && ExpandAll([]) == [];
    OnesStep(2, 3);
    OnesStep(3, 1);
    OnesZero(4);
    hide Ones, ExpandAll;
    assert Next(1) == 2 && Next(2) == 3 && Next(3) == 4;
  }

  /** A step back inside the open part is lost: 1, 3, 2 comes back as 1, 2, 3. */
  lemma OutOfOrderExample()
    ensures Buildable([1, 3, 2]) && !InOrder([1, 3, 2])
    ensures ExpandAll(Built([1, 3, 2])) == [1, 2, 3]
  {
    assert OpenPid([1]) == 1;
    assert OpenPid([1, 3]) == 1 by {
      assert [1, 3][..1] == [1];
    }
    hide Buildable, InOrder, OpenPid, Built, Added, ExpandAll;
    Single(1);
    Unfold([1], 3);
    assert [1] + [3] == [1, 3] && [1, 3] + [2] == [1, 3, 2];
    Unfold([1, 3], 2);
    AddedThree();
    AddedTwo();
    ExpandedThree();
  }
}
