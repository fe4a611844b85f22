/**
  Header extension elements, sections 4.2 and 4.3 of RFC 8285: the writers of src/rtp.cpp, which
  patch a cleared block, and the parser that the RFC prescribes.
 */
module HeaderExtension {
  import opened Options
  import opened Bits
  import opened RtpPacket

  datatype Element = Element(id: Byte, value: Bytes)

  // ---------------------------------------------------------------- writing

  function HeaderSize(two: bool): nat { if two then 2 else 1 }

  /** What the writers accept, space permitting. */
  predicate Fits(two: bool, e: Element) {
    if two then e.id != 0 && |e.value| <= 255
    else 1 <= e.id <= 14 && 1 <= |e.value| <= 16
  }

  function Encode(two: bool, e: Element): (r: Bytes)
    requires Fits(two, e)
    ensures |r| == HeaderSize(two) + |e.value|
  {
    (if two then [e.id, |e.value|] else [(e.id as int) * 16 + |e.value| - 1]) + e.value
  }

  /** `writeHeader`: the block afterwards and the number of bytes used, 0 for a refused element. */
  function Written(two: bool, body: Bytes, offset: nat, e: Element): (r: (Bytes, nat))
    ensures |r.0| == |body|
  {
    if Fits(two, e) && offset + HeaderSize(two) + |e.value| <= |body| then
      (Put(body, offset, Encode(two, e)), HeaderSize(two) + |e.value|)
    else (body, 0)
  }

  /** One write after the other, at a running offset. */
  function AllWritten(two: bool, body: Bytes, offset: nat, es: seq<Element>): Bytes
    decreases |es|
  {
    if es == [] then body
    else
      var (next, n) := Written(two, body, offset, es[0]);
      AllWritten(two, next, offset + n, es[1..])
  }

  /** `memcpy` into the block. */
  method Copy(body: array<Byte>, offset: nat, bytes: Bytes)
    requires offset + |bytes| <= body.Length
    modifies body
    ensures body[..] == Put(old(body[..]), offset, bytes)
  {
    ghost var was := body[..];
    for i := 0 to |bytes|
      invariant forall k :: 0 <= k < body.Length ==>
                  body[k] == if offset <= k < offset + i then bytes[k - offset] else was[k]
    {
      body[offset + i] := bytes[i];
    }
  }

  /** `writeOneByteHeader` and `writeTwoByteHeader` behind `writeHeader` */
  method WriteHeader(two: bool, body: array<Byte>, offset: nat, e: Element) returns (n: nat)
    modifies body
    ensures (body[..], n) == Written(two, old(body[..]), offset, e)
  {
    ghost var was := body[..];
    var size := |e.value|;
    if two {
      if e.id == 0 || size > 255 || offset + 2 + size > body.Length {
        return 0;
      }
      Copy(body, offset, [e.id, size]);
      Copy(body, offset + 2, e.value);
      PutTwice(was, offset, [e.id, size], e.value);
      n := 2 + size;
    } else {
      if e.id == 0 || e.id > 14 || size == 0 || size > 16 || offset + 1 + size > body.Length {
        return 0;
      }
      Copy(body, offset, [(e.id as int) * 16 + (size - 1)]);
      Copy(body, offset + 1, e.value);
      PutTwice(was, offset, [(e.id as int) * 16 + (size - 1)], e.value);
      n := 1 + size;
    }
  }

  lemma PutTwice(body: Bytes, offset: nat, a: Bytes, b: Bytes)
    requires offset + |a| + |b| <= |body|
    ensures Put(Put(body, offset, a), offset + |a|, b) == Put(body, offset, a + b)
  {
  }

  method WriteHeaders(two: bool, body: array<Byte>, es: seq<Element>)
    modifies body
    ensures body[..] == AllWritten(two, old(body[..]), 0, es)
  {
    hide Written;
    var offset := 0;
    for i := 0 to |es|
      invariant AllWritten(two, body[..], offset, es[i..]) == AllWritten(two, old(body[..]), 0, es)
    {
      assert es[i..][0] == es[i] && es[i..][1..] == es[i + 1..];
      var n := WriteHeader(two, body, offset, es[i]);
      offset := offset + n;
    }
  }

  // ---------------------------------------------------------------- what is written

  function Cleared(n: nat): (z: Bytes)
    ensures |z| == n && forall i :: 0 <= i < n ==> z[i] == 0
  {
    seq(n, i => 0)
  }

  function Fitting(two: bool, es: seq<Element>): (r: seq<Element>)
    ensures forall e :: e in r ==> Fits(two, e)
  {
    if es == [] then []
    else if Fits(two, es[0]) then [es[0]] + Fitting(two, es[1..])
    else Fitting(two, es[1..])
  }

  function EncodeAll(two: bool, es: seq<Element>): Bytes
    requires forall e :: e in es ==> Fits(two, e)
  {
    if es == [] then [] else Encode(two, es[0]) + EncodeAll(two, es[1..])
  }

  /** The space that `packetize` computes beforehand, without the four bytes in front. */
  function Need(two: bool, es: seq<Element>): nat {
    if es == [] then 0 else HeaderSize(two) + |es[0].value| + Need(two, es[1..])
  }

  lemma {:induction false} FittingNeed(two: bool, es: seq<Element>)
    ensures |EncodeAll(two, Fitting(two, es))| <= Need(two, es)
    ensures (forall e :: e in es ==> Fits(two, e)) ==>
              Fitting(two, es) == es && |EncodeAll(two, Fitting(two, es))| == Need(two, es)
  {
    if es != [] {
      FittingNeed(two, es[1..]);
      var r := Fitting(two, es[1..]);
      assert ([es[0]] + r)[1..] == r;
      hide Fits;
    }
  }

  lemma PutZeros(done: Bytes, m: nat, e: Bytes)
    requires |e| <= m
    ensures Put(done + Cleared(m), |done|, e) == (done + e) + Cleared(m - |e|)
  {
  }

  /** In a cleared block with the computed space, the elements that fit stand one behind the other. */
  lemma {:induction false} WritesFitting(two: bool, done: Bytes, m: nat, es: seq<Element>)
    requires m >= Need(two, es)
    ensures |EncodeAll(two, Fitting(two, es))| <= m
    ensures AllWritten(two, done + Cleared(m), |done|, es) ==
            done + EncodeAll(two, Fitting(two, es)) + Cleared(m - |EncodeAll(two, Fitting(two, es))|)
    decreases |es|
  {
    hide Encode, Fits, Cleared, EncodeAll, Fitting, AllWritten, Written;
    FittingNeed(two, es);
    if es == [] {
      NothingWritten(two, done + Cleared(m), |done|);
      assert done + [] == done;
    } else {
      FittingNeed(two, es[1..]);
      FirstWritten(two, done, m, es);
      var rest := EncodeAll(two, Fitting(two, es[1..]));
      if Fits(two, es[0]) {
        var e := Encode(two, es[0]);
        WritesFitting(two, done + e, m - |e|, es[1..]);
        FittingCons(two, es);
        assert done + (e + rest) == done + e + rest;
      } else {
        WritesFitting(two, done, m, es[1..]);
      }
    }
  }

  lemma NothingWritten(two: bool, body: Bytes, offset: nat)
    ensures AllWritten(two, body, offset, []) == body && EncodeAll(two, Fitting(two, [])) == []
  {
  }

  lemma FirstWritten(two: bool, done: Bytes, m: nat, es: seq<Element>)
    requires es != [] && m >= HeaderSize(two) + |es[0].value|
    ensures Fits(two, es[0]) ==>
              var e := Encode(two, es[0]);
              AllWritten(two, done + Cleared(m), |done|, es) ==
              AllWritten(two, (done + e) + Cleared(m - |e|), |done + e|, es[1..])
    ensures !Fits(two, es[0]) ==>
              && AllWritten(two, done + Cleared(m), |done|, es) == AllWritten(two, done + Cleared(m), |done|, es[1..])
              && Fitting(two, es) == Fitting(two, es[1..])
  {
    if Fits(two, es[0]) {
      PutZeros(done, m, Encode(two, es[0]));
    }
    hide Encode, Fits, Cleared;
  }

  lemma FittingCons(two: bool, es: seq<Element>)
    requires es != [] && Fits(two, es[0])
    ensures EncodeAll(two, Fitting(two, es)) == Encode(two, es[0]) + EncodeAll(two, Fitting(two, es[1..]))
  {
    var r := Fitting(two, es[1..]);
    assert ([es[0]] + r)[1..] == r;
  }

  // ---------------------------------------------------------------- RFC 8285

  /** The elements of a block: zero bytes are padding; in one-byte form, number 15 and an odd 0 end it. */
  function Parse(two: bool, b: Bytes): Option<seq<Element>> {
    if b == [] then Some([])
    else if b[0] == 0 then Parse(two, b[1..])
    else if !two && (b[0] / 16 == 0 || b[0] / 16 == 15) then Some([])
    else if two && |b| < 2 then None
    else
      var h := HeaderSize(two);
      var id := if two then b[0] else b[0] / 16;
      var n := if two then b[1] as int else b[0] % 16 + 1;
      if h + n > |b| then None
      else
        var rest := Parse(two, b[h + n..]);
        if rest.None? then None else Some([Element(id, b[h..h + n])] + rest.value)
  }

  lemma {:induction false} ParsePadding(two: bool, n: nat)
    ensures Parse(two, Cleared(n)) == Some([])
  {
    if n > 0 {
      assert Cleared(n)[1..] == Cleared(n - 1);
      ParsePadding(two, n - 1);
    }
  }

  lemma ParseOne(two: bool, e: Element, rest: Bytes)
    requires Fits(two, e)
    ensures var r := Parse(two, rest);
            Parse(two, Encode(two, e) + rest) == if r.None? then None else Some([e] + r.value)
  {
    var b := Encode(two, e) + rest;
    var h := HeaderSize(two);
    var n := |e.value|;
    assert b[h..h + n] == e.value && b[h + n..] == rest;
    assert !two ==> b[0] == (e.id as int) * 16 + n - 1 && b[0] / 16 == e.id && b[0] % 16 == n - 1;
    assert two ==> b[0] == e.id && b[1] == n;
  }

  /** The parser undoes the encoding, whatever padding follows. */
  lemma {:induction false} ParseEncoded(two: bool, es: seq<Element>, n: nat)
    requires forall e :: e in es ==> Fits(two, e)
    ensures Parse(two, EncodeAll(two, es) + Cleared(n)) == Some(es)
    decreases |es|
  {
    if es == [] {
      assert EncodeAll(two, es) + Cleared(n) == Cleared(n);
      ParsePadding(two, n);
    } else {
      assert es[0] in es;
      ParseEncoded(two, es[1..], n);
      var tail := EncodeAll(two, es[1..]);
      ParseOne(two, es[0], tail + Cleared(n));
      hide Parse, Encode, Fits, Cleared;
      assert EncodeAll(two, es) + Cleared(n) == Encode(two, es[0]) + (tail + Cleared(n));
      assert es == [es[0]] + es[1..];
    }
  }

  /** Every element is kept if and only if all of them are acceptable. */
  lemma FittingIff(two: bool, es: seq<Element>)
    ensures Fitting(two, es) == es <==> forall e :: e in es ==> Fits(two, e)
  {
    FittingNeed(two, es);
  }

  /** A receiver finds exactly the elements that the writers accept, in order, then padding. */
  lemma ReceiverFinds(two: bool, es: seq<Element>, space: nat)
    requires space >= Need(two, es)
    ensures Parse(two, AllWritten(two, Cleared(space), 0, es)) == Some(Fitting(two, es))
  {
    hide Parse, AllWritten, EncodeAll, Fits, Need, Cleared, Fitting;
    WritesFitting(two, [], space, es);
    var f := Fitting(two, es);
    var n := |EncodeAll(two, f)|;
    assert [] + Cleared(space) == Cleared(space);
    assert [] + EncodeAll(two, f) == EncodeAll(two, f);
    ParseEncoded(two, f, space - n);
  }
}
