/**
  AV1 open bitstream units: LEB128 sizes, the extraction of the units of a temporal unit
  (src/av1rtppacketizer.cpp) and the form in which the depacketizer hands a unit on
  (src/av1rtpdepacketizer.cpp).
 */
module Av1Obu {
  import opened Bits

  // ---------------------------------------------------------------- LEB128

  function LebValue(b: Bytes): nat {
    if b == [] then 0 else b[0] % 128 + 128 * LebValue(b[1..])
  }

  /** `b` is an LEB128 number of at most four bytes, not necessarily the shortest one. */
  predicate IsLeb(b: Bytes) {
    && 1 <= |b| <= 4
    && b[|b| - 1] < 128
    && forall i :: 0 <= i < |b| - 1 ==> b[i] >= 128
  }

  /** The shortest encoding, as `appendObuWithSize` emits it. */
  function MinLeb(n: nat): (b: Bytes)
    ensures b != [] && LebValue(b) == n && b[|b| - 1] < 128
    ensures forall i :: 0 <= i < |b| - 1 ==> b[i] >= 128
    ensures |b| > 1 ==> b[|b| - 1] != 0
  {
    if n < 128 then [n]
    else
      var rest := MinLeb(n / 128);
      assert ([128 + n % 128] + rest)[1..] == rest;
      [128 + n % 128] + rest
  }

  datatype Leb = LebThrows | Leb(value: nat, size: nat)

  /** The reading loop of `extractTemporalUnitObus` after `k` bytes worth `value`. */
  function ReadLeb(data: Bytes, at: nat, k: nat, value: nat, scale: nat): Leb
    decreases 8 - k
  {
    if k >= 8 || |data| < at then Leb(value, k)
    else if at == |data| then LebThrows
    else
      var value' := value + scale * (data[at] % 128);
      if data[at] < 128 then Leb(value', k + 1) else ReadLeb(data, at + 1, k + 1, value', 128 * scale)
  }

  lemma Scaled(scale: nat, low: nat, rest: nat)
    ensures scale * (low + 128 * rest) == scale * low + (128 * scale) * rest
  {
  }

  /** The loop reads any LEB128 number to its end and finds its value. */
  lemma {:induction false} ReadLebReads(data: Bytes, at: nat, k: nat, value: nat, scale: nat, b: Bytes)
    requires b != [] && at + |b| <= |data| && data[at..at + |b|] == b && k + |b| <= 8
    requires b[|b| - 1] < 128 && forall i :: 0 <= i < |b| - 1 ==> b[i] >= 128
    ensures ReadLeb(data, at, k, value, scale) == Leb(value + scale * LebValue(b), k + |b|)
    decreases |b|
  {
    assert data[at] == data[at..at + |b|][0];
    if |b| == 1 {
      assert b[1..] == [];
      assert LebValue(b) == b[0];
    } else {
      assert data[at + 1..at + |b|] == data[at..at + |b|][1..] == b[1..];
      ReadLebReads(data, at + 1, k + 1, value + scale * (b[0] % 128), 128 * scale, b[1..]);
      Scaled(scale, b[0] % 128, LebValue(b[1..]));
    }
  }

  // ---------------------------------------------------------------- units

  predicate HasExtension(header: Byte) { header / 4 % 2 == 1 }

  predicate HasSize(header: Byte) { header / 2 % 2 == 1 }

  function ObuType(header: Byte): nat { header / 8 % 16 }

  /** The header byte by the numbers of section 5.3.2 of the AV1 specification: a forbidden bit, type, two flags, a reserved bit. */
  lemma HeaderFields(forbidden: nat, kind: nat, extension: bool, size: bool, reserved: nat)
    requires forbidden < 2 && kind < 16 && reserved < 2
    ensures var header := forbidden * 128 + kind * 8 + (if extension then 4 else 0) + (if size then 2 else 0) + reserved;
            ObuType(header) == kind && HasExtension(header) == extension && HasSize(header) == size
  {
    var e, s := if extension then 1 else 0, if size then 1 else 0;
    var header := forbidden * 128 + kind * 8 + e * 4 + s * 2 + reserved;
    assert header / 2 == forbidden * 64 + kind * 4 + e * 2 + s;
    assert header / 4 == forbidden * 32 + kind * 2 + e;
    assert header / 8 == forbidden * 16 + kind;
  }

  /** A unit: header byte, extension byte if announced, payload. */
  datatype Obu = Obu(header: Byte, extension: Bytes, payload: Bytes) {
    predicate Valid() {
      HasSize(header) && |extension| == (if HasExtension(header) then 1 else 0)
    }

    /** As it is sent in RTP: without its size. */
    function Bare(): Bytes
      requires Valid()
    {
      [header - 2] + extension + payload
    }

    /** As it stands in a temporal unit, with `size` spelling its payload size. */
    function Sized(size: Bytes): Bytes {
      [header] + extension + size + payload
    }

    /** The size spelled in the shortest way. */
    function Canonical(): Bytes { Sized(MinLeb(|payload|)) }
  }

  /** A unit of the input together with its size field. */
  datatype Item = Item(obu: Obu, size: Bytes) {
    predicate Valid() {
      obu.Valid() && IsLeb(size) && LebValue(size) == |obu.payload|
    }
  }

  ghost predicate AllValid(items: seq<Item>) {
    forall i :: 0 <= i < |items| ==> items[i].Valid()
  }

  function Serialized(items: seq<Item>): Bytes {
    if items == [] then [] else items[0].obu.Sized(items[0].size) + Serialized(items[1..])
  }

  function Bares(items: seq<Item>): seq<Bytes>
    requires forall i :: 0 <= i < |items| ==> items[i].Valid()
  {
    seq(|items|, i requires 0 <= i < |items| => assert items[i].Valid(); items[i].obu.Bare())
  }

  // ---------------------------------------------------------------- extraction

  datatype Extraction = Throws | Obus(list: seq<Bytes>)

  const DELIMITER: Bytes := [0x12, 0x00]

  function StartIndex(data: Bytes): nat {
    if |data| > 2 && data[..2] == DELIMITER then 2 else 0
  }

  /** The units from `index` on; a size running over the end leaves the unit without payload. */
  function ExtractFrom(data: Bytes, index: nat, acc: seq<Bytes>): Extraction
    decreases |data| - index
  {
    if index >= |data| || !HasSize(data[index]) then Obus(acc)
    else
      var header := data[index];
      var h := if HasExtension(header) then 2 else 1;
      var leb := ReadLeb(data, index + h, 0, 0, 1);
      if leb.LebThrows? || index + h > |data| then Throws
      else
        var length := leb.value % 0x1_0000_0000;
        var start := index + h + leb.size;
        var body := if start + length <= |data| then data[start..start + length] else [];
        ExtractFrom(data, start + length, acc + [[header - 2] + data[index + 1..index + h] + body])
  }

  function Extract(data: Bytes): Extraction { ExtractFrom(data, StartIndex(data), []) }

  /** The inner loop of `extractTemporalUnitObus`. */
  method ReadLength(data: Bytes, at: nat) returns (r: Leb)
    ensures r == ReadLeb(data, at, 0, 0, 1)
  {
    var value: nat, size: nat, scale: nat := 0, 0, 1;
    ghost var goal := ReadLeb(data, at, 0, 0, 1);
    while size < 8
      invariant size <= 8
      invariant ReadLeb(data, at + size, size, value, scale) == goal
    {
      if |data| < at + size {
        break;
      }
      if at + size == |data| {
        return LebThrows;
      }
      var b := data[at + size];
      value := value + scale * (b % 128);
      size := size + 1;
      if b < 128 {
        break;
      }
      scale := 128 * scale;
    }
    return Leb(value, size);
  }

  method ExtractTemporalUnitObus(data: Bytes) returns (r: Extraction)
    ensures r == Extract(data)
  {
    hide ReadLeb;
    var index: nat := StartIndex(data);
    var obus: seq<Bytes> := [];
    while index < |data|
      invariant ExtractFrom(data, index, obus) == Extract(data)
      decreases |data| - index
    {
      var header := data[index];
      if !HasSize(header) {
        return Obus(obus);
      }
      var h: nat := if HasExtension(header) then 2 else 1;
      var leb := ReadLength(data, index + h);
      if leb.LebThrows? || index + h > |data| {
        return Throws;
      }
      var length: nat := leb.value % 0x1_0000_0000;
      var start := index + h + leb.size;
      var obu := [header - 2] + data[index + 1..index + h];
      if start + length <= |data| {
        obu := obu + data[start..start + length];
      } else {
        assert obu + [] == obu;
      }
      obus := obus + [obu];
      index := start + length;
    }
    return Obus(obus);
  }

  lemma {:induction false} LebSmall(b: Bytes)
    requires |b| <= 4
    ensures LebValue(b) < 0x1000_0000
    ensures |b| <= 3 ==> LebValue(b) < 0x20_0000
    ensures |b| <= 2 ==> LebValue(b) < 0x4000
    ensures |b| <= 1 ==> LebValue(b) < 128
    decreases |b|
  {
    if b != [] {
      LebSmall(b[1..]);
    }
  }

  /** Where the parts of a sized unit lie. */
  lemma SizedParts(data: Bytes, index: nat, o: Obu, size: Bytes, rest: Bytes)
    requires index <= |data| && data[index..] == o.Sized(size) + rest
    ensures var h := index + 1 + |o.extension|;
            var s := h + |size|;
            var n := s + |o.payload|;
            && n == index + |o.Sized(size)| <= |data|
            && data[index] == o.header && data[index + 1..h] == o.extension
            && data[h..s] == size && data[s..n] == o.payload
            && data[n..] == rest
  {
    var tail := data[index..];
    var h := 1 + |o.extension|;
    var s := h + |size|;
    var n := s + |o.payload|;
    assert tail[0] == o.header;
    assert data[index + 1..index + h] == tail[1..h] == o.extension;
    assert data[index + h..index + s] == tail[h..s] == size;
    assert data[index + s..index + n] == tail[s..n] == o.payload;
    assert data[index + n..] == tail[n..] == rest;
  }

  /** What one round of the extraction does with a unit whose size field is read as `n` in `k` bytes. */
  lemma ExtractRound(data: Bytes, index: nat, o: Obu, k: nat, n: nat, acc: seq<Bytes>)
    requires o.Valid() && index + 1 + |o.extension| + k + n <= |data| && n < 0x1_0000_0000 && k > 0
    requires data[index] == o.header && data[index + 1..index + 1 + |o.extension|] == o.extension
    requires ReadLeb(data, index + 1 + |o.extension|, 0, 0, 1) == Leb(n, k)
    requires var s := index + 1 + |o.extension| + k; data[s..s + n] == o.payload
    ensures ExtractFrom(data, index, acc) == ExtractFrom(data, index + 1 + |o.extension| + k + n, acc + [o.Bare()])
  {
    hide ReadLeb;
  }

  /** One well-formed unit is taken off and stripped of its size. */
  lemma ExtractOne(data: Bytes, index: nat, item: Item, rest: Bytes, acc: seq<Bytes>)
    requires item.Valid() && index <= |data| && data[index..] == item.obu.Sized(item.size) + rest
    ensures var n := index + |item.obu.Sized(item.size)|;
            n <= |data| && data[n..] == rest &&
            ExtractFrom(data, index, acc) == ExtractFrom(data, n, acc + [item.obu.Bare()])
  {
    hide ReadLeb, LebValue, Obu.Sized, Obu.Bare, ExtractFrom, IsLeb;
    var o, size := item.obu, item.size;
    SizedParts(data, index, o, size, rest);
    LebShape(size);
    ReadLebReads(data, index + 1 + |o.extension|, 0, 0, 1, size);
    LebSmall(size);
    ExtractRound(data, index, o, |size|, |o.payload|, acc);
  }

  lemma BaresFront(items: seq<Item>, acc: seq<Bytes>)
    requires AllValid(items) && items != []
    ensures acc + Bares(items) == (acc + [items[0].obu.Bare()]) + Bares(items[1..])
  {
    hide Obu.Bare;
    assert Bares(items) == [items[0].obu.Bare()] + Bares(items[1..]);
  }

  /** Well-formed units yield each of them, in order, stripped of its size; then comes what is behind them. */
  lemma {:induction false} ExtractUnits(data: Bytes, index: nat, items: seq<Item>, tail: Bytes, acc: seq<Bytes>)
    requires AllValid(items) && index <= |data| && data[index..] == Serialized(items) + tail
    ensures ExtractFrom(data, index, acc) == ExtractFrom(data, |data| - |tail|, acc + Bares(items))
    ensures data[|data| - |tail|..] == tail
    decreases |items|
  {
    hide LebValue, ReadLeb, Obu.Sized, Obu.Bare, ExtractFrom;
    if items == [] {
      assert data[index..] == tail;
      assert acc + Bares(items) == acc;
    } else {
      var item := items[0];
      var rest := Serialized(items[1..]) + tail;
      assert Serialized(items) + tail == item.obu.Sized(item.size) + rest;
      ExtractOne(data, index, item, rest, acc);
      ExtractUnits(data, index + |item.obu.Sized(item.size)|, items[1..], tail, acc + [item.obu.Bare()]);
      BaresFront(items, acc);
    }
  }

  /** A temporal unit of well-formed units yields each of them, in order, stripped of its size. */
  lemma ExtractSerialized(data: Bytes, index: nat, items: seq<Item>, acc: seq<Bytes>)
    requires AllValid(items) && index <= |data| && data[index..] == Serialized(items)
    ensures ExtractFrom(data, index, acc) == Obus(acc + Bares(items))
  {
    hide Obu.Bare, Serialized;
    assert Serialized(items) + [] == Serialized(items);
    ExtractUnits(data, index, items, [], acc);
  }

  /** A unit that has no size field ends the extraction. */
  lemma ExtractStops(data: Bytes, index: nat, items: seq<Item>, tail: Bytes, acc: seq<Bytes>)
    requires AllValid(items) && index <= |data| && data[index..] == Serialized(items) + tail
    requires tail != [] && tail[0] / 2 % 2 == 0
    ensures ExtractFrom(data, index, acc) == Obus(acc + Bares(items))
  {
    hide Obu.Bare, Serialized, ReadLeb;
    ExtractUnits(data, index, items, tail, acc);
    assert data[|data| - |tail|] == tail[0];
  }

  /** A unit whose size runs over the end is left without its payload, and is the last. */
  lemma ExtractOverrun(data: Bytes, index: nat, items: seq<Item>, item: Item, acc: seq<Bytes>)
    requires AllValid(items) && index <= |data| && item.obu.Valid() && IsLeb(item.size)
    requires data[index..] == Serialized(items) + item.obu.Sized(item.size)
    requires LebValue(item.size) > |item.obu.payload|
    ensures ExtractFrom(data, index, acc) == Obus(acc + Bares(items) + [[item.obu.header - 2] + item.obu.extension])
  {
    hide Obu.Bare, Serialized, ReadLeb, Obu.Sized, LebValue, IsLeb, ExtractFrom;
    var o, size := item.obu, item.size;
    ExtractUnits(data, index, items, o.Sized(size), acc);
    var at := |data| - |o.Sized(size)|;
    assert data[at..] == o.Sized(size) + [];
    SizedParts(data, at, o, size, []);
    LebShape(size);
    LebSmall(size);
    ReadLebReads(data, at + 1 + |o.extension|, 0, 0, 1, size);
    OverrunRound(data, at, o, |size|, LebValue(size), acc + Bares(items));
  }

  lemma OverrunRound(data: Bytes, index: nat, o: Obu, k: nat, n: nat, acc: seq<Bytes>)
    requires o.Valid() && index + 1 + |o.extension| + k <= |data| && n < 0x1_0000_0000 && k > 0
    requires data[index] == o.header && data[index + 1..index + 1 + |o.extension|] == o.extension
    requires ReadLeb(data, index + 1 + |o.extension|, 0, 0, 1) == Leb(n, k)
    requires index + 1 + |o.extension| + k + n > |data|
    ensures ExtractFrom(data, index, acc) == Obus(acc + [[o.header - 2] + o.extension])
  {
    hide ReadLeb;
    assert [o.header - 2] + o.extension + [] == [o.header - 2] + o.extension;
  }

  /** A unit that ends ahead of the end of its size makes the extraction throw. */
  lemma ExtractThrows(data: Bytes, index: nat, items: seq<Item>, tail: Bytes, acc: seq<Bytes>)
    requires AllValid(items) && index <= |data| && data[index..] == Serialized(items) + tail
    requires tail != [] && HasSize(tail[0]) && |tail| < 8
    requires forall i :: (if HasExtension(tail[0]) then 2 else 1) <= i < |tail| ==> tail[i] >= 128
    ensures ExtractFrom(data, index, acc) == Throws
  {
    hide Obu.Bare, Serialized, ReadLeb;
    ExtractUnits(data, index, items, tail, acc);
    var at := |data| - |tail|;
    var h := if HasExtension(tail[0]) then 2 else 1;
    assert data[at] == tail[0];
    if at + h <= |data| {
      assert forall i :: at + h <= i < |data| ==> data[i] == tail[i - at];
      UnfinishedLeb(data, at + h, 0, 0, 1);
    }
  }

  lemma {:induction false} UnfinishedLeb(data: Bytes, at: nat, k: nat, value: nat, scale: nat)
    requires at <= |data| && k + |data| - at < 8 && forall i :: at <= i < |data| ==> data[i] >= 128
    ensures ReadLeb(data, at, k, value, scale) == LebThrows
    decreases |data| - at
  {
    if at < |data| {
      UnfinishedLeb(data, at + 1, k + 1, value + scale * (data[at] % 128), 128 * scale);
    }
  }

  // ---------------------------------------------------------------- handing on

  /** `appendObuWithSize` for one element. */
  function WithSize(element: Bytes): Bytes {
    if element == [] then []
    else
      var header := element[0];
      var h := if HasExtension(header) then 2 else 1;
      if |element| < h then []
      else if HasSize(header) then
        var leb := ReadLeb4(element, h, 0);
        var body := element[leb.1..];
        var body' := if leb.0 < |body| then body[..leb.0] else body;
        [header] + element[1..h] + MinLeb(|body'|) + body'
      else [header + 2] + element[1..h] + MinLeb(|element| - h) + element[h..]
  }

  /** The four-byte reading loop of the depacketizer: the value and the index behind it. */
  function ReadLeb4(data: Bytes, at: nat, k: nat): (r: (nat, nat))
    requires at <= |data|
    ensures at <= r.1 <= |data|
    decreases 4 - k
  {
    if k >= 4 || at == |data| then (0, at)
    else if data[at] < 128 then (data[at], at + 1)
    else
      var (v, e) := ReadLeb4(data, at + 1, k + 1);
      (data[at] % 128 + 128 * v, e)
  }

  /** A bare unit gets its size back, in the shortest form. */
  lemma BareIsHandedOn(o: Obu)
    requires o.Valid()
    ensures WithSize(o.Bare()) == o.Canonical()
  {
    hide MinLeb;
    var b := o.Bare();
    var h := 1 + |o.extension|;
    assert b[1..h] == o.extension && b[h..] == o.payload;
    assert b[0] == o.header - 2;
    assert HasExtension(o.header - 2) == HasExtension(o.header) && !HasSize(o.header - 2);
  }

  /** The depacketizer's loop reads any LEB128 number of at most four bytes. */
  lemma {:induction false} Leb4Reads(data: Bytes, at: nat, k: nat, b: Bytes)
    requires b != [] && at + |b| <= |data| && data[at..at + |b|] == b && k + |b| <= 4
    requires b[|b| - 1] < 128 && forall i :: 0 <= i < |b| - 1 ==> b[i] >= 128
    ensures ReadLeb4(data, at, k) == (LebValue(b), at + |b|)
    decreases |b|
  {
    assert data[at] == data[at..at + |b|][0];
    if |b| == 1 {
      assert b[1..] == [];
      assert LebValue(b) == b[0];
    } else {
      assert data[at + 1..at + |b|] == data[at..at + |b|][1..] == b[1..];
      Leb4Reads(data, at + 1, k + 1, b[1..]);
    }
  }

  /**
    A unit that already has its size, however spelled, is handed on with the shortest spelling:
    what is behind its payload goes, and a size beyond the end is cut to what is there.
   */
  lemma SizedIsHandedOn(o: Obu, size: Bytes, rest: Bytes)
    requires o.Valid() && IsLeb(size)
    requires LebValue(size) == |o.payload| || (LebValue(size) > |o.payload| && rest == [])
    ensures WithSize(o.Sized(size) + rest) == o.Canonical()
  {
    hide MinLeb, LebValue, ReadLeb4, Obu.Sized, WithSize, IsLeb;
    var b := o.Sized(size) + rest;
    assert b[0..] == b;
    SizedParts(b, 0, o, size, rest);
    LebShape(size);
    var h := 1 + |o.extension|;
    Leb4Reads(b, h, 0, size);
    assert b[h + |size|..] == o.payload + rest;
    CutToSize(b, o, LebValue(size), h + |size|, rest);
  }

  lemma LebShape(b: Bytes)
    requires IsLeb(b)
    ensures 1 <= |b| <= 4 && b[|b| - 1] < 128 && forall i :: 0 <= i < |b| - 1 ==> b[i] >= 128
  {
  }

  /** What is handed on of a unit with a size field, `at` being where its payload begins. */
  lemma CutToSize(b: Bytes, o: Obu, n: nat, at: nat, rest: Bytes)
    requires o.Valid() && 1 + |o.extension| <= at <= |b|
    requires b[0] == o.header && b[1..1 + |o.extension|] == o.extension && b[at..] == o.payload + rest
    requires ReadLeb4(b, 1 + |o.extension|, 0) == (n, at)
    requires n == |o.payload| || (n > |o.payload| && rest == [])
    ensures WithSize(b) == o.Canonical()
  {
    hide MinLeb, ReadLeb4;
    assert (o.payload + rest)[..|o.payload|] == o.payload;
    assert rest == [] ==> o.payload + rest == o.payload;
  }
}
