/**
  The packet cache of the NACK responder (src/rtcpnackresponder.cpp): a singly linked list from
  the oldest to the newest element and a hash map into it.
 */
module PacketCache {
  import opened Bits
  import opened Options
  import opened RtpPacket

  /** A stored packet under its sequence number. */
  datatype Entry = Entry(seqNumber: U16, packet: Bytes)

  // ---------------------------------------------------------------- on values

  /** The list and the map as values, map entries being positions in the list. */
  datatype Contents = Contents(list: seq<Entry>, index: map<U16, nat>)

  /** The map points into the list, and the two are empty together. */
  ghost predicate Coherent(c: Contents) {
    && (forall s :: s in c.index ==> c.index[s] < |c.list| && c.list[c.index[s]].seqNumber == s)
    && (c.list == [] <==> c.index == map[])
  }

  /** Positions shift by one when the oldest element goes. */
  function Shifted(index: map<U16, nat>, gone: U16): (r: map<U16, nat>)
    ensures r.Keys == index.Keys - {gone}
  {
    map s | s in index && s != gone :: if index[s] == 0 then 0 else index[s] - 1
  }

  /** `emplace` of the new element: it does not replace an entry that is there already. */
  function Appended(c: Contents, e: Entry): Contents {
    Contents(c.list + [e], if e.seqNumber in c.index then c.index else c.index[e.seqNumber := |c.list|])
  }

  /** `Storage::store` */
  function Stored(c: Contents, maxSize: nat, e: Entry): Contents
    requires maxSize > 0
  {
    var a := Appended(c, e);
    if |a.index| > maxSize then Contents(a.list[1..], Shifted(a.index, a.list[0].seqNumber)) else a
  }

  function Lookup(c: Contents, s: U16): Option<Bytes>
    requires Coherent(c)
  {
    if s in c.index then Some(c.list[c.index[s]].packet) else None
  }

  lemma {:induction false} KeysBounded(c: Contents)
    requires forall s :: s in c.index ==> c.index[s] < |c.list| && c.list[c.index[s]].seqNumber == s
    ensures |c.index| <= |c.list|
    decreases |c.list|
  {
    if c.list == [] {
      assert c.index == map[];
    } else {
      var n := |c.list| - 1;
      var e := c.list[n];
      var smaller := Contents(c.list[..n], map s | s in c.index && c.index[s] < n :: c.index[s]);
      KeysBounded(smaller);
      assert c.index.Keys <= smaller.index.Keys + {e.seqNumber};
      CardinalityLe(c.index.Keys, smaller.index.Keys + {e.seqNumber});
    }
  }

  lemma OneLess(index: map<U16, nat>, gone: U16)
    requires |index| >= 2
    ensures Shifted(index, gone) != map[]
  {
    var r := Shifted(index, gone);
    assert index.Keys == r.Keys + ({gone} * index.Keys);
    CardinalityLe({gone} * index.Keys, {gone});
    assert |index.Keys| == |index|;
    assert r == map[] ==> r.Keys == {};
  }

  lemma CardinalityLe<T>(a: set<T>, b: set<T>)
    requires a <= b
    ensures |a| <= |b|
  {
    assert b == a + (b - a);
  }

  lemma StoreKeepsCoherent(c: Contents, maxSize: nat, e: Entry)
    requires maxSize > 0 && Coherent(c)
    ensures Coherent(Stored(c, maxSize, e))
    ensures |Appended(c, e).index| > maxSize ==> |Appended(c, e).list| >= 2
  {
    var a := Appended(c, e);
    KeysBounded(a);
    if |a.index| > maxSize {
      var gone := a.list[0].seqNumber;
      var r := Stored(c, maxSize, e);
      forall s | s in r.index
        ensures r.index[s] < |r.list| && r.list[r.index[s]].seqNumber == s
      {
        assert a.list[a.index[s]].seqNumber == s && a.index[s] > 0;
      }
      assert |r.index.Keys| >= |a.index.Keys| - 1 by {
        assert a.index.Keys == r.index.Keys + ({gone} * a.index.Keys);
        CardinalityLe({gone} * a.index.Keys, {gone});
      }
    }
  }

  // ---------------------------------------------------------------- the last maxSize packets

  function Run(maxSize: nat, log: seq<Entry>): Contents
    requires maxSize > 0
  {
    if log == [] then Contents([], map[]) else Stored(Run(maxSize, log[..|log| - 1]), maxSize, log[|log| - 1])
  }

  function Window(maxSize: nat, log: seq<Entry>): seq<Entry> {
    if |log| <= maxSize then log else log[|log| - maxSize..]
  }

  /** Sequence numbers are distinct in every `maxSize + 1` consecutive stores. */
  ghost predicate DistinctWindows(maxSize: nat, log: seq<Entry>) {
    forall i, j :: 0 <= i < j < |log| && j - i <= maxSize ==> log[i].seqNumber != log[j].seqNumber
  }

  ghost predicate Distinct(list: seq<Entry>) {
    forall i, j :: 0 <= i < j < |list| ==> list[i].seqNumber != list[j].seqNumber
  }

  /** The map finds exactly the elements of the list. */
  ghost predicate Exact(c: Contents) {
    && Distinct(c.list)
    && (forall s :: s in c.index ==> c.index[s] < |c.list| && c.list[c.index[s]].seqNumber == s)
    && (forall i :: 0 <= i < |c.list| ==> c.list[i].seqNumber in c.index && c.index[c.list[i].seqNumber] == i)
  }

  function Keys(list: seq<Entry>): set<U16> {
    set i | 0 <= i < |list| :: list[i].seqNumber
  }

  lemma {:induction false} KeysCount(list: seq<Entry>)
    requires Distinct(list)
    ensures |Keys(list)| == |list|
  {
    if list != [] {
      var n := |list| - 1;
      KeysCount(list[..n]);
      assert Keys(list) == Keys(list[..n]) + {list[n].seqNumber};
      assert list[n].seqNumber !in Keys(list[..n]);
    }
  }

  lemma ExactSize(c: Contents)
    requires Exact(c)
    ensures |c.index| == |c.list|
  {
    KeysCount(c.list);
    assert c.index.Keys == Keys(c.list);
  }

  lemma AppendExact(c: Contents, e: Entry)
    requires Exact(c) && forall i :: 0 <= i < |c.list| ==> c.list[i].seqNumber != e.seqNumber
    ensures Exact(Appended(c, e))
  {
  }

  lemma EvictExact(a: Contents)
    requires Exact(a) && a.list != []
    ensures Exact(Contents(a.list[1..], Shifted(a.index, a.list[0].seqNumber)))
  {
    var r := Contents(a.list[1..], Shifted(a.index, a.list[0].seqNumber));
    assert forall i :: 0 <= i < |r.list| ==> r.list[i] == a.list[i + 1];
  }

  /** Storing a new number shifts the window by one. */
  lemma StoreExact(c: Contents, maxSize: nat, e: Entry)
    requires maxSize > 0 && Exact(c) && |c.list| <= maxSize
    requires forall i :: 0 <= i < |c.list| ==> c.list[i].seqNumber != e.seqNumber
    ensures Exact(Stored(c, maxSize, e))
    ensures Stored(c, maxSize, e).list == if |c.list| < maxSize then c.list + [e] else (c.list + [e])[1..]
  {
    hide Exact;
    AppendExact(c, e);
    var a := Appended(c, e);
    ExactSize(a);
    if |a.index| > maxSize {
      EvictExact(a);
    }
  }

  lemma WindowFresh(maxSize: nat, log: seq<Entry>, i: nat)
    requires DistinctWindows(maxSize, log) && log != [] && i < |Window(maxSize, log[..|log| - 1])|
    ensures Window(maxSize, log[..|log| - 1])[i].seqNumber != log[|log| - 1].seqNumber
  {
    var before := log[..|log| - 1];
    var w := Window(maxSize, before);
    assert w[i] == before[|before| - |w| + i] == log[|before| - |w| + i];
  }

  lemma PrefixDistinct(maxSize: nat, log: seq<Entry>, n: nat)
    requires DistinctWindows(maxSize, log) && n <= |log|
    ensures DistinctWindows(maxSize, log[..n])
  {
  }

  lemma WindowSnoc(maxSize: nat, log: seq<Entry>)
    requires maxSize > 0 && log != []
    ensures var w, e := Window(maxSize, log[..|log| - 1]), log[|log| - 1];
            |w| <= maxSize &&
            Window(maxSize, log) == if |w| < maxSize then w + [e] else (w + [e])[1..]
  {
    assert log == log[..|log| - 1] + [log[|log| - 1]];
  }

  lemma {:induction false} RunIsWindow(maxSize: nat, log: seq<Entry>)
    requires maxSize > 0 && DistinctWindows(maxSize, log)
    ensures Exact(Run(maxSize, log)) && Run(maxSize, log).list == Window(maxSize, log)
    decreases |log|
  {
    if log != [] {
      hide Stored, Exact, DistinctWindows;
      var n := |log| - 1;
      var before, e := log[..n], log[n];
      PrefixDistinct(maxSize, log, n);
      RunIsWindow(maxSize, before);
      var c := Run(maxSize, before);
      forall i | 0 <= i < |c.list|
        ensures c.list[i].seqNumber != e.seqNumber
      {
        WindowFresh(maxSize, log, i);
      }
      WindowSnoc(maxSize, log);
      StoreExact(c, maxSize, e);
    }
  }

  /**
    The cache is the last `maxSize` packets: after any run of stores whose sequence numbers are
    distinct in every window of one more, a packet is found if and only if it is among them, and
    the list from oldest to newest is that window.
   */
  lemma CacheIsLastPackets(maxSize: nat, log: seq<Entry>, s: U16)
    requires maxSize > 0 && DistinctWindows(maxSize, log)
    ensures Coherent(Run(maxSize, log)) && Run(maxSize, log).list == Window(maxSize, log)
    ensures forall p: Bytes :: Lookup(Run(maxSize, log), s) == Some(p) <==> Entry(s, p) in Window(maxSize, log)
  {
    RunIsWindow(maxSize, log);
    var c := Run(maxSize, log);
    if c.list != [] {
      assert c.list[0].seqNumber in c.index;
    } else {
      assert c.index == map[];
    }
  }

  /** Consecutive sequence numbers satisfy the condition, wraparound included. */
  lemma ConsecutiveIsDistinct(maxSize: nat, log: seq<Entry>, first: nat)
    requires maxSize < 65536
    requires forall i :: 0 <= i < |log| ==> log[i].seqNumber == (first + i) % 65536
    ensures DistinctWindows(maxSize, log)
  {
    forall i, j | 0 <= i < j < |log| && j - i <= maxSize
      ensures log[i].seqNumber != log[j].seqNumber
    {
      SmallShift(first + i, j - i);
    }
  }

  lemma SmallShift(x: nat, d: nat)
    requires 0 < d < 65536
    ensures x % 65536 != (x + d) % 65536
  {
  }

  /**
    Exactly which stores are found again, in every state a cache can be in: the number is new, or
    cached with the same packet, and the eviction that follows does not take it away at once.
   */
  lemma StoreIsFoundIff(c: Contents, maxSize: nat, e: Entry)
    requires maxSize > 0 && Coherent(c)
    ensures Coherent(Stored(c, maxSize, e))
    ensures var a := Appended(c, e);
            Lookup(Stored(c, maxSize, e), e.seqNumber) == Some(e.packet) <==>
            && (e.seqNumber !in c.index || c.list[c.index[e.seqNumber]].packet == e.packet)
            && (|a.index| <= maxSize || a.list[0].seqNumber != e.seqNumber)
  {
    StoreKeepsCoherent(c, maxSize, e);
    var a, s, r := Appended(c, e), e.seqNumber, Stored(c, maxSize, e);
    assert s in a.index && a.list[a.index[s]].seqNumber == s;
    assert a.list[a.index[s]] == if s in c.index then c.list[c.index[s]] else e;
    if |a.index| > maxSize && a.list[0].seqNumber != s {
      assert a.index[s] > 0 && r.index[s] == a.index[s] - 1 && r.list[r.index[s]] == a.list[a.index[s]];
    }
  }

  /** The eviction frees an entry if and only if the oldest element's number is in the map. */
  lemma EvictionFreesIff(c: Contents, maxSize: nat, e: Entry)
    requires maxSize > 0 && |Appended(c, e).index| > maxSize
    ensures var a := Appended(c, e);
            |Stored(c, maxSize, e).index| ==
            if a.list[0].seqNumber in a.index then |a.index| - 1 else |a.index|
  {
    var a, r := Appended(c, e), Stored(c, maxSize, e);
    var gone := a.list[0].seqNumber;
    assert r.index.Keys == a.index.Keys - {gone};
    assert |r.index| == |r.index.Keys| && |a.index| == |a.index.Keys|;
  }

  /**
    Exactly which stores keep the cache within its limit: the number is cached already, there is
    room, or the oldest element's number is in the map, so that evicting it makes room.
   */
  lemma StaysWithinLimitIff(c: Contents, maxSize: nat, e: Entry)
    requires maxSize > 0 && Coherent(c) && |c.index| <= maxSize
    ensures var a := Appended(c, e);
            |Stored(c, maxSize, e).index| <= maxSize <==>
            e.seqNumber in c.index || |c.index| < maxSize || a.list[0].seqNumber in a.index
  {
    var a := Appended(c, e);
    assert |a.index| == |a.index.Keys| && |c.index| == |c.index.Keys|;
    if e.seqNumber !in c.index {
      assert a.index.Keys == c.index.Keys + {e.seqNumber};
    }
    if |a.index| > maxSize {
      EvictionFreesIff(c, maxSize, e);
    }
  }

  /**
    The run of stores 1, 1, 2, 1 with room for one packet: the third store leaves a stale element
    numbered 1 at the front and the map without 1, so that the fourth evicts what it has just stored.
   */
  lemma RepeatedNumberRun(p: Bytes, q: Bytes, r: Bytes, t: Bytes)
    ensures var log := [Entry(1, p), Entry(1, q), Entry(2, r)];
            && Run(1, log) == Contents([Entry(1, q), Entry(2, r)], map[2 := 1])
            && Run(1, log + [Entry(1, t)]) == Contents([Entry(2, r), Entry(1, t)], map[2 := 0])
  {
    hide Run, Stored, Shifted, Appended;
    var e1, e2, e3, e4 := Entry(1, p), Entry(1, q), Entry(2, r), Entry(1, t);
    RunOf([e1, e2, e3], e4);
    RunOf([e1, e2], e3);
    RunOf([e1], e2);
    RunOf([], e1);
    assert [e1, e2] + [e3] == [e1, e2, e3] && [e1] + [e2] == [e1, e2] && [] + [e1] == [e1];
    FirstStores(p, q);
    ThirdStore(p, q, r);
    FourthStore(q, r, t);
  }

  lemma RunOf(log: seq<Entry>, e: Entry)
    ensures Run(1, log + [e]) == Stored(Run(1, log), 1, e)
    ensures Run(1, []) == Contents([], map[])
  {
    assert (log + [e])[..|log|] == log;
  }

  lemma FirstStores(p: Bytes, q: Bytes)
    ensures Stored(Contents([], map[]), 1, Entry(1, p)) == Contents([Entry(1, p)], map[1 := 0])
    ensures Stored(Contents([Entry(1, p)], map[1 := 0]), 1, Entry(1, q)) ==
            Contents([Entry(1, p), Entry(1, q)], map[1 := 0])
  {
    hide Shifted;
  }

  lemma ThirdStore(p: Bytes, q: Bytes, r: Bytes)
    ensures Stored(Contents([Entry(1, p), Entry(1, q)], map[1 := 0]), 1, Entry(2, r)) ==
            Contents([Entry(1, q), Entry(2, r)], map[2 := 1])
  {
    var c := Contents([Entry(1, p), Entry(1, q)], map[1 := 0]);
    var a := Appended(c, Entry(2, r));
    assert a.index.Keys == {1, 2} && |a.index| == |a.index.Keys|;
    assert Stored(c, 1, Entry(2, r)).index == map[2 := 1];
  }

  lemma FourthStore(q: Bytes, r: Bytes, t: Bytes)
    ensures Stored(Contents([Entry(1, q), Entry(2, r)], map[2 := 1]), 1, Entry(1, t)) ==
            Contents([Entry(2, r), Entry(1, t)], map[2 := 0])
  {
    var c := Contents([Entry(1, q), Entry(2, r)], map[2 := 1]);
    var a := Appended(c, Entry(1, t));
    assert a.index.Keys == {1, 2} && |a.index| == |a.index.Keys|;
    assert Stored(c, 1, Entry(1, t)).index == map[2 := 0];
  }

  // ---------------------------------------------------------------- the object

  class Element {
    const entry: Entry
    var next: Element?

    constructor (e: Entry)
      ensures entry == e && next == null
    {
      entry, next := e, null;
    }
  }

  /** The map points into the chain, at elements of the right number. */
  ghost predicate Points(chain: seq<Element>, index: map<U16, nat>, storage: map<U16, Element>) {
    && index.Keys == storage.Keys
    && (forall s :: s in index ==> index[s] < |chain| && storage[s] == chain[index[s]])
    && (forall s :: s in index ==> chain[index[s]].entry.seqNumber == s)
  }

  /** Without the first element the shifted positions point where the old ones did. */
  lemma ShiftedPoints(was: seq<Element>, index: map<U16, nat>, storage: map<U16, Element>)
    requires was != [] && Points(was, index, storage)
    ensures var gone := was[0].entry.seqNumber;
            Points(was[1..], Shifted(index, gone), storage - {gone})
  {
    var r := Shifted(index, was[0].entry.seqNumber);
    forall s | s in r
      ensures index[s] > 0 && r[s] == index[s] - 1
    {
      assert was[index[s]].entry.seqNumber == s;
    }
  }

  class Storage {
    const maxSize: nat
    var oldest: Element?
    var newest: Element?
    var storage: map<U16, Element>

    ghost var Chain: seq<Element>      // from the oldest to the newest
    ghost var Index: map<U16, nat>     // where in the chain the map points

    /** The elements form one list, whose ends are known, and the map points into it. */
    ghost predicate Valid()
      reads this, Chain
    {
      && maxSize > 0
      && Linked()
      && Points(Chain, Index, storage)
      && (Chain == [] <==> Index == map[])
    }

    ghost predicate Linked()
      reads this`oldest, this`newest, this`Chain, Chain
    {
      && (Chain == [] <==> oldest == null) && (Chain == [] <==> newest == null)
      && (Chain != [] ==> oldest == Chain[0] && newest == Chain[|Chain| - 1] && newest.next == null)
      && (forall i {:trigger Chain[i].next} :: 0 <= i < |Chain| - 1 ==> Chain[i].next == Chain[i + 1])
      && (forall i, j :: 0 <= i < j < |Chain| ==> Chain[i] != Chain[j])
    }

    ghost function View(): Contents
      reads this
    {
      Contents(Entries(Chain), Index)
    }

    static ghost function Entries(chain: seq<Element>): (list: seq<Entry>)
      ensures |list| == |chain| && forall i :: 0 <= i < |chain| ==> list[i] == chain[i].entry
    {
      seq(|chain|, i requires 0 <= i < |chain| => chain[i].entry)
    }

    static lemma EntriesTail(chain: seq<Element>)
      requires chain != []
      ensures Entries(chain[1..]) == Entries(chain)[1..]
    {
    }

    static lemma EntriesSnoc(chain: seq<Element>, e: Element)
      ensures Entries(chain + [e]) == Entries(chain) + [e.entry]
    {
    }

    constructor (size: nat)
      requires size > 0
      ensures Valid() && maxSize == size && View() == Contents([], map[])
    {
      maxSize, oldest, newest, storage, Chain, Index := size, null, null, map[], [], map[];
    }

    /** `get` */
    method Get(s: U16) returns (r: Option<Bytes>)
      requires Valid()
      ensures Coherent(View()) && r == Lookup(View(), s)
    {
      r := if s in storage then Some(storage[s].entry.packet) else None;
    }

    /** The element goes behind the newest one. */
    method Link(current: Element)
      requires Linked() && current !in Chain && current.next == null
      modifies this`oldest, this`newest, this`Chain, newest
      ensures Linked() && Chain == old(Chain) + [current]
    {
      if newest == null {
        oldest := current;
      } else {
        newest.next := current;
      }
      newest := current;
      Chain := Chain + [current];
    }

    /** ... and, unless its number is taken, into the map. */
    method Append(e: Entry)
      requires Valid()
      modifies this, Chain
      ensures Valid() && View() == Appended(old(View()), e)
    {
      hide Storage.Linked;
      var current := new Element(e);
      EndIsInChain();
      EntriesSnoc(Chain, current);
      hide Storage.Entries;
      Emplace(e.seqNumber, current);
      Link(current);
      assert e.seqNumber in Index;
    }

    /** `emplace`, the element about to be linked at the end. */
    method Emplace(s: U16, current: Element)
      modifies this`storage, this`Index
      ensures s in old(storage) ==> storage == old(storage) && Index == old(Index)
      ensures s !in old(storage) ==> storage == old(storage)[s := current] && Index == old(Index)[s := |Chain|]
    {
      if s !in storage {
        storage := storage[s := current];
        Index := Index[s := |Chain|];
      }
    }

    lemma EndIsInChain()
      requires Linked()
      ensures newest == null || newest in Chain
    {
    }

    lemma OldestIsFirst()
      requires Linked() && Chain != []
      ensures oldest == Chain[0]
    {
    }

    /** `oldest` moves on. */
    method Unlink()
      requires Linked() && |Chain| >= 2
      modifies this`oldest, this`Chain
      ensures Linked() && Chain == old(Chain)[1..]
    {
      ghost var was := Chain;
      oldest := oldest.next;
      Chain := Chain[1..];
      forall i | 0 <= i < |Chain| - 1
        ensures Chain[i].next == Chain[i + 1]
      {
        assert Chain[i] == was[i + 1] && was[i + 1].next == was[i + 2];
      }
    }

    /** What the map has under the oldest element's number goes. */
    method Erase(gone: U16)
      modifies this`storage, this`Index
      ensures Index == Shifted(old(Index), gone) && storage == old(storage) - {gone}
    {
      storage := storage - {gone};
      Index := Shifted(Index, gone);
    }

    /** The oldest element goes, and what the map has under its number. */
    method EvictOldest()
      requires Valid() && |Chain| >= 2 && |Index| >= 2
      modifies this
      ensures Valid()
      ensures View() == Contents(old(View()).list[1..], Shifted(old(Index), old(View()).list[0].seqNumber))
    {
      hide Storage.Linked, Points, Shifted, Storage.Entries;
      OldestIsFirst();
      var gone := oldest.entry.seqNumber;
      OneLess(Index, gone);
      ShiftedPoints(Chain, Index, storage);
      EntriesTail(Chain);
      Erase(gone);
      Unlink();
    }

    /** `store`, which ignores what is too short to have a header. */
    method StorePacket(p: Bytes)
      requires Valid()
      modifies this, Chain
      ensures Valid()
      ensures View() == if |p| < 12 then old(View()) else Stored(old(View()), maxSize, Entry(SeqNumber(p), p))
    {
      if |p| < 12 {
        return;
      }
      Store(Entry(SeqNumber(p), p));
    }

    method Store(e: Entry)
      requires Valid()
      modifies this, Chain
      ensures Valid() && View() == Stored(old(View()), maxSize, e)
    {
      hide Shifted;
      Append(e);
      KeysBounded(View());
      if |storage| > maxSize {
        assert |storage| == |storage.Keys| == |Index.Keys| == |Index|;
        EvictOldest();
      }
    }
  }
}
