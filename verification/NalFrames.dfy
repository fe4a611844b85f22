/**
  H.264 and H.265 fragmentation (src/nalunit.cpp, src/h265nalunit.cpp): the payloads of a frame's
  units are small enough, parse back to their pieces, and cut every unit cleanly.
 */
module NalFrames {
  import opened Bits
  import opened NalAssembly
  import opened NalCodec
  import opened Fragmentation

  // ---------------------------------------------------------------- the cut is a good one

  ghost predicate AllWellCut(units: seq<Bytes>, ps: seq<Piece>) {
    forall q :: 0 <= q < |ps| ==> WellCut(units, ps, q)
  }

  /** Every payload is parsed as the piece it carries. */
  ghost predicate Parsed(c: Codec, ps: seq<Piece>) {
    forall q :: 0 <= q < |ps| ==> c.Parse(ps[q].payload) == ps[q].event
  }

  /** Every payload also fits. */
  ghost predicate Faithful(c: Codec, max: nat, ps: seq<Piece>) {
    forall q :: 0 <= q < |ps| ==> |ps[q].payload| <= max && c.Parse(ps[q].payload) == ps[q].event
  }

  /** The next piece belongs to unit `owner`, which is untouched so far. */
  predicate ReadyFor(ps: seq<Piece>, owner: nat) {
    if ps == [] then owner == 0 else ps[|ps| - 1].Closes() && ps[|ps| - 1].owner + 1 == owner
  }

  /** Unit `owner` has been sent up to byte `k` and goes on. */
  predicate Midway(ps: seq<Piece>, owner: nat, nal: Bytes, k: nat) {
    && ps != [] && k <= |nal|
    && var p := ps[|ps| - 1];
    && !p.Closes() && p.owner == owner && p.upTo == nal[..k]
  }

  lemma AddPiece(c: Codec, max: nat, units: seq<Bytes>, ps: seq<Piece>, p: Piece)
    requires AllWellCut(units, ps) && Faithful(c, max, ps)
    requires WellCut(units, ps + [p], |ps|) && |p.payload| <= max && c.Parse(p.payload) == p.event
    ensures AllWellCut(units, ps + [p]) && Faithful(c, max, ps + [p])
  {
    hide WellCut, Codec.Parse;
    forall q | 0 <= q < |ps|
      ensures WellCut(units, ps + [p], q)
    {
      SamePrefix(units, ps, p, q);
    }
  }

  lemma SamePrefix(units: seq<Bytes>, ps: seq<Piece>, p: Piece, q: nat)
    requires q < |ps| && WellCut(units, ps, q)
    ensures WellCut(units, ps + [p], q)
  {
    var longer := ps + [p];
    assert longer[q] == ps[q] && (q > 0 ==> longer[q - 1] == ps[q - 1]);
  }

  lemma PieceIsWellCut(c: Codec, units: seq<Bytes>, owner: nat, chunk: nat, offset: nat, acc: seq<Piece>)
    requires owner < |units| && c.PassesThrough(units[owner]) && chunk > 0
    requires var size := |units[owner]| - c.HeaderSize();
             offset < size && (offset == 0 ==> chunk < size)
    requires if offset == 0 then ReadyFor(acc, owner) else Midway(acc, owner, units[owner], c.HeaderSize() + offset)
    ensures var nal, p := units[owner], PieceAt(c, units[owner], owner, chunk, offset);
            var e := EndOf(|nal| - c.HeaderSize(), chunk, offset);
            && WellCut(units, acc + [p], |acc|)
            && c.Parse(p.payload) == p.event && |p.payload| <= c.Overhead() + chunk
            && (if e == |nal| - c.HeaderSize() then ReadyFor(acc + [p], owner + 1)
                else Midway(acc + [p], owner, nal, c.HeaderSize() + e))
  {
    hide Codec.Parse, Codec.Wrap, Codec.PassesThrough;
    var nal, h := units[owner], c.HeaderSize();
    var e := EndOf(|nal| - h, chunk, offset);
    var p := PieceAt(c, nal, owner, chunk, offset);
    ParseWrap(c, nal, p.event.start, p.event.end, p.event.data);
    assert nal[..h] + nal[h..h + e] == nal[..h + e];
    assert nal[..h + offset] + nal[h + offset..h + e] == nal[..h + e];
  }

  lemma {:induction false} CutIntoIsWellCut(c: Codec, max: nat, units: seq<Bytes>, owner: nat, chunk: nat, offset: nat, acc: seq<Piece>)
    requires owner < |units| && c.PassesThrough(units[owner]) && 0 < chunk && c.Overhead() + chunk <= max
    requires var size := |units[owner]| - c.HeaderSize();
             offset <= size && chunk < size
    requires AllWellCut(units, acc) && Faithful(c, max, acc)
    requires if offset == 0 then ReadyFor(acc, owner)
             else if offset < |units[owner]| - c.HeaderSize() then Midway(acc, owner, units[owner], c.HeaderSize() + offset)
             else ReadyFor(acc, owner + 1)
    ensures var ps := CutInto(c, units[owner], owner, chunk, offset, acc);
            AllWellCut(units, ps) && Faithful(c, max, ps) && ReadyFor(ps, owner + 1)
    decreases |units[owner]| - offset
  {
    hide WellCut, Codec.Parse, PieceAt, Codec.PassesThrough;
    var size := |units[owner]| - c.HeaderSize();
    if offset < size {
      var p := PieceAt(c, units[owner], owner, chunk, offset);
      PieceIsWellCut(c, units, owner, chunk, offset, acc);
      AddPiece(c, max, units, acc, p);
      CutIntoIsWellCut(c, max, units, owner, chunk, EndOf(size, chunk, offset), acc + [p]);
    }
  }

  lemma CutOneIsWellCut(c: Codec, max: nat, units: seq<Bytes>, owner: nat, acc: seq<Piece>)
    requires owner < |units| && c.PassesThrough(units[owner]) && Cuttable(c, units[owner], max)
    requires AllWellCut(units, acc) && Faithful(c, max, acc) && ReadyFor(acc, owner)
    ensures var ps := CutOne(c, units[owner], owner, max, acc);
            AllWellCut(units, ps) && Faithful(c, max, ps) && ReadyFor(ps, owner + 1)
  {
    hide Codec.Parse, CutInto;
    var nal := units[owner];
    if |nal| > max {
      EvenSizeFits(|nal|, max);
      CutIntoIsWellCut(c, max, units, owner, EvenSize(|nal|, max) - c.Overhead(), 0, acc);
    } else {
      ParseWhole(c, nal);
      assert units[owner..owner + 1] == [nal];
      AddPiece(c, max, units, acc, Piece(nal, Whole([nal]), owner, nal));
    }
  }

  ghost predicate AllPass(c: Codec, units: seq<Bytes>) {
    forall i :: 0 <= i < |units| ==> c.PassesThrough(units[i])
  }

  lemma {:induction false} CutPrefix(c: Codec, max: nat, units: seq<Bytes>, n: nat)
    requires n <= |units| && AllPass(c, units) && AllCuttable(c, units, max)
    ensures var ps := CutAll(c, units[..n], max);
            AllWellCut(units, ps) && Faithful(c, max, ps) && ReadyFor(ps, n)
    decreases n
  {
    if n > 0 {
      hide AllWellCut, Faithful, CutOne;
      CutPrefix(c, max, units, n - 1);
      assert units[..n][..n - 1] == units[..n - 1];
      CutOneIsWellCut(c, max, units, n - 1, CutAll(c, units[..n - 1], max));
    }
  }

  /**
    Fragmentation is faithful: every payload is at most the maximum and is parsed back as its
    piece, and the pieces of a unit are either the unit itself or Start Middle* End.
   */
  lemma FragmentationIsACut(c: Codec, max: nat, units: seq<Bytes>)
    requires AllPass(c, units) && AllCuttable(c, units, max)
    ensures Cut(units, CutAll(c, units, max))
    ensures Faithful(c, max, CutAll(c, units, max)) && Parsed(c, CutAll(c, units, max))
  {
    hide WellCut, Codec.PassesThrough, Codec.Parse;
    CutPrefix(c, max, units, |units|);
    assert units[..|units|] == units;
    if units != [] {
      CutIsNotEmpty(c, max, units);
    }
  }

  lemma CutIsNotEmpty(c: Codec, max: nat, units: seq<Bytes>)
    requires AllPass(c, units) && AllCuttable(c, units, max) && units != []
    ensures CutAll(c, units, max) != []
  {
    CutPrefix(c, max, units, |units|);
    assert units[..|units|] == units;
  }
}
