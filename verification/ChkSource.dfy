/**
  ChkCompressSource of chk/chk_base.cpp: the reader through which compression sees the chunks, in one
  piece when they lie in one block and chunk by chunk otherwise.
 */
module ChkSource {
  import opened ChkBase
  import opened ChkHeap
  import opened ChkImage
  import opened ChkIndexSpec

  /** `offset` is `_chk_offset`, or how far `_ptr` is into the block; `left` is `_bytes_left`. */
  datatype Cursor = Cursor(chkNo: nat, offset: nat, left: nat)

  // ---------- positions in the flat image ----------

  /** Where piece `j` starts when the pieces are laid end to end. */
  function Start<T>(pieces: seq<seq<T>>, j: nat): nat
    requires j <= |pieces|
    decreases j
  {
    if j == 0 then 0 else |pieces[0]| + Start(pieces[1..], j - 1)
  }

  lemma {:induction false} StartNext<T>(pieces: seq<seq<T>>, j: nat)
    requires j < |pieces|
    ensures Start(pieces, j + 1) == Start(pieces, j) + |pieces[j]|
    decreases j
  {
    if j > 0 { StartNext(pieces[1..], j - 1); }
  }

  /** The whole of every piece. */
  function Block<T>(pieces: seq<seq<T>>): seq<T>
    requires pieces != []
  {
    Flat(pieces, |pieces[|pieces| - 1]|)
  }

  /** How many elements are offered at position `pos`: in one block all that is left to read, otherwise the
      rest of the chunk that the position lies in, of the last chunk too the whole of it. */
  ghost predicate Offers<T>(pieces: seq<seq<T>>, lastLen: nat, continuous: bool, pos: nat, n: nat)
    requires Legible(pieces, lastLen)
  {
    if continuous then pos + n == |Flat(pieces, lastLen)|
    else exists j: nat :: j < |pieces| && Start(pieces, j) <= pos < Start(pieces, j + 1) == pos + n
  }

  lemma PeekExact<T>(pieces: seq<seq<T>>, lastLen: nat, continuous: bool, c: Cursor, pos: nat)
    requires Legible(pieces, lastLen) && At(pieces, lastLen, continuous, c, pos) && CanPeek(pieces, continuous, c)
    ensures Offers(pieces, lastLen, continuous, pos, |Peek(pieces, continuous, c)|)
  {
    if !continuous { StartNext(pieces, c.chkNo); }
  }

  /** A slice of a slice is a slice. */
  lemma SliceOfSlice<T>(f: seq<T>, s: nat, t: nat, a: nat, b: nat)
    requires s <= t <= |f| && a <= b <= t - s
    ensures f[s..t][a..b] == f[s + a..s + b]
  {
    forall k | 0 <= k < b - a ensures f[s..t][a..b][k] == f[s + a..s + b][k] {}
  }

  lemma SliceBehind<T>(a: seq<T>, b: seq<T>, i: nat, j: nat)
    requires i <= j <= |b|
    ensures (a + b)[|a| + i..|a| + j] == b[i..j]
  {
    forall k | 0 <= k < j - i ensures (a + b)[|a| + i..|a| + j][k] == b[i..j][k] {}
  }

  /** Piece `j` stands at its start in the flat image, the last one cut to `lastLen`. */
  ghost predicate PieceAt<T>(pieces: seq<seq<T>>, lastLen: nat, j: nat)
    requires j < |pieces| && lastLen <= |pieces[|pieces| - 1]|
  {
    var len, f, s := if j == |pieces| - 1 then lastLen else |pieces[j]|, Flat(pieces, lastLen), Start(pieces, j);
    s + len <= |f| == Start(pieces, |pieces| - 1) + lastLen && f[s..s + len] == pieces[j][..len]
  }

  lemma PieceBehind<T>(pieces: seq<seq<T>>, lastLen: nat, j: nat)
    requires 0 < j < |pieces| && lastLen <= |pieces[|pieces| - 1]| && PieceAt(pieces[1..], lastLen, j - 1)
    ensures PieceAt(pieces, lastLen, j)
  {
    var rest, s := Flat(pieces[1..], lastLen), Start(pieces[1..], j - 1);
    var len := if j == |pieces| - 1 then lastLen else |pieces[j]|;
    assert Flat(pieces, lastLen) == pieces[0] + rest && Start(pieces, j) == |pieces[0]| + s;
    assert Start(pieces, |pieces| - 1) == |pieces[0]| + Start(pieces[1..], |pieces| - 2);
    hide Flat;
    hide Start;
    SliceBehind(pieces[0], rest, s, s + len);
  }

  lemma PieceInFront<T>(pieces: seq<seq<T>>, lastLen: nat)
    requires |pieces| > 1 && lastLen <= |pieces[|pieces| - 1]| && PieceAt(pieces[1..], lastLen, |pieces| - 2)
    ensures PieceAt(pieces, lastLen, 0)
  {
    var rest := Flat(pieces[1..], lastLen);
    assert Flat(pieces, lastLen) == pieces[0] + rest && Start(pieces, 0) == 0;
    assert Start(pieces, |pieces| - 1) == |pieces[0]| + Start(pieces[1..], |pieces| - 2);
    hide Flat;
    hide Start;
    assert (pieces[0] + rest)[0..|pieces[0]|] == pieces[0];
  }

  lemma {:induction false} FlatPiece<T>(pieces: seq<seq<T>>, lastLen: nat, j: nat)
    requires j < |pieces| && lastLen <= |pieces[|pieces| - 1]|
    ensures PieceAt(pieces, lastLen, j)
    decreases |pieces|
  {
    if |pieces| > 1 {
      hide PieceAt;
      FlatPiece(pieces[1..], lastLen, if j > 0 then j - 1 else |pieces| - 2);
      if j > 0 { PieceBehind(pieces, lastLen, j); } else { PieceInFront(pieces, lastLen); }
    }
  }

  lemma {:induction false} FlatPrefix<T>(pieces: seq<seq<T>>, lastLen: nat)
    requires pieces != [] && lastLen <= |pieces[|pieces| - 1]|
    ensures Flat(pieces, lastLen) <= Block(pieces)
    ensures |Flat(pieces, lastLen)| == |Block(pieces)| - |pieces[|pieces| - 1]| + lastLen
    decreases |pieces|
  {
    if |pieces| > 1 { FlatPrefix(pieces[1..], lastLen); }
  }

  // ---------- the reader ----------

  /** The chunks to read: none is empty, and the last is read up to `lastLen`. */
  predicate Legible<T>(pieces: seq<seq<T>>, lastLen: nat) {
    pieces != [] && lastLen <= |pieces[|pieces| - 1]| && forall i :: 0 <= i < |pieces| ==> pieces[i] != []
  }

  /** The constructor, given the total capacity that the manager has on record. */
  function Begin<T>(pieces: seq<seq<T>>, total: nat, lastLen: nat): Cursor
    requires pieces != [] && |pieces[|pieces| - 1]| <= total
  {
    Cursor(0, 0, total - |pieces[|pieces| - 1]| + lastLen)
  }

  predicate CanPeek<T>(pieces: seq<seq<T>>, continuous: bool, c: Cursor) {
    if continuous then pieces != [] && c.offset + c.left <= |Block(pieces)|
    else c.chkNo < |pieces| && c.offset < |pieces[c.chkNo]|
  }

  function Peek<T>(pieces: seq<seq<T>>, continuous: bool, c: Cursor): seq<T>
    requires CanPeek(pieces, continuous, c)
  {
    if continuous then Block(pieces)[c.offset..c.offset + c.left] else pieces[c.chkNo][c.offset..]
  }

  function Skip<T>(pieces: seq<seq<T>>, continuous: bool, c: Cursor, n: nat): Cursor
    requires CanPeek(pieces, continuous, c) && n <= |Peek(pieces, continuous, c)|
  {
    if n == 0 then c
    else if continuous then c.(offset := c.offset + n, left := c.left - n)
    else if c.offset + n == |pieces[c.chkNo]| then Cursor(c.chkNo + 1, 0, c.left)
    else c.(offset := c.offset + n)
  }

  /** The reader has read `pos` elements of the flat image. */
  predicate At<T>(pieces: seq<seq<T>>, lastLen: nat, continuous: bool, c: Cursor, pos: nat)
    requires Legible(pieces, lastLen)
  {
    var n := |Flat(pieces, lastLen)|;
    && pos <= n
    && if continuous then c.offset == pos && c.left == n - pos
       else
         && c.left == n && c.chkNo <= |pieces| && pos == Start(pieces, c.chkNo) + c.offset
         && if c.chkNo < |pieces| then c.offset < |pieces[c.chkNo]| else c.offset == 0
  }

  lemma BeginAt<T>(pieces: seq<seq<T>>, total: nat, lastLen: nat, continuous: bool)
    requires Legible(pieces, lastLen) && total == |Block(pieces)|
    ensures |pieces[|pieces| - 1]| <= total && At(pieces, lastLen, continuous, Begin(pieces, total, lastLen), 0)
  {
    FlatPrefix(pieces, lastLen);
    FlatPiece(pieces, |pieces[|pieces| - 1]|, |pieces| - 1);
  }

  /** Until everything is read there is something to peek at. */
  lemma PeekOffers<T>(pieces: seq<seq<T>>, lastLen: nat, continuous: bool, c: Cursor, pos: nat)
    requires Legible(pieces, lastLen) && At(pieces, lastLen, continuous, c, pos) && pos < |Flat(pieces, lastLen)|
    ensures CanPeek(pieces, continuous, c) && Peek(pieces, continuous, c) != []
  {
    FlatPrefix(pieces, lastLen);
    FlatPiece(pieces, lastLen, |pieces| - 1);
    if !continuous && c.chkNo == |pieces| {
      StartNext(pieces, |pieces| - 1);
      assert false;
    }
  }

  /** Whatever part of it is skipped continues the flat image. */
  lemma SkipContinues<T>(pieces: seq<seq<T>>, lastLen: nat, continuous: bool, c: Cursor, pos: nat, n: nat)
    requires Legible(pieces, lastLen) && At(pieces, lastLen, continuous, c, pos) && CanPeek(pieces, continuous, c)
    requires n <= |Peek(pieces, continuous, c)| && pos + n <= |Flat(pieces, lastLen)|
    ensures Peek(pieces, continuous, c)[..n] == Flat(pieces, lastLen)[pos..pos + n]
    ensures At(pieces, lastLen, continuous, Skip(pieces, continuous, c, n), pos + n)
  {
    if continuous { SkipInBlock(pieces, lastLen, c, pos, n); } else { SkipInPiece(pieces, lastLen, c, pos, n); }
  }

  lemma SkipInBlock<T>(pieces: seq<seq<T>>, lastLen: nat, c: Cursor, pos: nat, n: nat)
    requires Legible(pieces, lastLen) && At(pieces, lastLen, true, c, pos) && CanPeek(pieces, true, c)
    requires n <= |Peek(pieces, true, c)|
    ensures pos + n <= |Flat(pieces, lastLen)| && Peek(pieces, true, c)[..n] == Flat(pieces, lastLen)[pos..pos + n]
    ensures At(pieces, lastLen, true, Skip(pieces, true, c, n), pos + n)
  {
    hide Flat;
    hide Block;
    FlatPrefix(pieces, lastLen);
    SliceOfSlice(Block(pieces), pos, pos + c.left, 0, n);
    SliceOfSlice(Block(pieces), 0, |Flat(pieces, lastLen)|, pos, pos + n);
  }

  lemma SkipInPiece<T>(pieces: seq<seq<T>>, lastLen: nat, c: Cursor, pos: nat, n: nat)
    requires Legible(pieces, lastLen) && At(pieces, lastLen, false, c, pos) && CanPeek(pieces, false, c)
    requires n <= |Peek(pieces, false, c)| && pos + n <= |Flat(pieces, lastLen)|
    ensures Peek(pieces, false, c)[..n] == Flat(pieces, lastLen)[pos..pos + n]
    ensures At(pieces, lastLen, false, Skip(pieces, false, c, n), pos + n)
  {
    hide Flat;
    hide Start;
    var j, f := c.chkNo, Flat(pieces, lastLen);
    FlatPiece(pieces, lastLen, j);
    StartNext(pieces, j);
    var s, len := Start(pieces, j), if j == |pieces| - 1 then lastLen else |pieces[j]|;
    assert j == |pieces| - 1 ==> |f| == s + len;
    assert c.offset + n <= len;
    SliceOfSlice(f, s, s + len, c.offset, c.offset + n);
    SliceOfSlice(pieces[j], 0, len, c.offset, c.offset + n);
    SliceOfSlice(pieces[j], c.offset, |pieces[j]|, 0, n);
  }

  // ---------- whole reads ----------

  /** Each step skips no more than was offered, and all of them no more than was available at first. */
  predicate LegalReads<T>(pieces: seq<seq<T>>, continuous: bool, c: Cursor, ns: seq<nat>, available: nat)
    decreases |ns|
  {
    ns == [] || (ns[0] == 0 && LegalReads(pieces, continuous, c, ns[1..], available)) ||
    (&& CanPeek(pieces, continuous, c) && 0 < ns[0] <= |Peek(pieces, continuous, c)| && ns[0] <= available
     && LegalReads(pieces, continuous, Skip(pieces, continuous, c, ns[0]), ns[1..], available - ns[0]))
  }

  /** What a sequence of Peek and Skip steps reads, and the reader after it. */
  function ReadAll<T>(pieces: seq<seq<T>>, continuous: bool, c: Cursor, ns: seq<nat>, available: nat): (seq<T>, Cursor)
    requires LegalReads(pieces, continuous, c, ns, available)
    decreases |ns|
  {
    if ns == [] then ([], c)
    else if ns[0] == 0 then ReadAll(pieces, continuous, c, ns[1..], available)
    else
      var (rest, c') := ReadAll(pieces, continuous, Skip(pieces, continuous, c, ns[0]), ns[1..], available - ns[0]);
      (Peek(pieces, continuous, c)[..ns[0]] + rest, c')
  }

  lemma JoinSlices<T>(f: seq<T>, pos: nat, n: nat, rest: seq<T>)
    requires pos + n + |rest| <= |f| && rest == f[pos + n..pos + n + |rest|]
    ensures f[pos..pos + n] + rest == f[pos..pos + n + |rest|]
  {
  }

  /** These reads give the flat image from the reader's position on. */
  ghost predicate ReadsFrom<T>(pieces: seq<seq<T>>, lastLen: nat, continuous: bool, c: Cursor, pos: nat, ns: seq<nat>)
    requires Legible(pieces, lastLen)
    requires pos <= |Flat(pieces, lastLen)| && LegalReads(pieces, continuous, c, ns, |Flat(pieces, lastLen)| - pos)
  {
    var f := Flat(pieces, lastLen);
    var (s, c') := ReadAll(pieces, continuous, c, ns, |f| - pos);
    pos + |s| <= |f| && s == f[pos..pos + |s|] && At(pieces, lastLen, continuous, c', pos + |s|)
  }

  lemma ReadAllOn<T>(pieces: seq<seq<T>>, continuous: bool, c: Cursor, ns: seq<nat>, available: nat)
    requires LegalReads(pieces, continuous, c, ns, available) && ns != [] && ns[0] > 0
    ensures CanPeek(pieces, continuous, c) && ns[0] <= |Peek(pieces, continuous, c)| && ns[0] <= available
    ensures var d := Skip(pieces, continuous, c, ns[0]);
            && LegalReads(pieces, continuous, d, ns[1..], available - ns[0])
            && var (rest, c') := ReadAll(pieces, continuous, d, ns[1..], available - ns[0]);
               ReadAll(pieces, continuous, c, ns, available) == (Peek(pieces, continuous, c)[..ns[0]] + rest, c')
  {
  }

  /** One step before reads that give the flat image. */
  lemma ReadsOn<T>(pieces: seq<seq<T>>, lastLen: nat, continuous: bool, c: Cursor, pos: nat, ns: seq<nat>)
    requires Legible(pieces, lastLen) && At(pieces, lastLen, continuous, c, pos)
    requires LegalReads(pieces, continuous, c, ns, |Flat(pieces, lastLen)| - pos) && ns != [] && ns[0] > 0
    requires CanPeek(pieces, continuous, c) && ns[0] <= |Peek(pieces, continuous, c)|
               && pos + ns[0] <= |Flat(pieces, lastLen)|
    requires var d := Skip(pieces, continuous, c, ns[0]); var p := pos + ns[0];
             && At(pieces, lastLen, continuous, d, p)
                && LegalReads(pieces, continuous, d, ns[1..], |Flat(pieces, lastLen)| - p)
             && ReadsFrom(pieces, lastLen, continuous, d, p, ns[1..])
    ensures ReadsFrom(pieces, lastLen, continuous, c, pos, ns)
  {
    hide At;
    hide Peek;
    hide Skip;
    hide CanPeek;
    hide Flat;
    hide ReadAll;
    hide LegalReads;
    var f, d := Flat(pieces, lastLen), Skip(pieces, continuous, c, ns[0]);
    SkipContinues(pieces, lastLen, continuous, c, pos, ns[0]);
    ReadAllOn(pieces, continuous, c, ns, |f| - pos);
    assert |f| - pos - ns[0] == |f| - (pos + ns[0]);
    var r := ReadAll(pieces, continuous, d, ns[1..], |f| - pos - ns[0]);
    JoinSlices(f, pos, ns[0], r.0);
  }

  lemma PassOver<T>(pieces: seq<seq<T>>, lastLen: nat, continuous: bool, c: Cursor, pos: nat, ns: seq<nat>)
    requires Legible(pieces, lastLen) && At(pieces, lastLen, continuous, c, pos)
    requires LegalReads(pieces, continuous, c, ns, |Flat(pieces, lastLen)| - pos) && ns != [] && ns[0] == 0
    ensures LegalReads(pieces, continuous, c, ns[1..], |Flat(pieces, lastLen)| - pos)
  {
  }

  /** No step, or an empty one before reads that give the flat image. */
  lemma StaysAt<T>(pieces: seq<seq<T>>, lastLen: nat, continuous: bool, c: Cursor, pos: nat, ns: seq<nat>)
    requires Legible(pieces, lastLen) && At(pieces, lastLen, continuous, c, pos)
    requires LegalReads(pieces, continuous, c, ns, |Flat(pieces, lastLen)| - pos)
    requires ns != [] ==> && ns[0] == 0 && LegalReads(pieces, continuous, c, ns[1..], |Flat(pieces, lastLen)| - pos)
                          && ReadsFrom(pieces, lastLen, continuous, c, pos, ns[1..])
    ensures ReadsFrom(pieces, lastLen, continuous, c, pos, ns)
  {
    hide Flat;
    hide CanPeek;
    hide LegalReads;
  }

  /** Any sequence of reads gives the flat image from the reader's position on. */
  lemma {:induction false} ReadsFlat<T>(pieces: seq<seq<T>>, lastLen: nat, continuous: bool, c: Cursor, pos: nat,
                                        ns: seq<nat>)
    requires Legible(pieces, lastLen) && At(pieces, lastLen, continuous, c, pos)
    requires LegalReads(pieces, continuous, c, ns, |Flat(pieces, lastLen)| - pos)
    ensures ReadsFrom(pieces, lastLen, continuous, c, pos, ns)
    decreases |ns|
  {
    hide ReadsFrom;
    hide Skip;
    hide Peek;
    hide CanPeek;
    hide LegalReads;
    hide Flat;
    if ns == [] || ns[0] == 0 {
      if ns != [] {
        PassOver(pieces, lastLen, continuous, c, pos, ns);
        ReadsFlat(pieces, lastLen, continuous, c, pos, ns[1..]);
      }
      StaysAt(pieces, lastLen, continuous, c, pos, ns);
    } else {
      ReadAllOn(pieces, continuous, c, ns, |Flat(pieces, lastLen)| - pos);
      SkipContinues(pieces, lastLen, continuous, c, pos, ns[0]);
      assert |Flat(pieces, lastLen)| - pos - ns[0] == |Flat(pieces, lastLen)| - (pos + ns[0]);
      ReadsFlat(pieces, lastLen, continuous, Skip(pieces, continuous, c, ns[0]), pos + ns[0], ns[1..]);
      ReadsOn(pieces, lastLen, continuous, c, pos, ns);
    }
  }

  /** Reading from the start: the bytes are a prefix of the flat image, all of it once as many bytes
      as were available at first are read, and there is something to peek at until then. */
  lemma ReadsImage<T>(pieces: seq<seq<T>>, total: nat, lastLen: nat, continuous: bool, ns: seq<nat>)
    requires Legible(pieces, lastLen) && total == |Block(pieces)|
    ensures |pieces[|pieces| - 1]| <= total
    ensures var c := Begin(pieces, total, lastLen);
            && c.left == |Flat(pieces, lastLen)|
            && (LegalReads(pieces, continuous, c, ns, c.left) ==>
                  var (s, c') := ReadAll(pieces, continuous, c, ns, c.left);
                  && s <= Flat(pieces, lastLen) && (|s| == c.left ==> s == Flat(pieces, lastLen))
                  && (|s| < c.left ==> CanPeek(pieces, continuous, c') && Peek(pieces, continuous, c') != [])
                  && (c'.left == c.left - |s| <==> continuous || s == []))
  {
    BeginAt(pieces, total, lastLen, continuous);
    var c := Begin(pieces, total, lastLen);
    if LegalReads(pieces, continuous, c, ns, c.left) {
      ReadsFlat(pieces, lastLen, continuous, c, 0, ns);
      var (s, c') := ReadAll(pieces, continuous, c, ns, c.left);
      if |s| < c.left { PeekOffers(pieces, lastLen, continuous, c', |s|); }
      hide Flat;
      hide ReadAll;
    }
  }

  /** The layout of the chunks does not show: steps that are legal chunk by chunk are legal in one
      block and read the same. */
  lemma {:induction false} SameInBothLayouts<T>(pieces: seq<seq<T>>, lastLen: nat, c: Cursor, d: Cursor, pos: nat,
                                                ns: seq<nat>)
    requires Legible(pieces, lastLen) && At(pieces, lastLen, false, c, pos) && At(pieces, lastLen, true, d, pos)
    requires LegalReads(pieces, false, c, ns, |Flat(pieces, lastLen)| - pos)
    ensures LegalReads(pieces, true, d, ns, |Flat(pieces, lastLen)| - pos)
    ensures ReadAll(pieces, true, d, ns, |Flat(pieces, lastLen)| - pos).0
              == ReadAll(pieces, false, c, ns, |Flat(pieces, lastLen)| - pos).0
    decreases |ns|
  {
    if ns != [] {
      var n := ns[0];
      if n == 0 {
        SameInBothLayouts(pieces, lastLen, c, d, pos, ns[1..]);
      } else {
        PeekOffers(pieces, lastLen, true, d, pos);
        SkipContinues(pieces, lastLen, false, c, pos, n);
        SkipContinues(pieces, lastLen, true, d, pos, n);
        FlatPrefix(pieces, lastLen);
        assert |Peek(pieces, true, d)| == |Flat(pieces, lastLen)| - pos;
        hide At;
        hide Peek;
        hide Skip;
        hide CanPeek;
        SameInBothLayouts(pieces, lastLen, Skip(pieces, false, c, n), Skip(pieces, true, d, n), pos + n, ns[1..]);
      }
    }
  }

  lemma {:induction false} BlockCells(images: seq<seq<Cell>>, cs: seq<Chunk>)
    requires |images| == |cs| >= 1 && forall j :: 0 <= j < |cs| ==> |images[j]| == CellsIn(cs[j].cap)
    ensures |Block(images)| == 256 * Sum(Caps(cs))
    decreases |cs|
  {
    assert cs == [cs[0]] + cs[1..];
    CapsCons(cs[0], cs[1..]);
    if |cs| == 1 { assert Sum(Caps(cs[1..])) == 0; } else { BlockCells(images[1..], cs[1..]); }
  }

  /** The chunks of a heap in order can be read, and the total on record is their size. */
  lemma HeapLegible(h: Heap, bk: Book)
    requires Inv(h, bk) && HeapWritable(h)
    ensures Legible(Images(h), 2 * Last(h).virgin) && 256 * h.mgr.totalCap == |Block(Images(h))|
    ensures |Images(h)[|h.chunks| - 1]| == CellsIn(Last(h).cap)
  {
    var images, n := Images(h), |h.chunks| - 1;
    forall i | 0 <= i <= n
      ensures |images[i]| == CellsIn(h.chunks[i].cap) && images[i] != [] && 2 * h.chunks[i].virgin <= |images[i]|
    {
      assert Writable(h.chunks[i], i, h.mgr);
    }
    BlockCells(images, h.chunks);
  }

  /** Compression reads exactly the flat image of a heap in order, however its chunks are laid out and
      however the reads are cut. */
  lemma ReadsHeap(h: Heap, bk: Book, continuous: bool, ns: seq<nat>)
    requires Inv(h, bk) && HeapWritable(h)
    ensures CellsIn(Last(h).cap) <= 256 * h.mgr.totalCap && |Images(h)[|h.chunks| - 1]| == CellsIn(Last(h).cap)
    ensures var c := Begin(Images(h), 256 * h.mgr.totalCap, 2 * Last(h).virgin);
            && c.left == |Flatten(h)|
            && (LegalReads(Images(h), continuous, c, ns, c.left) ==>
                  var s := ReadAll(Images(h), continuous, c, ns, c.left).0;
                  s <= Flatten(h) && (|s| == c.left ==> s == Flatten(h)))
  {
    HeapLegible(h, bk);
    hide Inv;
    hide HeapWritable;
    ReadsImage(Images(h), 256 * h.mgr.totalCap, 2 * Last(h).virgin, continuous, ns);
  }

  // ---------- the class ----------

  class ChkCompressSource<T> {
    const pieces: seq<seq<T>>
    const continuous: bool
    ghost const lastLen: nat
    var chkNo: nat
    var offset: nat
    var bytesLeft: nat

    ghost function State(): Cursor
      reads this
    {
      Cursor(chkNo, offset, bytesLeft)
    }

    /** The reader stands at some position of the flat image. */
    ghost predicate Valid(pos: nat)
      reads this
    {
      Legible(pieces, lastLen) && At(pieces, lastLen, continuous, State(), pos)
    }

    constructor (pieces: seq<seq<T>>, total: nat, lastLen: nat, continuous: bool)
      requires Legible(pieces, lastLen) && total == |Block(pieces)|
      ensures Valid(0) && this.pieces == pieces && this.continuous == continuous && this.lastLen == lastLen
      ensures bytesLeft == |Flat(pieces, lastLen)|
    {
      BeginAt(pieces, total, lastLen, continuous);
      this.pieces, this.continuous, this.lastLen := pieces, continuous, lastLen;
      bytesLeft := total - |pieces[|pieces| - 1]| + lastLen;
      chkNo, offset := 0, 0;
    }

    /** What is still to be read when the chunks are in one block; otherwise always the whole. */
    method Available(ghost pos: nat) returns (n: nat)
      requires Valid(pos)
      ensures n == |Flat(pieces, lastLen)| - (if continuous then pos else 0)
    {
      n := bytesLeft;
    }

    method PeekBytes(ghost pos: nat) returns (s: seq<T>)
      requires Valid(pos) && pos < |Flat(pieces, lastLen)|
      ensures CanPeek(pieces, continuous, State()) && s == Peek(pieces, continuous, State()) && s != []
      ensures Offers(pieces, lastLen, continuous, pos, |s|)
      ensures forall n: nat :: n <= |s| && pos + n <= |Flat(pieces, lastLen)| ==>
                s[..n] == Flat(pieces, lastLen)[pos..pos + n]
    {
      PeekOffers(pieces, lastLen, continuous, State(), pos);
      PeekExact(pieces, lastLen, continuous, State(), pos);
      forall n: nat | n <= |Peek(pieces, continuous, State())| && pos + n <= |Flat(pieces, lastLen)|
        ensures Peek(pieces, continuous, State())[..n] == Flat(pieces, lastLen)[pos..pos + n]
      {
        SkipContinues(pieces, lastLen, continuous, State(), pos, n);
      }
      if continuous {
        s := Block(pieces)[offset..offset + bytesLeft];
      } else {
        s := pieces[chkNo][offset..];
      }
    }

    method SkipBytes(ghost pos: nat, n: nat)
      requires Valid(pos) && pos + n <= |Flat(pieces, lastLen)|
      requires n > 0 ==> CanPeek(pieces, continuous, State()) && n <= |Peek(pieces, continuous, State())|
      modifies this
      ensures Valid(pos + n)
      ensures n > 0 ==> old(CanPeek(pieces, continuous, State()) && n <= |Peek(pieces, continuous, State())|)
                        && State() == Skip(pieces, continuous, old(State()), n)
    {
      if n == 0 { return; }
      SkipContinues(pieces, lastLen, continuous, State(), pos, n);
      if continuous {
        bytesLeft := bytesLeft - n;
        offset := offset + n;
        return;
      }
      offset := offset + n;
      if offset == |pieces[chkNo]| {
        offset := 0;
        chkNo := chkNo + 1;
      }
    }
  }
}
