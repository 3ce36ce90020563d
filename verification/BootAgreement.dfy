/**
  When the offsets that the parser derives from a header are those of the blocks that were written
  (native/src/boot/bootimg.cpp).
 */
module BootAgreement {
  import opened Bytes
  import opened BootLayout

  lemma MultiplesInOrder(v: nat, w: nat, p: nat, q: nat, a: nat)
    requires v <= w && p * a < v + a && w <= q * a
    ensures p * a <= q * a
  {
    if q < p {
      Multiples(q, p, a);
    } else if p < q {
      Multiples(p, q, a);
    }
  }

  lemma AlignMonotone(v: nat, w: nat, a: nat)
    requires a > 0 && v <= w
    ensures AlignTo(v, a) <= AlignTo(w, a)
  {
    Aligned(v, a);
    Aligned(w, a);
    MultiplesInOrder(v, w, (v + a - 1) / a, (w + a - 1) / a, a);
  }

  lemma SumIsAligned(v: nat, w: nat, a: nat)
    requires a > 0 && v % a == 0
    ensures (v + w) % a == 0 <==> w % a == 0
  {
    var d: nat, e: nat := v / a, w / a;
    assert v == d * a && w == e * a + w % a;
    assert (d + e) * a == d * a + e * a;
    DivisionIs(v + w, d + e, a);
  }

  /** The pieces of an image: the kernel is always padded, and a block that is not padded is empty, except that a
      ramdisk block may be a header with no ramdisk. */
  predicate IsPlan(pieces: seq<Piece>) {
    && |pieces| == 9
    && pieces[KERNEL].isPadded
    && forall b | 0 <= b < 9 && b != RAMDISK && !pieces[b].isPadded :: pieces[b].data == []
  }

  predicate IsStray(pieces: seq<Piece>)
    requires IsPlan(pieces)
  {
    !pieces[RAMDISK].isPadded && pieces[RAMDISK].data != []
  }

  /** The first padded piece from b on, if any, is empty. */
  predicate IsHarmless(pieces: seq<Piece>, b: nat)
    requires |pieces| == 9 && b <= 9
    decreases 9 - b
  {
    b == 9 || if pieces[b].isPadded then pieces[b].data == [] else IsHarmless(pieces, b + 1)
  }

  /** The bytes of a block as the parser sees them. */
  ghost predicate Reads(image: bytes, at: nat, size: nat, data: bytes) {
    at + size <= |image| && image[at..at + size] == data
  }

  /** For every block, the parser derives the bytes that were written, and where. */
  ghost predicate Agrees(image: bytes, header: bytes, pieces: seq<Piece>, sizes: Sizes, page: nat)
    requires page > 0 && |pieces| == 9
  {
    forall b | 0 <= b < 9 ::
      && Reads(image, Offset(|header|, sizes, page, b), sizes[b], pieces[b].data)
      && (pieces[b].data != [] ==> Offset(|header|, sizes, page, b) == Position(header, pieces, page, b))
  }

  predicate SizesAreRight(pieces: seq<Piece>, sizes: Sizes)
    requires |pieces| == 9
  {
    forall b | 0 <= b < 9 :: sizes[b] == |pieces[b].data|
  }

  /** A header with no ramdisk leaves the blocks behind it on pages, or there are none. */
  predicate StrayIsHarmless(pieces: seq<Piece>, page: nat)
    requires IsPlan(pieces) && page > 0
  {
    IsStray(pieces) ==> |pieces[RAMDISK].data| % page == 0 || IsHarmless(pieces, SECOND)
  }

  ghost predicate InStep(header: bytes, pieces: seq<Piece>, sizes: Sizes, page: nat, b: nat)
    requires page > 0 && |pieces| == 9 && b <= 9
  {
    var at, off := Position(header, pieces, page, b), Offset(|header|, sizes, page, b);
    AlignTo(at, page) == off && (at == off || (b > RAMDISK && IsHarmless(pieces, b)))
  }

  lemma StepOn(header: bytes, pieces: seq<Piece>, sizes: Sizes, page: nat, b: nat)
    requires page > 0 && IsPlan(pieces) && b < 9 && SizesAreRight(pieces, sizes) && StrayIsHarmless(pieces, page)
    requires InStep(header, pieces, sizes, page, b)
    ensures InStep(header, pieces, sizes, page, b + 1)
  {
    hide AlignTo, Padded;
    var at, off, d := Position(header, pieces, page, b), Offset(|header|, sizes, page, b), pieces[b].data;
    var s := Body(header, pieces, page, b) + d;
    Aligned(at, page);
    Aligned(at + |d|, page);
    Aligned(AlignTo(at + |d|, page), page);
    Aligned(off, page);
    assert Offset(|header|, sizes, page, b + 1) == AlignTo(off + |d|, page);
    if b == RAMDISK && IsStray(pieces) {
      SumIsAligned(at, |d|, page);
    }
  }

  lemma {:induction false} AllInStep(header: bytes, pieces: seq<Piece>, sizes: Sizes, page: nat, b: nat)
    requires page > 0 && IsPlan(pieces) && b <= 9 && SizesAreRight(pieces, sizes) && StrayIsHarmless(pieces, page)
    requires |header| % page == 0
    ensures InStep(header, pieces, sizes, page, b)
  {
    hide InStep, StrayIsHarmless, IsPlan;
    if b == 0 {
      FirstInStep(header, pieces, sizes, page);
    } else {
      AllInStep(header, pieces, sizes, page, b - 1);
      StepOn(header, pieces, sizes, page, b - 1);
    }
  }

  lemma FirstInStep(header: bytes, pieces: seq<Piece>, sizes: Sizes, page: nat)
    requires page > 0 && IsPlan(pieces) && |header| % page == 0
    ensures InStep(header, pieces, sizes, page, 0)
  {
    Aligned(|header|, page);
  }

  lemma {:induction false} PositionsGrow(header: bytes, pieces: seq<Piece>, page: nat, m: nat, n: nat)
    requires page > 0 && m <= n <= |pieces|
    ensures Position(header, pieces, page, m) <= Position(header, pieces, page, n)
  {
    hide Padded;
    if m < n {
      PositionsGrow(header, pieces, page, m, n - 1);
    }
  }

  lemma {:induction false} BlockAgrees(image: bytes, header: bytes, pieces: seq<Piece>, sizes: Sizes, page: nat, b: nat)
    requires page > 0 && IsPlan(pieces) && b < 9 && SizesAreRight(pieces, sizes) && StrayIsHarmless(pieces, page)
    requires InStep(header, pieces, sizes, page, b)
    requires Body(header, pieces, page, 9) <= image && AlignTo(Position(header, pieces, page, 9), page) <= |image|
    ensures Reads(image, Offset(|header|, sizes, page, b), sizes[b], pieces[b].data)
    ensures pieces[b].data != [] ==> Offset(|header|, sizes, page, b) == Position(header, pieces, page, b)
  {
    hide AlignTo, Offset, Body, StrayIsHarmless;
    assert sizes[b] == |pieces[b].data|;
    EndsInside(image, header, pieces, sizes, page, b);
    if pieces[b].data != [] {
      BodyGrows(header, pieces, page, b, 9);
      PrefixReads(image, Body(header, pieces, page, 9), Body(header, pieces, page, b), pieces[b].data);
    }
  }

  lemma PrefixReads(image: bytes, body: bytes, s: bytes, d: bytes)
    requires s + d <= body <= image
    ensures Reads(image, |s|, |d|, d)
  {
    assert (s + d)[|s|..] == d;
    assert image[..|s + d|] == s + d;
    assert image[|s|..|s| + |d|] == image[..|s + d|][|s|..];
  }

  lemma {:induction false} BehindStray(image: bytes, header: bytes, pieces: seq<Piece>, sizes: Sizes, page: nat, b: nat)
    requires page > 0 && IsPlan(pieces) && RAMDISK < b <= 9
    requires Agrees(image, header, pieces, sizes, page)
    requires Position(header, pieces, page, b) % page != 0
    ensures IsHarmless(pieces, b)
    decreases 9 - b
  {
    hide AlignTo, Padded, Reads;
    if b < 9 {
      BlocksAreOrdered(|header|, sizes, page, b - 1, b);
      if !pieces[b].isPadded {
        assert Body(header, pieces, page, b) + [] == Body(header, pieces, page, b);
        BehindStray(image, header, pieces, sizes, page, b + 1);
      }
    }
  }

  /** The parser finds every block that was written, where it was written, exactly when the header has the size of
      every block and a header with no ramdisk does no harm. */
  lemma {:induction false} LayoutAgrees(image: bytes, header: bytes, pieces: seq<Piece>, sizes: Sizes, page: nat)
    requires page > 0 && IsPlan(pieces) && |header| % page == 0
    requires Body(header, pieces, page, 9) <= image && AlignTo(Position(header, pieces, page, 9), page) <= |image|
    ensures Agrees(image, header, pieces, sizes, page)
            <==> SizesAreRight(pieces, sizes) && StrayIsHarmless(pieces, page)
    ensures Agrees(image, header, pieces, sizes, page) ==>
              forall b | 0 <= b <= 9 :: Offset(|header|, sizes, page, b) <= |image|
  {
    hide AlignTo, Offset, Body, InStep, IsHarmless, Reads;
    if SizesAreRight(pieces, sizes) && StrayIsHarmless(pieces, page) {
      forall b | 0 <= b < 9
        ensures Reads(image, Offset(|header|, sizes, page, b), sizes[b], pieces[b].data)
        ensures pieces[b].data != [] ==> Offset(|header|, sizes, page, b) == Position(header, pieces, page, b)
      {
        AllInStep(header, pieces, sizes, page, b);
        BlockAgrees(image, header, pieces, sizes, page, b);
      }
    }
    if Agrees(image, header, pieces, sizes, page) {
      RightSizes(image, header, pieces, sizes, page);
      if IsStray(pieces) && |pieces[RAMDISK].data| % page != 0 {
        AfterStray(header, pieces, page);
        BehindStray(image, header, pieces, sizes, page, SECOND);
      }
      forall b | 0 <= b <= 9 ensures Offset(|header|, sizes, page, b) <= |image| {
        AllInStep(header, pieces, sizes, page, b);
        EndsInside(image, header, pieces, sizes, page, b);
      }
    }
  }

  /** Bytes that are put over the front of an image leave the blocks as they were written. */
  ghost predicate IsHarmlessFront(front: bytes, header: bytes, pieces: seq<Piece>, page: nat)
    requires page > 0 && |pieces| == 9
  {
    forall b, i | 0 <= b < 9 && 0 <= i < |pieces[b].data| && Position(header, pieces, page, b) + i < |front| ::
      front[Position(header, pieces, page, b) + i] == pieces[b].data[i]
  }

  /** They do when they end where the blocks begin. */
  lemma ShortFrontIsHarmless(front: bytes, header: bytes, pieces: seq<Piece>, page: nat)
    requires page > 0 && |pieces| == 9 && |front| <= |header|
    ensures IsHarmlessFront(front, header, pieces, page)
  {
    hide Body;
    forall b | 0 <= b < 9 ensures Position(header, pieces, page, b) >= |header| {
      PositionsGrow(header, pieces, page, 0, b);
      assert Position(header, pieces, page, 0) == |header| by { BodyStarts(header, pieces, page); }
    }
  }

  lemma {:induction false} BodyStarts(header: bytes, pieces: seq<Piece>, page: nat)
    requires page > 0
    ensures Body(header, pieces, page, 0) == header
  {
  }

  /** What is at a place of a block after the front is overwritten. */
  lemma ReadsBehindFront(image: bytes, front: bytes, at: nat, d: bytes)
    requires |front| <= |image| && Reads(image, at, |d|, d)
    ensures Reads(Overwrite(image, 0, front), at, |d|, d)
            <==> forall i | 0 <= i < |d| && at + i < |front| :: front[at + i] == d[i]
  {
    var after := Overwrite(image, 0, front);
    assert forall i | 0 <= i < |image| :: after[i] == if i < |front| then front[i] else image[i];
    var now := after[at..at + |d|];
    assert forall i | 0 <= i < |d| :: d[i] == image[at + i] && now[i] == after[at + i];
    if Reads(after, at, |d|, d) {
      assert forall i | 0 <= i < |d| :: now[i] == d[i];
    }
  }

  /** With its front overwritten, an image shows the blocks exactly when it did and the front is harmless. */
  lemma {:induction false} FrontAgrees(image: bytes, front: bytes, header: bytes, pieces: seq<Piece>, sizes: Sizes,
                                       page: nat)
    requires page > 0 && |pieces| == 9 && |front| <= |image| && Body(header, pieces, page, 9) <= image
    ensures Agrees(Overwrite(image, 0, front), header, pieces, sizes, page)
            <==> Agrees(image, header, pieces, sizes, page) && IsHarmlessFront(front, header, pieces, page)
  {
    hide Body, Overwrite, Offset, Reads;
    var after := Overwrite(image, 0, front);
    if Agrees(after, header, pieces, sizes, page) {
      RightSizes(after, header, pieces, sizes, page);
      forall b | 0 <= b < 9
        ensures Reads(image, Offset(|header|, sizes, page, b), sizes[b], pieces[b].data)
      {
        BlockWasThere(image, after, header, pieces, sizes, page, b);
      }
      forall b, i | 0 <= b < 9 && 0 <= i < |pieces[b].data| && Position(header, pieces, page, b) + i < |front|
        ensures front[Position(header, pieces, page, b) + i] == pieces[b].data[i]
      {
        ReadsBehindFront(image, front, Position(header, pieces, page, b), pieces[b].data);
      }
    }
    if Agrees(image, header, pieces, sizes, page) && IsHarmlessFront(front, header, pieces, page) {
      RightSizes(image, header, pieces, sizes, page);
      forall b | 0 <= b < 9
        ensures Reads(after, Offset(|header|, sizes, page, b), sizes[b], pieces[b].data)
      {
        ReadsBehindFront(image, front, Offset(|header|, sizes, page, b), pieces[b].data);
      }
    }
  }

  lemma {:induction false} BlockWasThere(image: bytes, after: bytes, header: bytes, pieces: seq<Piece>, sizes: Sizes,
                                         page: nat, b: nat)
    requires page > 0 && |pieces| == 9 && b < 9 && |after| == |image| && Body(header, pieces, page, 9) <= image
    requires Agrees(after, header, pieces, sizes, page) && sizes[b] == |pieces[b].data|
    ensures Reads(image, Offset(|header|, sizes, page, b), sizes[b], pieces[b].data)
  {
    hide Body, Offset;
    assert Reads(after, Offset(|header|, sizes, page, b), sizes[b], pieces[b].data);
    if pieces[b].data != [] {
      BodyGrows(header, pieces, page, b, 9);
      PrefixReads(image, Body(header, pieces, page, 9), Body(header, pieces, page, b), pieces[b].data);
    }
  }

  lemma RightSizes(image: bytes, header: bytes, pieces: seq<Piece>, sizes: Sizes, page: nat)
    requires page > 0 && |pieces| == 9 && Agrees(image, header, pieces, sizes, page)
    ensures SizesAreRight(pieces, sizes)
  {
  }

  lemma AfterStray(header: bytes, pieces: seq<Piece>, page: nat)
    requires page > 0 && IsPlan(pieces) && IsStray(pieces) && |pieces[RAMDISK].data| % page != 0
    ensures Position(header, pieces, page, SECOND) % page != 0
  {
    hide AlignTo;
    Aligned(|Body(header, pieces, page, KERNEL) + pieces[KERNEL].data|, page);
    SumIsAligned(Position(header, pieces, page, RAMDISK), |pieces[RAMDISK].data|, page);
  }

  lemma {:induction false} EndsInside(image: bytes, header: bytes, pieces: seq<Piece>, sizes: Sizes, page: nat, b: nat)
    requires page > 0 && |pieces| == 9 && b <= 9 && InStep(header, pieces, sizes, page, b)
    requires AlignTo(Position(header, pieces, page, 9), page) <= |image|
    ensures Offset(|header|, sizes, page, b) <= |image|
  {
    hide AlignTo, Offset, Body;
    PositionsGrow(header, pieces, page, b, 9);
    AlignMonotone(Position(header, pieces, page, b), Position(header, pieces, page, 9), page);
  }
}
