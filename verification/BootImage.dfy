/**
  What the bytes of an image hold, said of the image alone (native/src/boot/bootimg.cpp). The front of it is a header
  that is copied over whatever is there.
 */
module BootImage {
  import opened Wrappers
  import opened Bytes
  import opened BootLayout
  import opened BootAgreement

  /** From the front on, the image holds these bytes at this place. */
  ghost predicate HoldsFrom(image: bytes, front: nat, at: nat, d: bytes) {
    at + |d| <= |image| && forall i | 0 <= i < |d| && front <= at + i :: image[at + i] == d[i]
  }

  ghost predicate IsZeroFrom(image: bytes, front: nat, at: nat, end: nat) {
    at <= end <= |image| && forall i | at <= i < end && front <= i :: image[i] == 0
  }

  /** The blocks that are there follow each other, each padded with zeros to a page. */
  ghost predicate HoldsInOrder(image: bytes, front: nat, page: nat, at: nat, blocks: seq<Option<bytes>>)
    requires page > 0
    decreases |blocks|
  {
    blocks != [] ==>
      if blocks[0].None? then HoldsInOrder(image, front, page, at, blocks[1..])
      else
        var d := blocks[0].value;
        var end := AlignTo(at + |d|, page);
        && HoldsFrom(image, front, at, d) && IsZeroFrom(image, front, at + |d|, end)
        && HoldsInOrder(image, front, page, end, blocks[1..])
  }

  /** Where the last of them ends. */
  function EndOf(page: nat, at: nat, blocks: seq<Option<bytes>>): nat
    requires page > 0
    decreases |blocks|
  {
    if blocks == [] then at
    else EndOf(page, if blocks[0].Some? then AlignTo(at + |blocks[0].value|, page) else at, blocks[1..])
  }

  // ---- images that are written piece by piece ----

  function FilePiece(file: Option<bytes>): Piece { Piece(file.GetOr([]), file.Some?) }

  /** The image is what was written, but for its front. */
  ghost predicate IsBut(image: bytes, front: nat, whole: bytes) {
    |image| == |whole| && forall i | front <= i < |image| :: image[i] == whole[i]
  }

  lemma SameLength(image: bytes, front: nat, whole: bytes)
    requires IsBut(image, front, whole)
    ensures |image| == |whole|
  {
  }

  lemma PrefixHolds(image: bytes, front: nat, whole: bytes, s: bytes, d: bytes)
    requires IsBut(image, front, whole) && s + d <= whole
    ensures HoldsFrom(image, front, |s|, d)
  {
    assert forall i | 0 <= i < |d| :: d[i] == (s + d)[|s| + i];
  }

  lemma ZerosHold(image: bytes, front: nat, at: nat, n: nat)
    requires HoldsFrom(image, front, at, Repeat<byte>(0, n))
    ensures IsZeroFrom(image, front, at, at + n)
  {
    forall i | at <= i < at + n && front <= i ensures image[i] == 0 {
      assert image[at + (i - at)] == Repeat<byte>(0, n)[i - at];
    }
  }

  lemma {:induction false} BodyPrefix(header: bytes, pieces: seq<Piece>, page: nat, m: nat, n: nat)
    requires page > 0 && m <= n <= |pieces|
    ensures Body(header, pieces, page, m) <= Body(header, pieces, page, n)
  {
    hide Padded;
    if m < n {
      BodyPrefix(header, pieces, page, m, n - 1);
    }
  }

  /** One piece, and the zeros behind it. */
  lemma {:induction false} PieceHolds(image: bytes, front: nat, whole: bytes, header: bytes, pieces: seq<Piece>,
                                      page: nat, b: nat)
    requires page > 0 && b < |pieces|
    requires IsBut(image, front, whole) && Body(header, pieces, page, |pieces|) <= whole
    ensures var at, d := Position(header, pieces, page, b), pieces[b].data;
            var end := Position(header, pieces, page, b + 1);
            && end == (if pieces[b].isPadded then AlignTo(at + |d|, page) else at + |d|)
            && HoldsFrom(image, front, at, d) && IsZeroFrom(image, front, at + |d|, end)
  {
    hide AlignTo;
    var s, d := Body(header, pieces, page, b), pieces[b].data;
    var t := Body(header, pieces, page, b + 1);
    BodyPrefix(header, pieces, page, b + 1, |pieces|);
    assert s + d <= t by { BodyGrows(header, pieces, page, b, b + 1); }
    assert s + d <= whole;
    PrefixHolds(image, front, whole, s, d);
    if pieces[b].isPadded {
      Aligned(|s + d|, page);
      var zeros := Repeat<byte>(0, AlignTo(|s + d|, page) - |s + d|);
      assert t == (s + d) + zeros;
      PrefixHolds(image, front, whole, s + d, zeros);
      ZerosHold(image, front, |s + d|, |zeros|);
    }
  }

  lemma {:induction false} PiecesInOrder(image: bytes, front: nat, whole: bytes, header: bytes, pieces: seq<Piece>,
                                         page: nat, b: nat, blocks: seq<Option<bytes>>)
    requires page > 0 && b + |blocks| == |pieces|
    requires forall j | 0 <= j < |blocks| :: pieces[b + j] == FilePiece(blocks[j])
    requires IsBut(image, front, whole) && Body(header, pieces, page, |pieces|) <= whole
    ensures HoldsInOrder(image, front, page, Position(header, pieces, page, b), blocks)
    ensures EndOf(page, Position(header, pieces, page, b), blocks) == Position(header, pieces, page, |pieces|)
    decreases |blocks|
  {
    hide Body, AlignTo, HoldsFrom, IsZeroFrom, IsBut;
    if blocks != [] {
      PieceHolds(image, front, whole, header, pieces, page, b);
      assert pieces[b + 0] == FilePiece(blocks[0]);
      forall j | 0 <= j < |blocks[1..]| ensures pieces[b + 1 + j] == FilePiece(blocks[1..][j]) {
        assert pieces[b + (j + 1)] == FilePiece(blocks[j + 1]);
      }
      PiecesInOrder(image, front, whole, header, pieces, page, b + 1, blocks[1..]);
    }
  }

  lemma {:induction false} StartHolds(image: bytes, front: nat, whole: bytes, header: bytes, pieces: seq<Piece>,
                                      page: nat)
    requires page > 0 && IsBut(image, front, whole) && Body(header, pieces, page, |pieces|) <= whole
    ensures Position(header, pieces, page, 0) == |header| && HoldsFrom(image, front, 0, header)
  {
    BodyPrefix(header, pieces, page, 0, |pieces|);
    assert [] + header == header;
    PrefixHolds(image, front, whole, [], header);
  }

  /** Two pieces of data, one behind the other. */
  lemma HoldsBoth(image: bytes, front: nat, at: nat, a: bytes, b: bytes)
    requires HoldsFrom(image, front, at, a + b)
    ensures HoldsFrom(image, front, at, a) && HoldsFrom(image, front, at + |a|, b)
  {
    forall i | 0 <= i < |a| && front <= at + i ensures image[at + i] == a[i] {
      assert (a + b)[i] == a[i];
    }
    forall i | 0 <= i < |b| && front <= at + |a| + i ensures image[at + |a| + i] == b[i] {
      assert (a + b)[|a| + i] == b[i];
      assert image[at + (|a| + i)] == (a + b)[|a| + i];
    }
  }
}
