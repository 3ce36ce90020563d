/**
  The layout of a boot image (native/src/boot/bootimg.hpp, native/src/boot/bootimg.cpp): the header variants, the
  offsets the parser derives from the sizes in a header, and an image as a header followed by padded blocks.
 */
module BootLayout {
  import opened Wrappers
  import opened Bytes

  // ---- alignment ----

  function AlignTo(v: nat, a: nat): nat
    requires a > 0
  {
    (v + a - 1) / a * a
  }

  lemma Multiples(d: nat, q: nat, a: nat)
    requires d < q
    ensures d * a + a <= q * a
  {
    var k: nat := q - 1 - d;
    assert q * a == (d + 1 + k) * a == d * a + a + k * a;
  }

  lemma DivisionIs(x: nat, q: nat, a: nat)
    requires a > 0 && q * a <= x < q * a + a
    ensures x / a == q && x % a == x - q * a
  {
    var d: nat, r: nat := x / a, x % a;
    QuotientIs(x, d, r, q, a);
  }

  lemma QuotientIs(x: nat, d: nat, r: nat, q: nat, a: nat)
    requires q * a <= x < q * a + a && x == d * a + r && r < a
    ensures d == q
  {
    if d < q {
      Multiples(d, q, a);
    } else if d > q {
      Multiples(q, d, a);
    }
  }

  lemma Aligned(v: nat, a: nat)
    requires a > 0
    ensures v <= AlignTo(v, a) < v + a && AlignTo(v, a) % a == 0
    ensures v % a == 0 <==> AlignTo(v, a) == v
  {
    var q := (v + a - 1) / a;
    assert v + a - 1 == q * a + (v + a - 1) % a;
    DivisionIs(q * a, q, a);
    if v % a == 0 {
      var d := v / a;
      assert v == d * a;
      DivisionIs(v + a - 1, d, a);
    }
  }

  // ---- headers ----

  datatype Version = V0 | V1 | V2 | Pxa | V3 | V4 | Vendor3 | Vendor4

  const KERNEL := 0
  const RAMDISK := 1
  const SECOND := 2
  const EXTRA := 3
  const RECOVERY_DTBO := 4
  const DTB := 5
  const SIGNATURE := 6
  const RAMDISK_TABLE := 7
  const BOOTCONFIG := 8

  /** The blocks of an image, in the order they are laid out. */
  type Block = b: nat | b < 9

  predicate IsVendor(v: Version) { v == Vendor3 || v == Vendor4 }

  /** Whether a header has a field for the size of the block. */
  predicate HasField(v: Version, b: Block) {
    match b
    case 0 => !IsVendor(v)
    case 1 => true
    case 2 => v == V0 || v == V1 || v == V2 || v == Pxa
    case 3 => v == V0 || v == Pxa
    case 4 => v == V1 || v == V2
    case 5 => v == V2 || IsVendor(v)
    case 6 => v == V4
    case 7 => v == Vendor4
    case 8 => v == Vendor4
  }

  function HdrSize(v: Version): nat {
    match v
    case V0 => 1632
    case V1 => 1648
    case V2 => 1660
    case Pxa => 1640
    case V3 => 1580
    case V4 => 1584
    case Vendor3 => 2112
    case Vendor4 => 2128
  }

  function HdrSpace(v: Version, page: nat): nat
    requires page > 0
  {
    if IsVendor(v) then AlignTo(HdrSize(v), page) else page
  }

  function Wrap(n: nat): u32 { n % U32 }

  /** What is read back after a size is written. */
  function SizeOrNone(v: Version, b: Block, n: nat): u32 { if HasField(v, b) then Wrap(n) else 0 }

  type Sizes = s: seq<nat> | |s| == 9 witness [0, 0, 0, 0, 0, 0, 0, 0, 0]

  // ---- the parser ----

  /** Where the parser looks for a block: each one starts at the next page after the one before. */
  function Offset(space: nat, sizes: seq<nat>, page: nat, b: nat): nat
    requires page > 0 && b <= |sizes|
  {
    if b == 0 then space else AlignTo(Offset(space, sizes, page, b - 1) + sizes[b - 1], page)
  }

  /** Blocks are in order, do not overlap, and start on pages. */
  lemma {:induction false} BlocksAreOrdered(space: nat, sizes: seq<nat>, page: nat, b: nat, c: nat)
    requires page > 0 && b < c <= |sizes|
    ensures Offset(space, sizes, page, b) + sizes[b] <= Offset(space, sizes, page, c)
    ensures Offset(space, sizes, page, c) % page == 0
  {
    hide AlignTo;
    Aligned(Offset(space, sizes, page, c - 1) + sizes[c - 1], page);
    if b < c - 1 {
      BlocksAreOrdered(space, sizes, page, b, c - 1);
    }
  }

  /** The block part of parse_image: it fails if a block would reach beyond the end of the image. */
  method ParseBlocks(space: nat, sizes: Sizes, page: nat, end: nat) returns (ok: bool, offsets: seq<nat>)
    requires page > 0
    ensures ok <==> forall b | 1 <= b <= 9 :: Offset(space, sizes, page, b) <= end
    ensures ok ==> |offsets| == 9 && forall b | 0 <= b < 9 :: offsets[b] == Offset(space, sizes, page, b)
  {
    hide AlignTo;
    var off := space;
    offsets := [];
    for b := 0 to 9
      invariant |offsets| == b && off == Offset(space, sizes, page, b)
      invariant forall c | 0 <= c < b :: offsets[c] == Offset(space, sizes, page, c)
      invariant forall c | 1 <= c <= b :: Offset(space, sizes, page, c) <= end
    {
      offsets := offsets + [off];
      off := AlignTo(off + sizes[b], page);
      assert off == Offset(space, sizes, page, b + 1);
      if off > end {
        assert 1 <= b + 1 <= 9 && Offset(space, sizes, page, b + 1) > end;
        return false, [];
      }
    }
    ok := true;
  }

  // ---- an image as blocks ----

  /** file_align: zeros up to the next page. */
  function Padded(s: bytes, page: nat): (r: bytes)
    requires page > 0
    ensures |r| == AlignTo(|s|, page) && s <= r
  {
    Aligned(|s|, page);
    s + Repeat<byte>(0, AlignTo(|s|, page) - |s|)
  }

  /** What is written for a block, and whether padding follows. */
  datatype Piece = Piece(data: bytes, isPadded: bool)

  /** The first n pieces, after the header. */
  function Body(header: bytes, pieces: seq<Piece>, page: nat, n: nat): bytes
    requires page > 0 && n <= |pieces|
  {
    if n == 0 then header else Step(Body(header, pieces, page, n - 1), pieces[n - 1], page)
  }

  function Step(s: bytes, p: Piece, page: nat): bytes
    requires page > 0
  {
    if p.isPadded then Padded(s + p.data, page) else s + p.data
  }

  function Position(header: bytes, pieces: seq<Piece>, page: nat, n: nat): nat
    requires page > 0 && n <= |pieces|
  {
    |Body(header, pieces, page, n)|
  }

  /** Later pieces leave the earlier ones where they are. */
  lemma {:induction false} BodyGrows(header: bytes, pieces: seq<Piece>, page: nat, m: nat, n: nat)
    requires page > 0 && m < n <= |pieces|
    ensures Body(header, pieces, page, m) + pieces[m].data <= Body(header, pieces, page, n)
  {
    hide Padded;
    var s := Body(header, pieces, page, n - 1) + pieces[n - 1].data;
    if m < n - 1 {
      BodyGrows(header, pieces, page, m, n - 1);
      assert Body(header, pieces, page, n - 1) <= s;
    }
  }

  function Overwrite(s: bytes, at: nat, x: bytes): (r: bytes)
    requires at + |x| <= |s|
    ensures |r| == |s|
  {
    s[..at] + x + s[at + |x|..]
  }

  lemma OverwriteLeft(s: bytes, t: bytes, at: nat, x: bytes)
    requires at + |x| <= |s|
    ensures Overwrite(s + t, at, x) == Overwrite(s, at, x) + t
  {
  }

  lemma OverwriteRight(s: bytes, t: bytes, at: nat, x: bytes)
    requires at + |x| <= |t|
    ensures Overwrite(s + t, |s| + at, x) == s + Overwrite(t, at, x)
  {
  }

  lemma OverwritePadded(s: bytes, page: nat, at: nat, x: bytes)
    requires page > 0 && at + |x| <= |s|
    ensures Overwrite(Padded(s, page), at, x) == Padded(Overwrite(s, at, x), page)
  {
    Aligned(|s|, page);
    OverwriteLeft(s, Repeat<byte>(0, AlignTo(|s|, page) - |s|), at, x);
  }

  /** Overwriting part of a piece overwrites that piece only. */
  lemma {:induction false} OverwritePiece(header: bytes, pieces: seq<Piece>, page: nat, n: nat, k: nat, at: nat,
                                          x: bytes)
    requires page > 0 && k < n <= |pieces| && at + |x| <= |pieces[k].data|
    ensures var pos := Position(header, pieces, page, k);
            var after := pieces[k := pieces[k].(data := Overwrite(pieces[k].data, at, x))];
            && pos + at + |x| <= Position(header, pieces, page, n)
            && Overwrite(Body(header, pieces, page, n), pos + at, x) == Body(header, after, page, n)
  {
    hide Padded, Overwrite;
    var after := pieces[k := pieces[k].(data := Overwrite(pieces[k].data, at, x))];
    var pos := Position(header, pieces, page, k);
    var b, c := Body(header, pieces, page, n - 1), pieces[n - 1].data;
    if k == n - 1 {
      SameBody(header, pieces, after, page, k);
      OverwriteRight(b, c, at, x);
    } else {
      OverwritePiece(header, pieces, page, n - 1, k, at, x);
      OverwriteLeft(b, c, pos + at, x);
    }
    OverwritePadded(b + c, page, pos + at, x);
  }

  lemma {:induction false} SameBody(header: bytes, p: seq<Piece>, q: seq<Piece>, page: nat, n: nat)
    requires page > 0 && n <= |p| && n <= |q| && forall i | 0 <= i < n :: p[i] == q[i]
    ensures Body(header, p, page, n) == Body(header, q, page, n)
  {
    if n > 0 {
      SameBody(header, p, q, page, n - 1);
    }
  }

  /** Positions depend on lengths only. */
  lemma {:induction false} SamePositions(h: bytes, p: seq<Piece>, g: bytes, q: seq<Piece>, page: nat, n: nat)
    requires page > 0 && n <= |p| && n <= |q| && |h| == |g|
    requires forall i | 0 <= i < n :: |p[i].data| == |q[i].data| && p[i].isPadded == q[i].isPadded
    ensures Position(h, p, page, n) == Position(g, q, page, n)
  {
    hide AlignTo;
    if n > 0 {
      SamePositions(h, p, g, q, page, n - 1);
    }
  }
}
