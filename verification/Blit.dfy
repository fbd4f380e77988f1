/** Copying a region of a window onto a surface (syscall.cpp, SysCopyWindoSurfac). */
module Blit {
  import opened Bits
  import opened Options
  import opened BlockCopy

  datatype Vector = Vector(x: int, y: int)

  datatype Rect = Rect(pos: Vector, size: Vector)

  const PIXEL := 4

  class Surface {
    const width: nat
    const height: nat
    const buffer: Buffer

    constructor (width: nat, height: nat, buffer: Buffer)
      requires buffer.Valid() && width * height * PIXEL <= buffer.bytes.Length <= 0x7FFF_FFFF
      ensures Valid() && this.width == width && this.height == height && this.buffer == buffer
    {
      this.width, this.height, this.buffer := width, height, buffer;
    }

    /** The buffer holds all pixels, and offsets into it fit an int. */
    predicate Valid() { buffer.Valid() && width * height * PIXEL <= buffer.bytes.Length <= 0x7FFF_FFFF }
  }

  /** The byte offset of a pixel in rows of the given width. */
  function At(width: nat, x: nat, y: nat): nat { (y * width + x) * PIXEL }

  /** The four bytes of a pixel. */
  function Pixel(bytes: seq<byte>, width: nat, x: nat, y: nat): seq<byte>
    requires At(width, x, y) + PIXEL <= |bytes|
  {
    bytes[(y * width + x) * 4..(y * width + x) * 4 + 4]
  }

  /** Pixel (x, y) of one picture is there and equals pixel (u, v) of the other, which is there too. */
  predicate SamePixel(a: seq<byte>, width: nat, x: nat, y: nat, b: seq<byte>, width': nat, u: nat, v: nat)
  {
    At(width, x, y) + PIXEL <= |a| && At(width', u, v) + PIXEL <= |b| && Pixel(a, width, x, y) == Pixel(b, width', u, v)
  }

  lemma RowInRange(width: nat, height: nat, x: nat, n: nat, y: nat)
    requires x + n <= width && y < height
    ensures At(width, x, y) + n * PIXEL <= width * height * PIXEL
  {
    assert (y + 1) * width <= height * width;
    assert (y + 1) * width == y * width + width;
  }

  lemma RowsApart(width: nat, y: nat, y': nat)
    requires y < y'
    ensures y * width + width <= y' * width
  {
    assert (y + 1) * width <= y' * width;
    assert (y + 1) * width == y * width + width;
  }

  function Min(a: int, b: int): int { if a < b then a else b }

  /** What the copy is meant to do: where it goes to, where it comes from, how many pixels a row has and
      which window rows are visited. */
  datatype Region = Region(offset: Vector, pos: Vector, row: int, rows: int)

  function Clipped(dest: Surface, offset: Vector, region: Rect): Region
  {
    Region(offset, region.pos, Min(region.size.x, dest.width - offset.x), Min(region.size.y, dest.height - offset.y))
  }

  /** The regions the call is good for: nonnegative offsets within the destination, rows within the window. */
  predicate Inside(dest: Surface, window: Surface, r: Region)
  {
    0 <= r.offset.x && 0 <= r.offset.y && 0 <= r.pos.x && 0 <= r.pos.y && 0 <= r.row
    && r.offset.x + r.row <= dest.width && r.pos.x + r.row <= window.width
    && r.rows <= window.height && r.offset.y + r.rows <= dest.height
  }

  /** Whether a destination pixel is covered once the window rows before upTo have been copied. */
  predicate Covered(r: Region, upTo: int, x: nat, y: nat)
  {
    r.offset.x <= x < r.offset.x + r.row && r.offset.y + r.pos.y <= y < r.offset.y + upTo
  }

  /** Three pictures: the destination before, now, and the window. */
  datatype Pictures = Pictures(was: seq<byte>, now: seq<byte>, source: seq<byte>)

  predicate Fitting(dest: Surface, window: Surface, p: Pictures)
  {
    |p.now| == |p.was| && dest.width * dest.height * PIXEL <= |p.was|
    && window.width * window.height * PIXEL <= |p.source|
  }

  /** The bytes behind the last pixel are as they were. */
  predicate RestKept(dest: Surface, p: Pictures)
  {
    var n := dest.width * dest.height * 4;
    n <= |p.now| == |p.was| && p.now[n..] == p.was[n..]
  }

  /** Every pixel of the destination is the window's where it is covered and as it was elsewhere. */
  ghost predicate Blitted(dest: Surface, window: Surface, r: Region, upTo: int, p: Pictures)
  {
    Inside(dest, window, r) && r.pos.y <= upTo && (upTo <= r.rows || upTo == r.pos.y) && Fitting(dest, window, p)
    && RestKept(dest, p)
    && forall x: nat, y: nat :: x < dest.width && y < dest.height ==> PixelIs(dest, window, r, upTo, p, x, y)
  }

  ghost predicate PixelIs(dest: Surface, window: Surface, r: Region, upTo: int, p: Pictures, x: nat, y: nat)
    requires Inside(dest, window, r) && r.pos.y <= upTo && (upTo <= r.rows || upTo == r.pos.y)
    requires Fitting(dest, window, p) && x < dest.width && y < dest.height
  {
    RowInRange(dest.width, dest.height, x, 1, y);
    if Covered(r, upTo, x, y) then
      RowInRange(window.width, window.height, r.pos.x + x - r.offset.x, 1, y - r.offset.y);
      Pixel(p.now, dest.width, x, y) == Pixel(p.source, window.width, r.pos.x + x - r.offset.x, y - r.offset.y)
    else Pixel(p.now, dest.width, x, y) == Pixel(p.was, dest.width, x, y)
  }

  /** The destination after the copy of window row i. */
  ghost predicate RowCopied(dest: Surface, window: Surface, r: Region, i: nat, p: Pictures, next: seq<byte>)
    requires 0 <= r.offset.x && 0 <= r.offset.y && 0 <= r.pos.x && 0 <= r.row
  {
    var d, s := At(dest.width, r.offset.x, i + r.offset.y), At(window.width, r.pos.x, i);
    d + r.row * PIXEL <= |p.now| && s + r.row * PIXEL <= |p.source|
    && next == Overwritten(p.now, d, p.source[s..s + r.row * PIXEL])
  }

  /** One row copied: the pixels of one more window row are covered, nothing else changes. */
  lemma RowBlitted(dest: Surface, window: Surface, r: Region, i: nat, p: Pictures, next: seq<byte>)
    requires Blitted(dest, window, r, i, p) && i < r.rows && RowCopied(dest, window, r, i, p, next)
    ensures Blitted(dest, window, r, i + 1, p.(now := next))
  {
    hide Pixel, At, Overwritten;
    var upTo, q := i + 1, p.(now := next);
    RowKeepsRest(dest, window, r, i, p, next);
    assert Fitting(dest, window, q);
    forall x: nat, y: nat | x < dest.width && y < dest.height ensures PixelIs(dest, window, r, upTo, q, x, y) {
      assert PixelIs(dest, window, r, i, p, x, y);
      PixelBlitted(dest, window, r, i, p, next, x, y);
    }
  }

  lemma RowKeepsRest(dest: Surface, window: Surface, r: Region, i: nat, p: Pictures, next: seq<byte>)
    requires Inside(dest, window, r) && r.pos.y <= i < r.rows && Fitting(dest, window, p)
    requires RestKept(dest, p) && RowCopied(dest, window, r, i, p, next)
    ensures RestKept(dest, p.(now := next))
  {
    hide At;
    RowInRange(dest.width, dest.height, r.offset.x, r.row, i + r.offset.y);
    var n := dest.width * dest.height * 4;
    forall k | 0 <= k < |next| - n ensures next[n..][k] == p.was[n..][k] { assert p.now[n..][k] == next[n + k]; }
  }

  lemma PixelBlitted(dest: Surface, window: Surface, r: Region, i: nat, p: Pictures, next: seq<byte>, x: nat, y: nat)
    requires Inside(dest, window, r) && r.pos.y <= i < r.rows && Fitting(dest, window, p)
    requires x < dest.width && y < dest.height && RowCopied(dest, window, r, i, p, next)
    requires PixelIs(dest, window, r, i, p, x, y)
    ensures |next| == |p.now| && PixelIs(dest, window, r, i + 1, p.(now := next), x, y)
  {
    hide Overwritten;
    if y == i + r.offset.y && r.offset.x <= x < r.offset.x + r.row {
      PixelInRow(dest, window, r, i, p, next, x);
    } else {
      PixelElsewhere(dest, window, r, i, p, next, x, y);
    }
  }

  lemma PixelInRow(dest: Surface, window: Surface, r: Region, i: nat, p: Pictures, next: seq<byte>, x: nat)
    requires Inside(dest, window, r) && r.pos.y <= i < r.rows && Fitting(dest, window, p)
    requires r.offset.x <= x < r.offset.x + r.row && RowCopied(dest, window, r, i, p, next)
    ensures |next| == |p.now| && PixelIs(dest, window, r, i + 1, p.(now := next), x, i + r.offset.y)
  {
    hide Overwritten;
    var line := i + r.offset.y;
    var d, s, k := At(dest.width, r.offset.x, line), At(window.width, r.pos.x, i), (x - r.offset.x) * PIXEL;
    RowInRange(dest.width, dest.height, x, 1, line);
    RowInRange(window.width, window.height, r.pos.x + x - r.offset.x, 1, i);
    assert At(dest.width, x, line) == d + k;
    assert At(window.width, r.pos.x + x - r.offset.x, i) == s + k;
    NewBytes(p.now, d, p.source, s, r.row * PIXEL, k);
  }

  lemma PixelElsewhere(dest: Surface, window: Surface, r: Region, i: nat, p: Pictures, next: seq<byte>, x: nat, y: nat)
    requires Inside(dest, window, r) && r.pos.y <= i < r.rows && Fitting(dest, window, p)
    requires x < dest.width && y < dest.height && RowCopied(dest, window, r, i, p, next)
    requires PixelIs(dest, window, r, i, p, x, y)
    requires !(y == i + r.offset.y && r.offset.x <= x < r.offset.x + r.row)
    ensures |next| == |p.now| && PixelIs(dest, window, r, i + 1, p.(now := next), x, y)
  {
    hide Overwritten;
    var line := i + r.offset.y;
    var d, s := At(dest.width, r.offset.x, line), At(window.width, r.pos.x, i);
    RowInRange(dest.width, dest.height, x, 1, y);
    if y < line { RowsApart(dest.width, y, line); }
    if y > line { RowsApart(dest.width, line, y); }
    SameBytes(p.now, d, p.source[s..s + r.row * PIXEL], At(dest.width, x, y));
  }

  lemma NewBytes(now: seq<byte>, d: nat, source: seq<byte>, s: nat, n: nat, k: nat)
    requires d + n <= |now| && s + n <= |source| && k + PIXEL <= n
    ensures Overwritten(now, d, source[s..s + n])[d + k..d + k + PIXEL] == source[s + k..s + k + PIXEL]
  {
    var next := Overwritten(now, d, source[s..s + n]);
    var a, b := next[d + k..d + k + PIXEL], source[s + k..s + k + PIXEL];
    forall j | 0 <= j < PIXEL ensures a[j] == b[j] {
      assert next[d + k + j] == source[s..s + n][k + j];
    }
  }

  lemma SameBytes(now: seq<byte>, d: nat, part: seq<byte>, at: nat)
    requires d + |part| <= |now| && at + PIXEL <= |now| && (at + PIXEL <= d || d + |part| <= at)
    ensures Overwritten(now, d, part)[at..at + PIXEL] == now[at..at + PIXEL]
  {}

  /** What the copy shows, in terms of its arguments: destination pixel (offset.x + dx, offset.y + i) is window pixel
      (pos.x + dx, i) for every dx below the region's width and every i from pos.y to the region's height, as far as
      the destination reaches; every other pixel, and what is behind the last one, is as it was. */
  ghost predicate Shown(dest: Surface, window: Surface, offset: Vector, region: Rect, p: Pictures)
    requires 0 <= region.pos.x && 0 <= offset.y
  {
    RestKept(dest, p)
    && forall x: nat, y: nat :: x < dest.width && y < dest.height ==> ShownAt(dest, window, offset, region, p, x, y)
  }

  ghost predicate ShownAt(dest: Surface, window: Surface, offset: Vector, region: Rect, p: Pictures, x: nat, y: nat)
    requires 0 <= region.pos.x
  {
    var dx, i := x - offset.x, y - offset.y;
    if 0 <= dx < region.size.x && 0 <= i && region.pos.y <= i < region.size.y
    then SamePixel(p.now, dest.width, x, y, p.source, window.width, region.pos.x + dx, i)
    else SamePixel(p.now, dest.width, x, y, p.was, dest.width, x, y)
  }

  lemma BlittedShown(dest: Surface, window: Surface, offset: Vector, region: Rect, p: Pictures)
    requires var r := Clipped(dest, offset, region);
      Blitted(dest, window, r, if r.pos.y <= r.rows then r.rows else r.pos.y, p)
    ensures Shown(dest, window, offset, region, p)
  {
    hide Pixel, At;
    var r := Clipped(dest, offset, region);
    var upTo := if r.pos.y <= r.rows then r.rows else r.pos.y;
    forall x: nat, y: nat | x < dest.width && y < dest.height ensures ShownAt(dest, window, offset, region, p, x, y) {
      assert PixelIs(dest, window, r, upTo, p, x, y);
      PixelShown(dest, window, offset, region, p, x, y);
    }
  }

  lemma PixelShown(dest: Surface, window: Surface, offset: Vector, region: Rect, p: Pictures, x: nat, y: nat)
    requires var r := Clipped(dest, offset, region); var upTo := if r.pos.y <= r.rows then r.rows else r.pos.y;
      Inside(dest, window, r) && Fitting(dest, window, p) && x < dest.width && y < dest.height
      && PixelIs(dest, window, r, upTo, p, x, y)
    ensures ShownAt(dest, window, offset, region, p, x, y)
  {
    hide Pixel, At, Covered, Clipped;
    CoveredIs(dest, offset, region, x, y);
    RowInRange(dest.width, dest.height, x, 1, y);
    var (dx, i) := (x - offset.x, y - offset.y);
    if 0 <= dx < region.size.x && region.pos.y <= i < region.size.y {
      RowInRange(window.width, window.height, region.pos.x + dx, 1, i);
    }
  }

  lemma CoveredIs(dest: Surface, offset: Vector, region: Rect, x: nat, y: nat)
    requires x < dest.width && y < dest.height
    ensures var r := Clipped(dest, offset, region); var upTo := if r.pos.y <= r.rows then r.rows else r.pos.y;
      r.offset == offset && r.pos == region.pos && (r.pos.y <= upTo) && (r.pos.y < upTo ==> upTo == r.rows)
      && r.row <= region.size.x && r.rows <= region.size.y
      && (Covered(r, upTo, x, y)
          <==> 0 <= x - offset.x < region.size.x && region.pos.y <= y - offset.y < region.size.y)
      && (Covered(r, upTo, x, y) ==> x - offset.x < r.row && y - offset.y < r.rows)
  {}

  /** The system call: 1 for a missing argument, 2 for a handle that is not registered. Offset and region
      are read only when the offset is given; otherwise they are the origin and the whole window. None is
      the outcome when a row is too short for the block copy. */
  method CopyWindowSurface(dest: Surface?, handle: word, window: Surface?, given: Option<(Vector, Rect)>)
    returns (status: Option<nat>)
    requires dest != null && window != null ==>
      dest.Valid() && window.Valid() && dest.buffer.bytes != window.buffer.bytes
    requires dest != null && handle != 0 && window != null ==>
      Inside(dest, window, Clipped(dest, Offset(given), Chosen(window, given)))
    modifies if dest != null then {dest.buffer.bytes} else {}
    ensures dest == null || handle == 0 ==> status == Some(1)
    ensures dest != null && handle != 0 && window == null ==> status == Some(2)
    ensures dest != null && status in {Some(1), Some(2)} ==> dest.buffer.bytes[..] == old(dest.buffer.bytes[..])
    ensures dest != null && handle != 0 && window != null ==>
      var r := Clipped(dest, Offset(given), Chosen(window, given));
      (status == Some(0) <==> r.rows <= r.pos.y || r.row >= 4) && (status == None || status == Some(0))
      && (status == Some(0) ==>
        Blitted(dest, window, r, if r.pos.y <= r.rows then r.rows else r.pos.y,
          Pictures(old(dest.buffer.bytes[..]), dest.buffer.bytes[..], window.buffer.bytes[..])))
    ensures dest != null && handle != 0 && window != null ==>
      match given
      case None =>
        status == Some(0) <==> window.height == 0 || dest.height == 0 || (window.width >= 4 && dest.width >= 4)
      case Some((offset, region)) =>
        status == Some(0) <==>
          region.size.y <= region.pos.y || dest.height - offset.y <= region.pos.y
          || (region.size.x >= 4 && dest.width - offset.x >= 4)
    ensures dest != null && handle != 0 && window != null && status == Some(0) ==>
      var p := Pictures(old(dest.buffer.bytes[..]), dest.buffer.bytes[..], window.buffer.bytes[..]);
      match given
      case None => Shown(dest, window, Vector(0, 0), Rect(Vector(0, 0), Vector(window.width, window.height)), p)
      case Some((offset, region)) => Shown(dest, window, offset, region, p)
  {
    hide Blitted, Shown;
    if dest == null || handle == 0 {
      return Some(1);
    }
    if window == null {
      return Some(2);
    }
    var offset, region := Offset(given), Chosen(window, given);
    var rowSize := if dest.width - offset.x > region.size.x then region.size.x else dest.width - offset.x;
    var ok := CopyRows(dest, window, offset, region, rowSize);
    if ok {
      BlittedShown(dest, window, offset, region,
        Pictures(old(dest.buffer.bytes[..]), dest.buffer.bytes[..], window.buffer.bytes[..]));
    }
    return if ok then Some(0) else None;
  }

  function Offset(given: Option<(Vector, Rect)>): Vector
  {
    match given
    case None => Vector(0, 0)
    case Some((offset, _)) => offset
  }

  function Chosen(window: Surface, given: Option<(Vector, Rect)>): Rect
  {
    match given
    case None => Rect(Vector(0, 0), Vector(window.width, window.height))
    case Some((_, region)) => region
  }

  method CopyRows(dest: Surface, window: Surface, offset: Vector, region: Rect, rowSize: int) returns (ok: bool)
    requires dest.Valid() && window.Valid() && dest.buffer.bytes != window.buffer.bytes
    requires rowSize == Clipped(dest, offset, region).row && Inside(dest, window, Clipped(dest, offset, region))
    modifies dest.buffer.bytes
    ensures var r := Clipped(dest, offset, region);
      ok <==> r.rows <= r.pos.y || r.row >= 4
    ensures var r := Clipped(dest, offset, region);
      ok ==> Blitted(dest, window, r, if r.pos.y <= r.rows then r.rows else r.pos.y,
        Pictures(old(dest.buffer.bytes[..]), dest.buffer.bytes[..], window.buffer.bytes[..]))
  {
    hide PixelIs, At, Pixel;
    ghost var r := Clipped(dest, offset, region);
    ghost var p := Pictures(dest.buffer.bytes[..], dest.buffer.bytes[..], window.buffer.bytes[..]);
    NothingBlitted(dest, window, r, p);
    var i := region.pos.y;
    while i < region.size.y && i < dest.height - offset.y
      invariant i > r.pos.y ==> r.row >= 4
      invariant Blitted(dest, window, r, i, p) && p.was == old(dest.buffer.bytes[..])
      invariant p.now == dest.buffer.bytes[..] && p.source == window.buffer.bytes[..]
    {
      ok := CopyRow(dest, window, offset, region.pos, rowSize, i, r, p);
      if !ok {
        return;
      }
      RowBlitted(dest, window, r, i, p, dest.buffer.bytes[..]);
      p := p.(now := dest.buffer.bytes[..]);
      i := i + 1;
    }
    ok := true;
  }

  lemma NothingBlitted(dest: Surface, window: Surface, r: Region, p: Pictures)
    requires Inside(dest, window, r) && Fitting(dest, window, p) && p.now == p.was
    ensures Blitted(dest, window, r, r.pos.y, p)
  {
    hide Pixel, At;
  }

  lemma OffsetIs(width: nat, x: nat, y: nat)
    ensures y * (width * 4) + x * 4 == At(width, x, y)
  {
    assert y * (width * 4) == y * width * 4;
  }

  method CopyRow(dest: Surface, window: Surface, offset: Vector, pos: Vector, rowSize: int, i: nat,
    ghost r: Region, ghost p: Pictures) returns (ok: bool)
    requires dest.Valid() && window.Valid() && dest.buffer.bytes != window.buffer.bytes
    requires Inside(dest, window, r) && r.offset == offset && r.pos == pos && r.row == rowSize && i < r.rows
    requires p.now == dest.buffer.bytes[..] && p.source == window.buffer.bytes[..]
    modifies dest.buffer.bytes
    ensures ok <==> rowSize >= 4
    ensures ok ==> RowCopied(dest, window, r, i, p, dest.buffer.bytes[..])
  {
    hide At, Overwritten;
    RowInRange(dest.width, dest.height, offset.x, rowSize, i + offset.y);
    RowInRange(window.width, window.height, pos.x, rowSize, i);
    OffsetIs(dest.width, offset.x, i + offset.y);
    OffsetIs(window.width, pos.x, i);
    var d: nat := (i + offset.y) * (dest.width * 4) + offset.x * 4;
    var s: nat := i * (window.width * 4) + pos.x * 4;
    ok := MemcpyOptimized(dest.buffer, d, window.buffer, s, rowSize * 4);
  }
}
