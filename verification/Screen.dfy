/** The framebuffer: rows of pixels at a pitch that may be wider than the picture,
    filled and scrolled in place without touching the padding. */
module Screen {
  import opened Architecture
  import opened FirmwareBytes

  const PIXEL_BYTES: nat := 4

  datatype Status =
    | Ok
    | AlreadyInitialized
    | Absent
    | NotMapped
    | BadGeometry
    | NotInitialized
    | OutOfBounds

  datatype Geometry = Geometry(width: nat, height: nat, pitch: nat)

  predicate Legal(g: Geometry) {
    0 < g.width && 0 < g.height && g.width * PIXEL_BYTES <= g.pitch
  }

  function Offset(g: Geometry, x: nat, y: nat): nat {
    y * g.pitch + x * PIXEL_BYTES
  }

  predicate Inside(g: Geometry, x: nat, y: nat) {
    x < g.width && y < g.height
  }

  // ----- where pixels are -----

  lemma RowOrder(pitch: nat, y: nat, z: nat)
    requires y < z
    ensures y * pitch + pitch <= z * pitch
  {
    Rows(y, z - y - 1, pitch);
  }

  lemma Rows(y: nat, more: nat, pitch: nat)
    ensures (y + 1 + more) * pitch == y * pitch + pitch + more * pitch
    ensures more * pitch >= 0
  {
  }

  /** Every cell lies inside the buffer, and two different pixels share no byte. */
  lemma CellsDisjoint(g: Geometry, x: nat, y: nat, u: nat, v: nat)
    requires Legal(g) && Inside(g, x, y) && Inside(g, u, v) && (x, y) != (u, v)
    ensures Offset(g, x, y) + PIXEL_BYTES <= g.pitch * g.height
    ensures Offset(g, x, y) + PIXEL_BYTES <= Offset(g, u, v) || Offset(g, u, v) + PIXEL_BYTES <= Offset(g, x, y)
  {
    RowOrder(g.pitch, y, g.height);
    if y < v { RowOrder(g.pitch, y, v); }
    if v < y { RowOrder(g.pitch, v, y); }
  }

  // ----- rows -----

  ghost predicate Sized(mem: seq<Byte>, g: Geometry) {
    |mem| == g.pitch * g.height
  }

  /** Row y with its padding. */
  ghost function Row(mem: seq<Byte>, g: Geometry, y: nat): (r: seq<Byte>)
    requires Sized(mem, g) && y < g.height
    ensures |r| == g.pitch
  {
    RowOrder(g.pitch, y, g.height);
    mem[y * g.pitch..y * g.pitch + g.pitch]
  }

  function Painted(fill: nat, n: nat): (s: seq<Byte>)
    ensures |s| == PIXEL_BYTES * n
    decreases n
  {
    if n == 0 then [] else Painted(fill, n - 1) + Le32(fill)
  }

  ghost function Padding(row: seq<Byte>, g: Geometry): seq<Byte>
    requires Legal(g) && |row| == g.pitch
  {
    row[g.width * PIXEL_BYTES..]
  }

  ghost function Picture(row: seq<Byte>, g: Geometry): seq<Byte>
    requires Legal(g) && |row| == g.pitch
  {
    row[..g.width * PIXEL_BYTES]
  }

  /** The picture bytes of row y change to these; its padding and every other row stay. */
  ghost predicate RowBecomes(before: seq<Byte>, after: seq<Byte>, g: Geometry, y: nat, picture: seq<Byte>)
    requires Legal(g) && Sized(before, g) && Sized(after, g) && y < g.height
  {
    && Row(after, g, y) == picture + Padding(Row(before, g, y), g)
    && forall z: nat :: z < g.height && z != y ==> Row(after, g, z) == Row(before, g, z)
  }

  lemma RowIs(mem: seq<Byte>, g: Geometry, y: nat, at: nat)
    requires Sized(mem, g) && y < g.height && at == y * g.pitch
    ensures at + g.pitch <= |mem| && Row(mem, g, y) == mem[at..at + g.pitch]
  {
    RowOrder(g.pitch, y, g.height);
  }

  /** A write confined to the picture bytes of row y. */
  lemma WriteRow(before: seq<Byte>, after: seq<Byte>, g: Geometry, y: nat, at: nat, picture: seq<Byte>)
    requires Legal(g) && Sized(before, g) && Sized(after, g) && y < g.height && at == y * g.pitch
    requires |picture| == g.width * PIXEL_BYTES
    requires forall k :: 0 <= k < |after| ==>
      after[k] == if at <= k < at + |picture| then picture[k - at] else before[k]
    ensures RowBecomes(before, after, g, y, picture)
  {
    hide Row, Sized;
    assert |before| == |after| by { SameSize(before, after, g); }
    RowIs(before, g, y, at);
    RowIs(after, g, y, at);
    assert Row(after, g, y) == picture + Padding(Row(before, g, y), g);
    forall z: nat | z < g.height && z != y ensures Row(after, g, z) == Row(before, g, z) {
      OtherRow(before, after, g, y, at, |picture|, z, z * g.pitch);
    }
  }

  lemma SameSize(before: seq<Byte>, after: seq<Byte>, g: Geometry)
    requires Sized(before, g) && Sized(after, g)
    ensures |before| == |after|
  {
  }

  lemma OtherRow(before: seq<Byte>, after: seq<Byte>, g: Geometry, y: nat, at: nat, n: nat, z: nat, there: nat)
    requires Sized(before, g) && Sized(after, g) && y < g.height && z < g.height && y != z
    requires at == y * g.pitch && there == z * g.pitch && n <= g.pitch
    requires forall k :: 0 <= k < |after| && !(at <= k < at + n) ==> after[k] == before[k]
    ensures Row(after, g, z) == Row(before, g, z)
  {
    hide Row;
    RowIs(before, g, z, there);
    RowIs(after, g, z, there);
    if z < y { RowOrder(g.pitch, z, y); } else { RowOrder(g.pitch, y, z); }
  }

  // ----- what scrolling means -----

  ghost predicate Scrolled(before: seq<Byte>, after: seq<Byte>, g: Geometry, rows: nat, fill: nat)
    requires Legal(g) && Sized(before, g) && Sized(after, g)
  {
    forall y: nat :: y < g.height ==> Row(after, g, y) == ScrolledRow(before, g, rows, fill, y)
  }

  /** The row that is rows further down, or the fill colour, beside the old padding. */
  ghost function ScrolledRow(before: seq<Byte>, g: Geometry, rows: nat, fill: nat, y: nat): seq<Byte>
    requires Legal(g) && Sized(before, g) && y < g.height
  {
    (if y + rows < g.height then Picture(Row(before, g, y + rows), g) else Painted(fill, g.width))
      + Padding(Row(before, g, y), g)
  }

  ghost function PixelAt(mem: seq<Byte>, g: Geometry, x: nat, y: nat): nat
    requires Legal(g) && Sized(mem, g) && Inside(g, x, y)
  {
    U32(Row(mem, g, y), x * PIXEL_BYTES)
  }

  lemma {:induction false} PaintedAt(fill: nat, n: nat, x: nat)
    requires x < n
    ensures Painted(fill, n)[x * PIXEL_BYTES..x * PIXEL_BYTES + 4] == Le32(fill)
    decreases n
  {
    hide Le32;
    if x < n - 1 { PaintedAt(fill, n - 1, x); }
  }

  /** In pixels and bytes: each pixel is the old one rows below it or the fill colour,
      and no padding byte changes. */
  lemma ScrolledPixels(before: seq<Byte>, after: seq<Byte>, g: Geometry, rows: nat, fill: nat, x: nat, y: nat)
    requires Legal(g) && Sized(before, g) && Sized(after, g) && Inside(g, x, y) && fill < 0x1_0000_0000
    requires Scrolled(before, after, g, rows, fill)
    ensures PixelAt(after, g, x, y) == if y + rows < g.height then PixelAt(before, g, x, y + rows) else fill
    ensures Padding(Row(after, g, y), g) == Padding(Row(before, g, y), g)
  {
    hide Row, Le32, Painted;
    var row := Row(after, g, y);
    assert row == ScrolledRow(before, g, rows, fill, y);
    var at := x * PIXEL_BYTES;
    if y + rows < g.height {
      var source := Row(before, g, y + rows);
      assert row[at] == source[at] && row[at + 1] == source[at + 1];
      assert row[at + 2] == source[at + 2] && row[at + 3] == source[at + 3];
    } else {
      PaintedAt(fill, g.width, x);
      assert row[at..at + 4] == Painted(fill, g.width)[at..at + 4];
      Reads32(row, at, fill);
    }
  }

  // ----- the two row loops -----

  /** Copy a picture row upwards; the source is still untouched. */
  method CopyRow(mem: array<Byte>, destination: nat, source: nat, pixels: nat)
    requires destination + PIXEL_BYTES * pixels <= source && source + PIXEL_BYTES * pixels <= mem.Length
    modifies mem
    ensures forall k {:trigger mem[k]} :: 0 <= k < mem.Length ==>
      mem[k] == if destination <= k < destination + PIXEL_BYTES * pixels
                then old(mem[source + (k - destination)]) else old(mem[k])
  {
    var x := 0;
    while x < pixels
      invariant x <= pixels
      invariant forall k {:trigger mem[k]} :: 0 <= k < mem.Length ==>
        mem[k] == if destination <= k < destination + PIXEL_BYTES * x
                  then old(mem[source + (k - destination)]) else old(mem[k])
    {
      var d, s := destination + PIXEL_BYTES * x, source + PIXEL_BYTES * x;
      mem[d], mem[d + 1], mem[d + 2], mem[d + 3] := mem[s], mem[s + 1], mem[s + 2], mem[s + 3];
      x := x + 1;
    }
  }

  method PaintRow(mem: array<Byte>, at: nat, pixels: nat, fill: nat)
    requires at + PIXEL_BYTES * pixels <= mem.Length
    modifies mem
    ensures forall k :: 0 <= k < mem.Length ==>
      mem[k] == if at <= k < at + PIXEL_BYTES * pixels then Painted(fill, pixels)[k - at] else old(mem[k])
  {
    hide Le32;
    var x := 0;
    while x < pixels
      invariant x <= pixels
      invariant forall k :: 0 <= k < mem.Length ==>
        mem[k] == if at <= k < at + PIXEL_BYTES * x then Painted(fill, x)[k - at] else old(mem[k])
    {
      Write32(mem, at + PIXEL_BYTES * x, fill);
      x := x + 1;
    }
  }

  lemma PixelIsAtOffset(mem: seq<Byte>, g: Geometry, x: nat, y: nat)
    requires Legal(g) && Sized(mem, g) && Inside(g, x, y)
    ensures Offset(g, x, y) + PIXEL_BYTES <= |mem|
    ensures PixelAt(mem, g, x, y) == U32(mem, Offset(g, x, y))
  {
    RowOrder(g.pitch, y, g.height);
  }

  // ----- the screen -----

  /** What the boot loader described, and the window paging carved out, if any. */
  datatype Description = Description(present: bool, address: nat, size: nat, geometry: Geometry)
  datatype Window = NoWindow | Window(base: nat, length: nat)


  /** The described bytes lie in the window; its end is computed in 64 bits. */
  predicate Mapped(d: Description, w: Window) {
    && w.Window? && d.address + d.size < WORD && w.base <= d.address
    && d.address + d.size <= (w.base + w.length) % WORD
  }

  /** A window whose end wraps holds nothing, so what is accepted is really inside. */
  lemma MappedIsInside(d: Description, w: Window)
    requires w.Window? ==> w.base < WORD && w.length < WORD
    ensures Mapped(d, w) <==>
      w.Window? && w.base + w.length < WORD && w.base <= d.address && d.address + d.size <= w.base + w.length
  {
  }

  predicate Acceptable(d: Description, w: Window) {
    && d.present && Mapped(d, w) && Legal(d.geometry)
    && d.geometry.pitch * d.geometry.height == d.size
  }

  /** A picture of at least one pixel, four bytes each, whose rows fit the pitch and fill the span. */
  ghost predicate Fills(d: Description) {
    && d.geometry.width > 0 && d.geometry.height > 0 && 4 * d.geometry.width <= d.geometry.pitch
    && d.geometry.height * d.geometry.pitch == d.size
  }

  class Framebuffer {
    const memory: array<Byte>   // the described bytes, as mapped
    var geometry: Geometry
    var active: bool

    ghost predicate Valid()
      reads this
    {
      active ==> Legal(geometry) && memory.Length == geometry.pitch * geometry.height
    }

    constructor (bytes: array<Byte>)
      ensures memory == bytes && !active && Valid()
    {
      memory := bytes;
      geometry := Geometry(0, 0, 0);
      active := false;
    }

    /** Accepts exactly a present, mapped picture whose rows fit its pitch and fill its span. */
    method Initialize(d: Description, pagingActive: bool, w: Window) returns (status: Status)
      requires Valid() && memory.Length == d.size
      modifies this
      ensures Valid()
      ensures status == Ok <==> !old(active) && pagingActive && Acceptable(d, w)
      ensures status == AlreadyInitialized <==> old(active)
      ensures status == Absent <==> !old(active) && !d.present
      ensures status == NotMapped <==> !old(active) && d.present && !(pagingActive && Mapped(d, w))
      ensures status == BadGeometry <==> !old(active) && d.present && pagingActive && Mapped(d, w) && !Fills(d)
      ensures status == Ok <==> !old(active) && d.present && pagingActive && Mapped(d, w) && Fills(d)
      ensures status == Ok ==> active && geometry == d.geometry
      ensures status != Ok ==> active == old(active) && geometry == old(geometry)
    {
      if active { return AlreadyInitialized; }
      if !d.present { return Absent; }
      if !pagingActive { return NotMapped; }
      if w.NoWindow? || d.size >= WORD - d.address || d.address < w.base ||
         d.address + d.size > (w.base + w.length) % WORD {
        return NotMapped;
      }
      var g := d.geometry;
      if g.width == 0 || g.height == 0 || g.pitch < g.width * PIXEL_BYTES || g.pitch * g.height != d.size {
        return BadGeometry;
      }
      geometry := g;
      active := true;
      return Ok;
    }

    method WritePixel(x: nat, y: nat, pixel: nat) returns (status: Status)
      requires Valid() && pixel < 0x1_0000_0000
      modifies memory
      ensures status == Ok <==> active && Inside(geometry, x, y)
      ensures status != Ok ==> memory[..] == old(memory[..])
      ensures status == Ok ==> PixelSet(old(memory[..]), memory[..], geometry, x, y, pixel)
    {
      if !active { return NotInitialized; }
      if !Inside(geometry, x, y) { return OutOfBounds; }
      ghost var before := memory[..];
      assert Sized(before, geometry);
      CellFits(geometry, x, y);
      Write32(memory, Offset(geometry, x, y), pixel);
      OnlyThatPixel(before, memory[..], geometry, x, y, pixel);
      return Ok;
    }

    method ReadPixel(x: nat, y: nat) returns (status: Status, pixel: nat)
      requires Valid()
      ensures status == Ok <==> active && Inside(geometry, x, y)
      ensures pixel == if status == Ok then PixelAt(memory[..], geometry, x, y) else 0
    {
      if !active { return NotInitialized, 0; }
      if !Inside(geometry, x, y) { return OutOfBounds, 0; }
      PixelIsAtOffset(memory[..], geometry, x, y);
      return Ok, U32(memory[..], Offset(geometry, x, y));
    }

    /** Paint the rows from first on. */
    method PaintFrom(first: nat, fill: nat)
      requires Valid() && active && first <= geometry.height
      modifies memory
      ensures Sized(memory[..], geometry)
      ensures forall y: nat :: y < geometry.height ==>
        Row(memory[..], geometry, y) ==
          if y < first then Row(old(memory[..]), geometry, y)
          else Painted(fill, geometry.width) + Padding(Row(old(memory[..]), geometry, y), geometry)
    {
      hide Row, Painted, Padding;
      ghost var before := memory[..];
      var y := first;
      while y < geometry.height
        invariant first <= y <= geometry.height
        invariant forall z: nat :: z < geometry.height ==>
          Row(memory[..], geometry, z) ==
            if first <= z < y then Painted(fill, geometry.width) + Padding(Row(before, geometry, z), geometry)
            else Row(before, geometry, z)
      {
        ghost var now := memory[..];
        RowOrder(geometry.pitch, y, geometry.height);
        PaintRow(memory, y * geometry.pitch, geometry.width, fill);
        WriteRow(now, memory[..], geometry, y, y * geometry.pitch, Painted(fill, geometry.width));
        y := y + 1;
      }
    }

    method Fill(fill: nat) returns (status: Status)
      requires Valid()
      modifies memory
      ensures status == Ok <==> active
      ensures !active ==> memory[..] == old(memory[..])
      ensures active ==> Sized(memory[..], geometry)
      ensures active ==> Scrolled(old(memory[..]), memory[..], geometry, geometry.height, fill)
    {
      hide Row, Painted;
      if !active { return NotInitialized; }
      PaintFrom(0, fill);
      return Ok;
    }

    method ScrollUp(rows: nat, fill: nat) returns (status: Status)
      requires Valid()
      modifies memory
      ensures status == Ok <==> active
      ensures !active || rows == 0 ==> memory[..] == old(memory[..])
      ensures active ==> Sized(memory[..], geometry)
      ensures active && rows > 0 ==> Scrolled(old(memory[..]), memory[..], geometry, rows, fill)
    {
      hide Row, Painted;
      if !active { return NotInitialized; }
      if rows == 0 { return Ok; }
      ghost var before := memory[..];
      if rows >= geometry.height {
        status := Fill(fill);
        assert forall y: nat :: y < geometry.height ==>
          ScrolledRow(before, geometry, rows, fill, y) == ScrolledRow(before, geometry, geometry.height, fill, y);
        return;
      }
      MoveRows(rows);
      PaintFrom(geometry.height - rows, fill);
      return Ok;
    }

    /** Upward, front to back: a row is read before it is overwritten. */
    method MoveRows(rows: nat)
      requires Valid() && active && 0 < rows < geometry.height
      modifies memory
      ensures Sized(memory[..], geometry)
      ensures Moved(old(memory[..]), memory[..], geometry, rows, geometry.height - rows)
    {
      hide Moved, RowBecomes;
      ghost var g, before := geometry, memory[..];
      assert Moved(before, before, g, rows, 0) by { MovedNone(before, g, rows); }
      var y := 0;
      while y + rows < geometry.height
        invariant y + rows <= geometry.height
        invariant Moved(before, memory[..], g, rows, y)
      {
        ghost var now := memory[..];
        RowOrder(geometry.pitch, y, y + rows);
        RowOrder(geometry.pitch, y + rows, geometry.height);
        CopyRow(memory, y * geometry.pitch, (y + rows) * geometry.pitch, geometry.width);
        CopiedRow(now, memory[..], g, y, y + rows, y * geometry.pitch, (y + rows) * geometry.pitch,
                  PIXEL_BYTES * geometry.width);
        MovedNext(before, now, memory[..], g, rows, y);
        y := y + 1;
      }
    }
  }

  lemma MovedNone(mem: seq<Byte>, g: Geometry, rows: nat)
    requires Legal(g) && Sized(mem, g) && rows <= g.height
    ensures Moved(mem, mem, g, rows, 0)
  {
  }

  lemma CellFits(g: Geometry, x: nat, y: nat)
    requires Legal(g) && Inside(g, x, y)
    ensures Offset(g, x, y) + PIXEL_BYTES <= g.pitch * g.height
  {
    RowOrder(g.pitch, y, g.height);
  }

  /** One pixel holds the value, every other pixel what it held, and so does every
      byte outside the pixel's cell, padding included. */
  ghost predicate PixelSet(before: seq<Byte>, after: seq<Byte>, g: Geometry, x: nat, y: nat, pixel: nat) {
    && Legal(g) && Sized(before, g) && Sized(after, g) && Inside(g, x, y)
    && PixelAt(after, g, x, y) == pixel
    && (forall u: nat, v: nat :: Inside(g, u, v) && (u, v) != (x, y) ==>
          PixelAt(after, g, u, v) == PixelAt(before, g, u, v))
    && forall k :: 0 <= k < |after| && !(Offset(g, x, y) <= k < Offset(g, x, y) + PIXEL_BYTES) ==> after[k] == before[k]
  }

  lemma OnlyThatPixel(before: seq<Byte>, after: seq<Byte>, g: Geometry, x: nat, y: nat, pixel: nat)
    requires Legal(g) && Sized(before, g) && Sized(after, g) && Inside(g, x, y) && pixel < 0x1_0000_0000
    requires forall k :: 0 <= k < |after| ==>
      after[k] == if Offset(g, x, y) <= k < Offset(g, x, y) + 4 then Le32(pixel)[k - Offset(g, x, y)] else before[k]
    ensures PixelSet(before, after, g, x, y, pixel)
  {
    hide PixelAt, Le32;
    var at := Offset(g, x, y);
    PixelIsAtOffset(after, g, x, y);
    hide Offset;
    assert after[at..at + 4] == Le32(pixel);
    Reads32(after, at, pixel);
    forall u: nat, v: nat | Inside(g, u, v) && (u, v) != (x, y)
      ensures PixelAt(after, g, u, v) == PixelAt(before, g, u, v)
    {
      Elsewhere(before, after, g, x, y, u, v);
    }
  }

  /** The first y rows have moved up; the rest are as they were. */
  ghost predicate Moved(before: seq<Byte>, after: seq<Byte>, g: Geometry, rows: nat, y: nat)
    requires Legal(g) && Sized(before, g) && Sized(after, g) && y + rows <= g.height
  {
    forall z: nat :: z < g.height ==>
      Row(after, g, z) == if z < y then MovedRow(before, g, rows, z) else Row(before, g, z)
  }

  ghost function MovedRow(before: seq<Byte>, g: Geometry, rows: nat, z: nat): seq<Byte>
    requires Legal(g) && Sized(before, g) && z + rows < g.height
  {
    Picture(Row(before, g, z + rows), g) + Padding(Row(before, g, z), g)
  }

  lemma MovedNext(before: seq<Byte>, now: seq<Byte>, after: seq<Byte>, g: Geometry, rows: nat, y: nat)
    requires Legal(g) && Sized(before, g) && Sized(now, g) && Sized(after, g)
    requires 0 < rows && y + rows < g.height
    requires Moved(before, now, g, rows, y)
    requires RowBecomes(now, after, g, y, Picture(Row(now, g, y + rows), g))
    ensures Moved(before, after, g, rows, y + 1)
  {
    hide Row;
    assert Row(now, g, y) == Row(before, g, y) && Row(now, g, y + rows) == Row(before, g, y + rows);
  }

  lemma PictureIs(mem: seq<Byte>, g: Geometry, z: nat, from: nat)
    requires Legal(g) && Sized(mem, g) && z < g.height && from == z * g.pitch
    ensures from + PIXEL_BYTES * g.width <= |mem|
    ensures Picture(Row(mem, g, z), g) == mem[from..from + PIXEL_BYTES * g.width]
  {
    RowOrder(g.pitch, z, g.height);
  }

  lemma CopiedRow(now: seq<Byte>, after: seq<Byte>, g: Geometry, y: nat, z: nat, to: nat, from: nat, n: nat)
    requires Legal(g) && Sized(now, g) && Sized(after, g) && y < z < g.height && n == PIXEL_BYTES * g.width
    requires to == y * g.pitch && from == z * g.pitch && from + n <= |now|
    requires forall k {:trigger after[k]} :: 0 <= k < |after| ==>
      after[k] == if to <= k < to + n then now[from + (k - to)] else now[k]
    ensures RowBecomes(now, after, g, y, Picture(Row(now, g, z), g))
  {
    hide Row, RowBecomes;
    PictureIs(now, g, z, from);
    WriteRow(now, after, g, y, to, now[from..from + n]);
  }

  /** A write to one cell does not reach another. */
  lemma Elsewhere(before: seq<Byte>, after: seq<Byte>, g: Geometry, x: nat, y: nat, u: nat, v: nat)
    requires Legal(g) && Sized(before, g) && Sized(after, g)
    requires Inside(g, x, y) && Inside(g, u, v) && (u, v) != (x, y)
    requires forall k :: 0 <= k < |after| && !(Offset(g, x, y) <= k < Offset(g, x, y) + 4) ==> after[k] == before[k]
    ensures PixelAt(after, g, u, v) == PixelAt(before, g, u, v)
  {
    hide Row;
    PixelIsAtOffset(before, g, u, v);
    PixelIsAtOffset(after, g, u, v);
    CellsDisjoint(g, x, y, u, v);
  }
}
