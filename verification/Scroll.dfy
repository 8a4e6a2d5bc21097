/** BIOS text scrolling of crates/bios/src/screen: clipped windows moved in place, row by row. */
module Scrolling {
  import opened Wrappers
  import opened Machine
  import opened Arithmetic

  const TEXT_MEMORY_BYTES := 0x8000
  const BLANK: Byte := 0x20

  datatype Direction = Up | Down

  datatype Window = Window(top: Byte, left: Byte, bottom: Byte, right: Byte)

  // ----- addresses

  datatype Geometry = Geometry(columns: Word, rows: nat, pageBytes: Word, textBase: nat) {
    predicate ValidPage(page: Byte) {
      page < 8 && pageBytes != 0 && (page + 1) * pageBytes <= TEXT_MEMORY_BYTES
    }

    predicate Contains(row: nat, column: nat) {
      row < rows && column < columns
    }

    function PageOffset(page: Byte): Word { page * pageBytes % TWO_16 }

    function CellIndex(row: Word, column: Word): Word { (row * columns % TWO_16 + column) % TWO_16 }

    // The source's sixteen-bit wrapping arithmetic.
    function CellOffset(page: Byte, row: Word, column: Word): Word {
      (PageOffset(page) + CellIndex(row, column) * 2 % TWO_16) % TWO_16
    }

    function CellAddress(page: Byte, row: Word, column: Word): nat {
      textBase + CellOffset(page, row, column)
    }

    /** The page's grid stays inside text memory, on the page itself or spilling over the next ones. */
    ghost predicate PageFits(page: Byte) {
      ValidPage(page) && rows <= 256 && page * pageBytes + rows * columns * 2 <= TEXT_MEMORY_BYTES
    }
  }

  /** While the grid stays inside text memory no cell address wraps, and all cells lie there. */
  lemma CellAddressExact(g: Geometry, page: Byte, row: Word, column: Word)
    requires g.PageFits(page) && g.Contains(row, column)
    ensures g.CellAddress(page, row, column) == g.textBase + page * g.pageBytes + 2 * (row * g.columns + column)
    ensures page * g.pageBytes + 2 * (row * g.columns + column) + 2 <= TEXT_MEMORY_BYTES
  {
    CellFits(g.rows, g.columns, row, column);
    MulNonNegative(page, g.pageBytes);
    MulSuccessor(page, g.pageBytes);
    NoWrap(page * g.pageBytes, row * g.columns, column, TEXT_MEMORY_BYTES - page * g.pageBytes);
  }

  // A cell's bytes lie within those of its grid.
  lemma CellFits(rows: nat, columns: nat, row: nat, column: nat)
    requires row < rows && column < columns
    ensures 0 <= row * columns && 2 * (row * columns + column) + 2 <= rows * columns * 2
  {
    MulMonotone(row + 1, rows, columns);
    MulSuccessor(row, columns);
    MulNonNegative(row, columns);
    TwiceGrid(rows, columns);
  }

  lemma TwiceGrid(a: nat, b: nat)
    ensures a * b * 2 == 2 * (a * b)
  {}

  lemma NoWrap(page0: nat, line: nat, column: nat, pageBytes: nat)
    requires page0 + pageBytes <= TEXT_MEMORY_BYTES && 2 * (line + column) + 2 <= pageBytes
    ensures page0 % TWO_16 == page0 && (line % TWO_16 + column) % TWO_16 == line + column
    ensures (page0 + (line + column) * 2 % TWO_16) % TWO_16 == page0 + 2 * (line + column)
  {}

  // ----- clipping and row order

  datatype Scroll = Scroll(left: nat, width: nat, top: nat, bottom: nat, count: nat, direction: Direction) {
    ghost predicate Valid(columns: nat, rows: nat) {
      && top <= bottom < rows && bottom < 256 && 0 < width && left + width <= columns && left + width <= 256
      && 1 <= count <= bottom - top + 1
    }

    predicate Selects(row: nat, column: nat) {
      top <= row <= bottom && left <= column < left + width
    }

    // The row that moves to a window row, if it is inside the window.
    function Source(row: nat): Option<nat> {
      var source := if direction.Up? then row + count else row - count;
      if top <= source <= bottom then Some(source) else None
    }

    // Retained rows are moved in the order that never reads an overwritten row.
    function Rows(): seq<nat>
      requires top <= bottom
    {
      seq(bottom - top + 1, (i: nat) requires i <= bottom - top => if direction.Up? then top + i else bottom - i)
    }
  }

  function Clip(window: Window, lines: Byte, direction: Direction, columns: Word, rows: Word): (scroll: Option<Scroll>)
    ensures scroll.Some? <==> rows > 0 && columns > 0 && window.top <= Min(window.bottom, rows - 1)
                              && window.left <= Min(window.right, columns - 1)
    ensures scroll.Some? ==> scroll.value.Valid(columns, rows)
  {
    if columns == 0 || rows == 0 then None
    else
      var bottom, right := Min(window.bottom, rows - 1), Min(window.right, columns - 1);
      if window.top > bottom || window.left > right then None
      else
        var height := bottom - window.top + 1;
        Some(Scroll(window.left, right - window.left + 1, window.top, bottom,
                    if lines == 0 then height else Min(lines, height), direction))
  }

  /** A clipped window selects exactly its cells on the grid, and moves them by the requested lines;
      zero lines, like at least as many as it has rows, blanks all of it. */
  lemma ClipExact(window: Window, lines: Byte, direction: Direction, columns: Word, rows: Word)
    ensures match Clip(window, lines, direction, columns, rows)
            case None =>
              !exists row: nat, column: nat :: InWindow(window, row, column) && row < rows && column < columns
            case Some(scroll) =>
              && (forall row: nat, column: nat ::
                    scroll.Selects(row, column) <==> InWindow(window, row, column) && row < rows && column < columns)
              && (forall row | scroll.top <= row <= scroll.bottom ::
                    var source := if direction.Up? then row + lines else row - lines;
                    scroll.Source(row) ==
                    if lines != 0 && scroll.top <= source <= scroll.bottom then Some(source) else None)
  {
    var scroll := Clip(window, lines, direction, columns, rows);
    if scroll.None? && columns != 0 && rows != 0 {
      assert window.top > Min(window.bottom, rows - 1) || window.left > Min(window.right, columns - 1);
    }
  }

  predicate InWindow(window: Window, row: nat, column: nat) {
    window.top <= row <= window.bottom && window.left <= column <= window.right
  }

  // ----- rows of the window in memory

  /** Where a window's rows lie: equally spaced spans that do not meet. */
  datatype Area = Area(start: nat, stride: nat, span: nat) {
    function RowStart(row: nat): nat {
      MulNonNegative(row, stride);
      start + row * stride
    }

    ghost predicate Covers(top: nat, bottom: nat, a: nat) {
      exists row | top <= row <= bottom :: InRow(row, a)
    }

    ghost predicate InRow(row: nat, a: nat) {
      RowStart(row) <= a < RowStart(row) + span
    }

    ghost predicate Fits(bottom: nat, size: nat) {
      span <= stride && RowStart(bottom) + span <= size
    }
  }

  lemma RowsApart(area: Area, first: nat, second: nat)
    requires first < second && area.span <= area.stride
    ensures area.RowStart(first) + area.span <= area.RowStart(second)
  {
    MulMonotone(first + 1, second, area.stride);
    MulSuccessor(first, area.stride);
  }

  lemma RowFits(area: Area, row: nat, bottom: nat, size: nat)
    requires row <= bottom && area.Fits(bottom, size)
    ensures area.RowStart(row) + area.span <= size
  {
    if row < bottom { RowsApart(area, row, bottom); }
  }

  function RowBytes(s: seq<Byte>, area: Area, row: nat): seq<Byte>
    requires area.RowStart(row) + area.span <= |s|
  {
    s[area.RowStart(row)..area.RowStart(row) + area.span]
  }

  // A row of blank cells.
  function Blanks(span: nat, attribute: Byte): seq<Byte> {
    seq(span, (i: nat) => if i % 2 == 0 then BLANK else attribute)
  }

  /** What simultaneous copying would leave in a window row. */
  function Moved(s: seq<Byte>, area: Area, scroll: Scroll, attribute: Byte, row: nat): seq<Byte>
    requires area.Fits(scroll.bottom, |s|)
  {
    match scroll.Source(row)
    case Some(source) =>
      RowFits(area, source, scroll.bottom, |s|);
      RowBytes(s, area, source)
    case None => Blanks(area.span, attribute)
  }

  function Overwrite(s: seq<Byte>, at: nat, bytes: seq<Byte>): seq<Byte>
    requires at + |bytes| <= |s|
  {
    s[..at] + bytes + s[at + |bytes|..]
  }

  lemma OverwriteRow(s: seq<Byte>, area: Area, row: nat, bytes: seq<Byte>, bottom: nat)
    requires area.Fits(bottom, |s|) && row <= bottom && |bytes| == area.span
    ensures area.RowStart(row) + area.span <= |s|
    ensures var t := Overwrite(s, area.RowStart(row), bytes);
            && RowBytes(t, area, row) == bytes
            && (forall a | 0 <= a < |s| && !area.InRow(row, a) :: t[a] == s[a])
  {
    RowFits(area, row, bottom, |s|);
  }

  lemma OtherRow(s: seq<Byte>, t: seq<Byte>, area: Area, row: nat, other: nat, bottom: nat)
    requires area.Fits(bottom, |s|) && |t| == |s| && row <= bottom && other <= bottom && other != row
    requires forall a | 0 <= a < |s| && !area.InRow(row, a) :: t[a] == s[a]
    ensures area.RowStart(other) + area.span <= |s|
    ensures RowBytes(t, area, other) == RowBytes(s, area, other)
  {
    RowFits(area, other, bottom, |s|);
    if other < row { RowsApart(area, other, row); } else { RowsApart(area, row, other); }
  }

  // ----- scrolling in place

  // Rows already moved after some turns.
  predicate Done(scroll: Scroll, turns: nat, row: nat) {
    if scroll.direction.Up? then row < scroll.top + turns else row + turns > scroll.bottom
  }

  ghost predicate Progress(before: seq<Byte>, now: seq<Byte>, area: Area, scroll: Scroll, attribute: Byte, turns: nat)
    requires area.Fits(scroll.bottom, |before|) && |now| == |before|
  {
    && (forall row | scroll.top <= row <= scroll.bottom ::
          area.RowStart(row) + area.span <= |now|
          && RowBytes(now, area, row) ==
             if Done(scroll, turns, row) then Moved(before, area, scroll, attribute, row)
             else RowBytes(before, area, row))
    && (forall a | 0 <= a < |now| && !area.Covers(scroll.top, scroll.bottom, a) :: now[a] == before[a])
  }

  lemma ProgressStart(before: seq<Byte>, area: Area, scroll: Scroll, attribute: Byte)
    requires area.Fits(scroll.bottom, |before|)
    ensures Progress(before, before, area, scroll, attribute, 0)
  {
    forall row | scroll.top <= row <= scroll.bottom ensures area.RowStart(row) + area.span <= |before| {
      RowFits(area, row, scroll.bottom, |before|);
    }
  }

  // The row a turn reads has not been overwritten yet.
  lemma SourcePending(before: seq<Byte>, now: seq<Byte>, area: Area, scroll: Scroll, attribute: Byte, turns: nat)
    requires area.Fits(scroll.bottom, |before|) && |now| == |before| && scroll.count >= 1
    requires scroll.top <= scroll.bottom && turns <= scroll.bottom - scroll.top
    requires Progress(before, now, area, scroll, attribute, turns)
    ensures var row := scroll.Rows()[turns];
            Moved(now, area, scroll, attribute, row) == Moved(before, area, scroll, attribute, row)
  {
    hide Blanks;
    var row := scroll.Rows()[turns];
    if scroll.Source(row).Some? {
      var source := scroll.Source(row).value;
      assert !Done(scroll, turns, source);
      RowFits(area, source, scroll.bottom, |now|);
      assert RowBytes(now, area, source) == RowBytes(before, area, source);
    }
  }

  lemma ProgressTurn(before: seq<Byte>, now: seq<Byte>, area: Area, scroll: Scroll, attribute: Byte, turns: nat)
    requires area.Fits(scroll.bottom, |before|) && |now| == |before| && scroll.count >= 1
    requires scroll.top <= scroll.bottom && turns <= scroll.bottom - scroll.top
    requires Progress(before, now, area, scroll, attribute, turns)
    ensures var row := scroll.Rows()[turns];
            && scroll.top <= row <= scroll.bottom && area.RowStart(row) + area.span <= |now|
            && var bytes := Moved(now, area, scroll, attribute, row);
            && |bytes| == area.span
            && Progress(before, Overwrite(now, area.RowStart(row), bytes), area, scroll, attribute, turns + 1)
  {
    var row := scroll.Rows()[turns];
    RowFits(area, row, scroll.bottom, |now|);
    var bytes := Moved(now, area, scroll, attribute, row);
    SourcePending(before, now, area, scroll, attribute, turns);
    OverwriteRow(now, area, row, bytes, scroll.bottom);
    hide Moved, Overwrite;
    var next := Overwrite(now, area.RowStart(row), bytes);
    forall other | scroll.top <= other <= scroll.bottom
      ensures area.RowStart(other) + area.span <= |next|
              && RowBytes(next, area, other) ==
                 if Done(scroll, turns + 1, other) then Moved(before, area, scroll, attribute, other)
                 else RowBytes(before, area, other)
    {
      if other != row {
        OtherRow(now, next, area, row, other, scroll.bottom);
        assert Done(scroll, turns + 1, other) == Done(scroll, turns, other);
      }
    }
    forall a | 0 <= a < |next| && !area.Covers(scroll.top, scroll.bottom, a) ensures next[a] == before[a] {
      assert !area.InRow(row, a);
    }
  }

  lemma ProgressEnds(before: seq<Byte>, now: seq<Byte>, area: Area, scroll: Scroll, attribute: Byte)
    requires area.Fits(scroll.bottom, |before|) && |now| == |before|
    requires scroll.top <= scroll.bottom && Progress(before, now, area, scroll, attribute, |scroll.Rows()|)
    ensures forall row | scroll.top <= row <= scroll.bottom ::
              area.RowStart(row) + area.span <= |now|
              && RowBytes(now, area, row) == Moved(before, area, scroll, attribute, row)
    ensures forall a | 0 <= a < |now| && !area.Covers(scroll.top, scroll.bottom, a) :: now[a] == before[a]
  {}

  method WriteBytes(memory: array<Byte>, at: nat, bytes: seq<Byte>)
    requires at + |bytes| <= memory.Length
    modifies memory
    ensures memory[..] == Overwrite(old(memory[..]), at, bytes)
  {
    for k := 0 to |bytes|
      invariant memory[..] == Overwrite(old(memory[..]), at, bytes[..k])
    {
      memory[at + k] := bytes[k];
      assert memory[..] == Overwrite(old(memory[..]), at, bytes[..k + 1]);
    }
    assert bytes[..|bytes|] == bytes;
  }

  // Where the window's rows are on a page that holds its grid.
  function AreaOf(g: Geometry, page: Byte, scroll: Scroll): Area {
    Area(g.textBase + page * g.pageBytes + 2 * scroll.left, 2 * g.columns, 2 * scroll.width)
  }

  lemma AreaFits(g: Geometry, page: Byte, scroll: Scroll, size: nat)
    requires g.PageFits(page) && scroll.Valid(g.columns, g.rows)
    requires g.textBase + TEXT_MEMORY_BYTES <= size
    ensures AreaOf(g, page, scroll).Fits(scroll.bottom, size)
  {
    var right := scroll.left + scroll.width - 1;
    CellAddressExact(g, page, scroll.bottom, right);
    MulDistribute(scroll.bottom, scroll.bottom, g.columns);
    TwiceProduct(scroll.bottom, g.columns);
  }

  lemma TwiceProduct(a: nat, b: nat)
    ensures a * (2 * b) == 2 * (a * b)
  {}

  lemma RowAddress(g: Geometry, page: Byte, scroll: Scroll, row: nat)
    requires g.PageFits(page) && scroll.Valid(g.columns, g.rows) && row <= scroll.bottom
    ensures g.CellAddress(page, row, scroll.left) == AreaOf(g, page, scroll).RowStart(row)
  {
    CellAddressExact(g, page, row, scroll.left);
    TwiceProduct(row, g.columns);
  }

  // Cell by cell: what a window's cell holds after its row has moved.
  ghost predicate CellScrolled(before: seq<Byte>, after: seq<Byte>, g: Geometry, page: Byte, scroll: Scroll,
                               attribute: Byte, row: nat, column: nat)
    requires row < TWO_16 && column < TWO_16 && scroll.bottom < TWO_16
  {
    var a := g.CellAddress(page, row, column);
    && a + 1 < |after|
    && match scroll.Source(row)
       case Some(source) =>
         var from := g.CellAddress(page, source, column);
         from + 1 < |before| && after[a] == before[from] && after[a + 1] == before[from + 1]
       case None => after[a] == 0x20 && after[a + 1] == attribute
  }

  // One character and attribute of a moved row.
  lemma RowMoved(before: seq<Byte>, after: seq<Byte>, area: Area, scroll: Scroll, attribute: Byte, row: nat, k: nat)
    requires area.Fits(scroll.bottom, |before|) && |after| == |before|
    requires area.RowStart(row) + area.span <= |after| && k % 2 == 0 && k + 1 < area.span
    requires RowBytes(after, area, row) == Moved(before, area, scroll, attribute, row)
    ensures var a := area.RowStart(row) + k;
            match scroll.Source(row)
            case Some(source) =>
              var from := area.RowStart(source) + k;
              from + 1 < |before| && after[a] == before[from] && after[a + 1] == before[from + 1]
            case None => after[a] == 0x20 && after[a + 1] == attribute
  {
    hide Area.RowStart;
    var bytes := RowBytes(after, area, row);
    assert bytes[k] == after[area.RowStart(row) + k] && bytes[k + 1] == after[area.RowStart(row) + k + 1];
    if scroll.Source(row).Some? { RowFits(area, scroll.Source(row).value, scroll.bottom, |before|); }
  }

  // A cell's address as its place in a row of the window.
  lemma CellInRow(g: Geometry, page: Byte, scroll: Scroll, row: nat, column: nat)
    requires g.PageFits(page) && scroll.Valid(g.columns, g.rows) && row <= scroll.bottom
    requires scroll.left <= column < scroll.left + scroll.width
    ensures g.CellAddress(page, row, column) == AreaOf(g, page, scroll).RowStart(row) + 2 * (column - scroll.left)
  {
    CellAddressExact(g, page, row, column);
    TwiceProduct(row, g.columns);
  }

  /** In a scrolled window every cell is, character and attribute, the original cell at the scroll distance
      in its column, or a space with the requested attribute. */
  lemma CellsScrolled(before: seq<Byte>, after: seq<Byte>, g: Geometry, page: Byte, scroll: Scroll,
                      attribute: Byte, row: nat, column: nat)
    requires g.PageFits(page) && scroll.Valid(g.columns, g.rows) && scroll.Selects(row, column)
    requires g.textBase + TEXT_MEMORY_BYTES <= |before| && |after| == |before|
    requires var area := AreaOf(g, page, scroll);
             && area.Fits(scroll.bottom, |before|) && area.RowStart(row) + area.span <= |after|
             && RowBytes(after, area, row) == Moved(before, area, scroll, attribute, row)
    ensures CellScrolled(before, after, g, page, scroll, attribute, row, column)
  {
    hide Moved, RowBytes, Geometry.CellAddress, Area.RowStart;
    CellInRow(g, page, scroll, row, column);
    RowMoved(before, after, AreaOf(g, page, scroll), scroll, attribute, row, 2 * (column - scroll.left));
    if scroll.Source(row).Some? { CellInRow(g, page, scroll, scroll.Source(row).value, column); }
  }

  // What a turn puts into its row: the row at the scroll distance, or blanks.
  method RowBuffer(scroll: Scroll, memory: array<Byte>, g: Geometry, page: Byte, attribute: Byte, row: nat)
    returns (bytes: seq<Byte>)
    requires g.PageFits(page) && scroll.Valid(g.columns, g.rows)
    requires AreaOf(g, page, scroll).Fits(scroll.bottom, memory.Length)
    ensures bytes == Moved(memory[..], AreaOf(g, page, scroll), scroll, attribute, row)
  {
    var source := scroll.Source(row);
    if source.Some? {
      RowAddress(g, page, scroll, source.value);
      RowFits(AreaOf(g, page, scroll), source.value, scroll.bottom, memory.Length);
      var from := g.CellAddress(page, source.value, scroll.left);
      bytes := memory[from..from + 2 * scroll.width];
    } else {
      bytes := Blanks(2 * scroll.width, attribute);
    }
  }

  /** In-place scrolling equals simultaneous copying: every window row ends as the original row at the
      scroll distance, or blank, cell by cell, and every byte outside the window is unchanged. */
  method Text(scroll: Scroll, memory: array<Byte>, g: Geometry, page: Byte, attribute: Byte)
    requires g.PageFits(page) && scroll.Valid(g.columns, g.rows)
    requires g.textBase + TEXT_MEMORY_BYTES <= memory.Length
    modifies memory
    ensures AreaOf(g, page, scroll).Fits(scroll.bottom, memory.Length)
    ensures forall row | scroll.top <= row <= scroll.bottom ::
              AreaOf(g, page, scroll).RowStart(row) + 2 * scroll.width <= memory.Length
              && RowBytes(memory[..], AreaOf(g, page, scroll), row)
                 == Moved(old(memory[..]), AreaOf(g, page, scroll), scroll, attribute, row)
    ensures forall a | 0 <= a < memory.Length && !AreaOf(g, page, scroll).Covers(scroll.top, scroll.bottom, a) ::
              memory[a] == old(memory[..])[a]
    ensures forall row, column | scroll.Selects(row, column) ::
              CellScrolled(old(memory[..]), memory[..], g, page, scroll, attribute, row, column)
  {
    hide Progress, Blanks, Done, Moved;
    ghost var area := AreaOf(g, page, scroll);
    AreaFits(g, page, scroll, memory.Length);
    ghost var before := memory[..];
    ProgressStart(before, area, scroll, attribute);
    var rows := scroll.Rows();
    for turn := 0 to |rows|
      invariant Progress(before, memory[..], area, scroll, attribute, turn)
    {
      var row := rows[turn];
      ProgressTurn(before, memory[..], area, scroll, attribute, turn);
      RowAddress(g, page, scroll, row);
      var bytes := RowBuffer(scroll, memory, g, page, attribute, row);
      WriteBytes(memory, g.CellAddress(page, row, scroll.left), bytes);
    }
    ProgressEnds(before, memory[..], area, scroll, attribute);
    forall row, column | scroll.Selects(row, column)
      ensures CellScrolled(before, memory[..], g, page, scroll, attribute, row, column)
    {
      CellsScrolled(before, memory[..], g, page, scroll, attribute, row, column);
    }
  }
}
