/** The sizing engine of the PDF photo wall: tile metrics for a photo size, the
    height a roster needs at that size, the first-fit search over the candidate sizes,
    and the placement loop that walks a cursor down the page and raises the overflow
    flag. Page geometry (usable width, top of the tile area, bottom margin) is given
    as exact reals. */
module Layout {
  import opened Cells
  import opened Frames

  /** The rank sections of the page, top to bottom. */
  const Ranks: seq<string> := ["Partner", "Associate Partner", "Director", "Senior Manager", "Manager", "Senior Consultant", "Consultant"]

  /** Below this section a separator line and 10 extra points are inserted. */
  const SplitRank: string := "Manager"

  const ColGap: int := 6
  const RowGap: int := 8
  const TitleH: int := 12
  const SectionGap: int := 4

  /** Candidate photo sizes, largest first. */
  const Sizes: seq<int> := [90, 80, 75, 70, 65, 60, 55, 50, 46, 42, 38, 34]

  /** Names are printed under the photo only above 42 points. */
  predicate ShowNames(size: int)
  {
    size > 42
  }

  /** The utilisation figure is printed only from 70 points up. */
  predicate ShowUtil(size: int)
  {
    size >= 70
  }

  function TileW(size: int): int
  {
    size + 12
  }

  /** Photo, optional name line (9), optional utilisation line (8) and 6 points of padding. */
  function TileH(size: int): int
  {
    size + (if ShowNames(size) then 9 else 0) + (if ShowUtil(size) then 8 else 0) + 6
  }

  /** A tile is taller than its photo by 6, 15 or 23 points, depending on what it shows. */
  lemma TileMetrics(size: int)
    ensures TileW(size) == size + 12
    ensures size <= 42 ==> TileH(size) == size + 6
    ensures 42 < size < 70 ==> TileH(size) == size + 15
    ensures size >= 70 ==> TileH(size) == size + 23
  {
  }

  lemma FloorBounds(x: real, d: real)
    requires d > 0.0
    ensures ((x / d).Floor as real) * d <= x
    ensures x < (((x / d).Floor + 1) as real) * d
  {
    var y := x / d;
    var q := y.Floor;
    var u := (q + 1) as real;
    assert y * d == x;
    assert q as real <= y < u;
    assert (q as real) * d <= y * d;
    assert y * d < u * d by {
      assert (u - y) * d > 0.0;
    }
    assert x < u * d;
    assert u == ((x / d).Floor + 1) as real;
  }

  /** `max(1, int((available_w + col_gap) // (tile_w + col_gap)))`: the greatest number
      of columns whose tiles and gaps fit in the width, but never fewer than one. */
  function Cols(availableW: real, size: int): (c: int)
    requires size > 0
    ensures c >= 1
    ensures c == 1 || ((c * (TileW(size) + ColGap)) as real <= availableW + ColGap as real)
    ensures ((c + 1) * (TileW(size) + ColGap)) as real > availableW + ColGap as real
  {
    var d := (TileW(size) + ColGap) as real;
    var q := ((availableW + ColGap as real) / d).Floor;
    FloorBounds(availableW + ColGap as real, d);
    if q < 1 then 1 else q
  }

  /** The width taken by a row of `cols` tiles and the gaps between them. */
  function RowWidth(size: int, cols: int): int
  {
    cols * TileW(size) + (cols - 1) * ColGap
  }

  /** `start_x`: the row is centred in the usable width. */
  function StartX(availableW: real, margin: real, size: int, cols: int): real
  {
    margin + (availableW - RowWidth(size, cols) as real) / 2.0
  }

  /** The margins left and right of a full row are equal, and when more than one
      column was chosen the row lies within the usable width. */
  lemma RowCentred(availableW: real, margin: real, size: int)
    requires size > 0
    ensures var cols := Cols(availableW, size);
      var x := StartX(availableW, margin, size, cols);
      x - margin == (margin + availableW) - (x + RowWidth(size, cols) as real)
    ensures var cols := Cols(availableW, size);
      var x := StartX(availableW, margin, size, cols);
      cols > 1 ==> margin <= x && x + RowWidth(size, cols) as real <= margin + availableW
  {
  }

  /** `(detail_df["rank_bucket"] == rank).sum()`. */
  function RankCount(buckets: seq<Option<string>>, rank: string): (n: nat)
    ensures n <= |buckets|
  {
    Count(buckets, (b: Option<string>) => b == Some(rank))
  }

  /** `(n + cols - 1) // cols`, the number of tile rows. */
  function RowsOf(n: nat, cols: int): int
    requires cols >= 1
  {
    (n + cols - 1) / cols
  }

  lemma {:induction false} MulAtLeast(d: nat, c: int)
    requires d >= 1 && c > 0
    ensures d * c >= c
  {
    if d > 1 {
      MulAtLeast(d - 1, c);
      assert d * c == (d - 1) * c + c;
    }
  }

  lemma MulSign(d: int, c: int)
    requires c > 0
    ensures d > 0 ==> d * c >= c
    ensures d < 0 ==> d * c <= -c
  {
    if d > 0 {
      MulAtLeast(d, c);
    } else if d < 0 {
      MulAtLeast(-d, c);
      assert d * c == -((-d) * c);
    }
  }

  lemma DivModUnique(k: int, c: int, q: int, r: int)
    requires c > 0 && 0 <= r < c && k == q * c + r
    ensures k / c == q && k % c == r
  {
    var d := q - k / c;
    assert d * c == k % c - r;
    MulSign(d, c);
  }

  lemma DivMono(a: int, b: int, c: int)
    requires 0 <= a <= b && c > 0
    ensures a / c <= b / c
  {
    var qa, qb := a / c, b / c;
    MulSign(qa - qb, c);
    assert (qa - qb) * c == a - a % c - (b - b % c);
  }

  /** `rows` is the ceiling of n / cols: enough rows for n tiles, and one fewer is not. */
  lemma RowsIsCeiling(n: nat, cols: int)
    requires cols >= 1
    ensures RowsOf(n, cols) * cols >= n
    ensures n > 0 ==> (RowsOf(n, cols) - 1) * cols < n
    ensures n > 0 ==> RowsOf(n, cols) - 1 == (n - 1) / cols
  {
    if n > 0 {
      var q, r := (n - 1) / cols, (n - 1) % cols;
      DivModUnique(n + cols - 1, cols, q + 1, r);
    } else {
      DivModUnique(cols - 1, cols, 0, cols - 1);
    }
  }

  /** The vertical space one rank section takes in `required_height`. */
  function BlockHeight(rank: string, n: nat, size: int, cols: int): int
    requires cols >= 1
  {
    if n == 0 then 0
    else
      var rows := RowsOf(n, cols);
      (TitleH + 3) + rows * TileH(size) + (rows - 1) * RowGap + 10 + (if rank == SplitRank then 10 else 0) + SectionGap
  }

  /** The blocks of the given ranks, summed in order. */
  function SumBlocks(buckets: seq<Option<string>>, ranks: seq<string>, size: int, cols: int): (h: int)
    requires cols >= 1
    ensures size > 0 ==> h >= 0
  {
    if |ranks| == 0 then 0
    else
      var r := ranks[|ranks| - 1];
      var rest, block := SumBlocks(buckets, ranks[..|ranks| - 1], size, cols), BlockHeight(r, RankCount(buckets, r), size, cols);
      if size > 0 then
        BlockBounds(r, RankCount(buckets, r), size, cols);
        rest + block
      else rest + block
  }

  /** Summing one more rank adds its block. */
  lemma SumBlocksSnoc(buckets: seq<Option<string>>, ranks: seq<string>, i: nat, size: int, cols: int)
    requires i < |ranks| && cols >= 1
    ensures SumBlocks(buckets, ranks[..i + 1], size, cols)
      == SumBlocks(buckets, ranks[..i], size, cols) + BlockHeight(ranks[i], RankCount(buckets, ranks[i]), size, cols)
  {
    assert ranks[..i + 1][..i] == ranks[..i];
  }

  /** The value of `required_height(size)`. */
  function RequiredHeightOf(buckets: seq<Option<string>>, availableW: real, size: int): (h: int)
    requires size > 0
    ensures h >= 0
    ensures (forall k :: 0 <= k < |Ranks| ==> RankCount(buckets, Ranks[k]) == 0) ==> h == 0
  {
    var cols := Cols(availableW, size);
    if forall k :: 0 <= k < |Ranks| ==> RankCount(buckets, Ranks[k]) == 0 then
      SumBlocksNone(buckets, Ranks, size, cols);
      SumBlocks(buckets, Ranks, size, cols)
    else SumBlocks(buckets, Ranks, size, cols)
  }

  /** An empty section takes no space; a section of n tiles takes at least its title,
      one row of tiles, the trailing 10 points and the section gap. */
  lemma BlockBounds(rank: string, n: nat, size: int, cols: int)
    requires cols >= 1 && size > 0
    ensures n == 0 ==> BlockHeight(rank, n, size, cols) == 0
    ensures n > 0 ==> BlockHeight(rank, n, size, cols) >= (TitleH + 3) + TileH(size) + 10 + SectionGap
  {
    if n > 0 {
      RowsIsCeiling(n, cols);
      var rows := RowsOf(n, cols);
      assert rows >= 1;
      assert rows * TileH(size) >= TileH(size);
    }
  }

  lemma {:induction false} SumBlocksNone(buckets: seq<Option<string>>, ranks: seq<string>, size: int, cols: int)
    requires cols >= 1
    requires forall k :: 0 <= k < |ranks| ==> RankCount(buckets, ranks[k]) == 0
    ensures SumBlocks(buckets, ranks, size, cols) == 0
  {
    if |ranks| > 0 {
      SumBlocksNone(buckets, ranks[..|ranks| - 1], size, cols);
    }
  }

  /** A roster with no tile in any rank section needs no height at all, so the
      largest size is chosen for it. */
  lemma RequiredHeightEmpty(buckets: seq<Option<string>>, availableW: real, size: int)
    requires size > 0
    requires forall k :: 0 <= k < |buckets| ==> buckets[k].None? || buckets[k].value !in Ranks
    ensures RequiredHeightOf(buckets, availableW, size) == 0
  {
    forall k | 0 <= k < |Ranks|
      ensures RankCount(buckets, Ranks[k]) == 0
    {
      var rank := Ranks[k];
      var p := (b: Option<string>) => b == Some(rank);
      var never := (b: Option<string>) => false;
      CountMono(buckets, p, never);
      assert Count(buckets, never) == 0 by {
        CountNone(buckets, never);
      }
    }
    SumBlocksNone(buckets, Ranks, size, Cols(availableW, size));
  }

  /** `required_height`: the loop over the rank sections accumulating `total`. */
  method RequiredHeight(buckets: seq<Option<string>>, availableW: real, size: int) returns (total: int)
    requires size > 0
    ensures total == RequiredHeightOf(buckets, availableW, size)
    ensures total >= 0
  {
    var cols := Cols(availableW, size);
    var tileH := TileH(size);
    total := 0;
    for i := 0 to |Ranks|
      invariant total == SumBlocks(buckets, Ranks[..i], size, cols)
    {
      var rank := Ranks[i];
      SumBlocksSnoc(buckets, Ranks, i, size, cols);
      var n := RankCount(buckets, rank);
      if n == 0 {
        continue;
      }
      ghost var before := total;
      var rows := (n + cols - 1) / cols;
      total := total + (TitleH + 3);
      total := total + rows * tileH + (rows - 1) * RowGap;
      total := total + 10;
      if rank == SplitRank {
        total := total + 10;
      }
      total := total + SectionGap;
      assert total == before + BlockHeight(rank, n, size, cols);
    }
    assert Ranks[..|Ranks|] == Ranks;
  }

  /** Whether a roster fits the available height at a size. */
  predicate FitsAt(buckets: seq<Option<string>>, availableW: real, availableH: real, size: int)
    requires size > 0
    ensures FitsAt(buckets, availableW, availableH, size) ==> availableH >= 0.0
    ensures (forall k :: 0 <= k < |Ranks| ==> RankCount(buckets, Ranks[k]) == 0) ==>
      (FitsAt(buckets, availableW, availableH, size) <==> availableH >= 0.0)
  {
    RequiredHeightOf(buckets, availableW, size) as real <= availableH
  }

  /** Some candidate size fits the available height. */
  predicate SomeSizeFits(buckets: seq<Option<string>>, availableW: real, availableH: real)
  {
    exists j :: 0 <= j < |Sizes| && FitsAt(buckets, availableW, availableH, Sizes[j])
  }

  /** The first-fit search: the first candidate size whose required height fits, or
      34, the smallest, when none does. */
  method ChooseSize(buckets: seq<Option<string>>, availableW: real, availableH: real) returns (chosen: int)
    ensures chosen in Sizes
    ensures exists k :: (0 <= k < |Sizes| && Sizes[k] == chosen
      && (forall j :: 0 <= j < k ==> !FitsAt(buckets, availableW, availableH, Sizes[j]))
      && (FitsAt(buckets, availableW, availableH, chosen) || k == |Sizes| - 1))
    ensures (forall j :: 0 <= j < |Sizes| ==> !FitsAt(buckets, availableW, availableH, Sizes[j])) ==> chosen == 34
    ensures SomeSizeFits(buckets, availableW, availableH) ==> FitsAt(buckets, availableW, availableH, chosen)
  {
    var found: Option<int> := None;
    for i := 0 to |Sizes|
      invariant found.None?
      invariant forall j :: 0 <= j < i ==> !FitsAt(buckets, availableW, availableH, Sizes[j])
    {
      var size := Sizes[i];
      var h := RequiredHeight(buckets, availableW, size);
      if h as real <= availableH {
        found := Some(size);
        break;
      }
    }
    if found.None? {
      chosen := 34;
    } else {
      chosen := found.value;
    }
  }

  /** A drawn tile: the rank section, the tile's position in the section sorted by
      display name, its column, its x coordinate and the y of its top edge. */
  datatype Slot = Slot(rank: nat, index: nat, col: int, x: real, top: real)

  /** The metrics the placement loop fixes once the size is chosen. */
  datatype Geometry = Geometry(tileW: int, tileH: int, cols: int, startX: real)

  function GeometryOf(availableW: real, margin: real, size: int): (g: Geometry)
    requires size > 0
    ensures g.cols >= 1
  {
    var cols := Cols(availableW, size);
    Geometry(TileW(size), TileH(size), cols, StartX(availableW, margin, size, cols))
  }

  /** How far the cursor moves down for a section of n tiles: the title, the rows and
      the 10 points after them, plus 10 below the split rank. */
  function Consumed(rank: string, n: nat, g: Geometry): int
    requires g.cols >= 1
  {
    if n == 0 then 0
    else (TitleH + 3) + ((n - 1) / g.cols) * (g.tileH + RowGap) + g.tileH + 10 + (if rank == SplitRank then 10 else 0)
  }

  /** `y_cursor` before the section of `ranks[i]`. */
  function CursorBefore(buckets: seq<Option<string>>, ranks: seq<string>, i: nat, g: Geometry, yStart: real): real
    requires i <= |ranks| && g.cols >= 1
  {
    if i == 0 then yStart
    else CursorBefore(buckets, ranks, i - 1, g, yStart) - Consumed(ranks[i - 1], RankCount(buckets, ranks[i - 1]), g) as real
  }

  /** The tile slots of one section whose title sits at `cursor`: row-major, `cols`
      tiles to a row. */
  function SectionSlots(r: nat, n: nat, g: Geometry, cursor: real): (s: seq<Slot>)
    requires g.cols >= 1
    ensures |s| == n
    ensures forall k :: 0 <= k < n ==> s[k].rank == r && s[k].index == k && 0 <= s[k].col < g.cols
  {
    seq(n, k requires 0 <= k => Slot(r, k, k % g.cols, g.startX + ((k % g.cols) * (g.tileW + ColGap)) as real,
                  cursor - (TitleH + 3) as real - ((k / g.cols) * (g.tileH + RowGap)) as real))
  }

  /** Every slot of the first `i` sections, had the page no bottom. */
  function AllSlots(buckets: seq<Option<string>>, ranks: seq<string>, i: nat, g: Geometry, yStart: real): seq<Slot>
    requires i <= |ranks| && g.cols >= 1
  {
    if i == 0 then []
    else
      AllSlots(buckets, ranks, i - 1, g, yStart)
      + SectionSlots(i - 1, RankCount(buckets, ranks[i - 1]), g, CursorBefore(buckets, ranks, i - 1, g, yStart))
  }

  /** Every slot of `s` names one of the first `i` sections and a tile inside it. */
  predicate SlotsWithin(buckets: seq<Option<string>>, ranks: seq<string>, i: nat, s: seq<Slot>)
    requires i <= |ranks|
  {
    forall j :: 0 <= j < |s| ==> s[j].rank < i && s[j].index < RankCount(buckets, ranks[s[j].rank])
  }

  lemma SlotsWithinAppend(buckets: seq<Option<string>>, ranks: seq<string>, i: nat, a: seq<Slot>, b: seq<Slot>)
    requires i <= |ranks| && SlotsWithin(buckets, ranks, i, a) && SlotsWithin(buckets, ranks, i, b)
    ensures SlotsWithin(buckets, ranks, i, a + b)
  {
    forall j | 0 <= j < |a + b|
      ensures (a + b)[j].rank < i && (a + b)[j].index < RankCount(buckets, ranks[(a + b)[j].rank])
    {
      ConcatIndex(a, b, j);
    }
  }

  /** Every slot of the first `i` sections names one of them and a tile inside it. */
  lemma {:induction false} SlotsInRange(buckets: seq<Option<string>>, ranks: seq<string>, i: nat, g: Geometry, yStart: real)
    requires i <= |ranks| && g.cols >= 1
    ensures SlotsWithin(buckets, ranks, i, AllSlots(buckets, ranks, i, g, yStart))
  {
    if i > 0 {
      SlotsInRange(buckets, ranks, i - 1, g, yStart);
      SlotsWithinStep(buckets, ranks, i, g, CursorBefore(buckets, ranks, i - 1, g, yStart), AllSlots(buckets, ranks, i - 1, g, yStart));
    }
  }

  /** Slots within the first `i - 1` sections, followed by the slots of section
      `i - 1`, are within the first `i`. */
  lemma SlotsWithinStep(buckets: seq<Option<string>>, ranks: seq<string>, i: nat, g: Geometry, cursor: real, a: seq<Slot>)
    requires 0 < i <= |ranks| && g.cols >= 1 && SlotsWithin(buckets, ranks, i - 1, a)
    ensures SlotsWithin(buckets, ranks, i, a + SectionSlots(i - 1, RankCount(buckets, ranks[i - 1]), g, cursor))
  {
    var b := SectionSlots(i - 1, RankCount(buckets, ranks[i - 1]), g, cursor);
    assert SlotsWithin(buckets, ranks, i, a);
    assert SlotsWithin(buckets, ranks, i, b);
    SlotsWithinAppend(buckets, ranks, i, a, b);
  }

  /** `row_top - tile_h < margin`: the tile would end below the bottom margin. */
  function Misfit(g: Geometry, margin: real): Slot -> bool
  {
    (s: Slot) => s.top - g.tileH as real < margin
  }

  /** No slot of `s` ends below the margin. */
  predicate AllFit(g: Geometry, margin: real, s: seq<Slot>)
  {
    forall j :: 0 <= j < |s| ==> !Misfit(g, margin)(s[j])
  }

  lemma {:induction false} AllSlotsPrefix(buckets: seq<Option<string>>, ranks: seq<string>, i: nat, j: nat, g: Geometry, yStart: real)
    requires i <= j <= |ranks| && g.cols >= 1
    ensures var a := AllSlots(buckets, ranks, j, g, yStart);
      |AllSlots(buckets, ranks, i, g, yStart)| <= |a| && a[..|AllSlots(buckets, ranks, i, g, yStart)|] == AllSlots(buckets, ranks, i, g, yStart)
    decreases j - i
  {
    if i < j {
      AllSlotsPrefix(buckets, ranks, i, j - 1, g, yStart);
    }
  }

  lemma MulSucc(a: int, m: int)
    ensures (a + 1) * m == a * m + m
  {
  }

  /** Slot k of a section sits in row `row` and column `col` when k == row * cols + col. */
  lemma SlotAt(r: nat, n: nat, g: Geometry, cursor: real, k: nat, row: int, col: int)
    requires g.cols >= 1 && k < n && 0 <= col < g.cols && row >= 0 && k == row * g.cols + col
    ensures SectionSlots(r, n, g, cursor)[k]
      == Slot(r, k, col, g.startX + (col * (g.tileW + ColGap)) as real,
              cursor - (TitleH + 3) as real - (row * (g.tileH + RowGap)) as real)
  {
    DivModUnique(k, g.cols, row, col);
  }

  /** One section of the placement loop, from the title down to the cursor update; on
      overflow the slots placed so far are exactly those before the first misfit. */
  method PlaceSection(r: nat, n: nat, g: Geometry, cursor: real, margin: real)
    returns (overflow: bool, placed: seq<Slot>, next: real)
    requires g.cols >= 1 && n > 0
    ensures var sec := SectionSlots(r, n, g, cursor);
      !overflow ==> placed == sec && AllFit(g, margin, placed)
    ensures var sec := SectionSlots(r, n, g, cursor);
      overflow ==> exists k :: 0 <= k < n && placed == sec[..k] && Misfit(g, margin)(sec[k]) && AllFit(g, margin, sec[..k])
    ensures !overflow ==> next == cursor - ((TitleH + 3) + ((n - 1) / g.cols) * (g.tileH + RowGap) + g.tileH + 10) as real
  {
    ghost var sec := SectionSlots(r, n, g, cursor);
    var yCursor := cursor - (TitleH + 3) as real;
    var col := 0;
    var rowTop := yCursor;
    ghost var row := 0;
    overflow := false;
    placed := [];
    next := cursor;
    for k := 0 to n
      invariant 0 <= col <= g.cols && row >= 0
      invariant row * g.cols + col == k
      invariant k > 0 ==> col >= 1
      invariant rowTop == cursor - (TitleH + 3) as real - (row * (g.tileH + RowGap)) as real
      invariant placed == sec[..k]
      invariant AllFit(g, margin, placed)
    {
      if col >= g.cols {
        MulSucc(row, g.cols);
        MulSucc(row, g.tileH + RowGap);
        col := 0;
        rowTop := rowTop - (g.tileH + RowGap) as real;
        row := row + 1;
      }
      var x := g.startX + (col * (g.tileW + ColGap)) as real;
      SlotAt(r, n, g, cursor, k, row, col);
      if rowTop - g.tileH as real < margin {
        overflow := true;
        return;
      }
      assert sec[..k + 1] == placed + [sec[k]];
      placed := placed + [Slot(r, k, col, x, rowTop)];
      col := col + 1;
    }
    assert placed == sec;
    DivModUnique(n - 1, g.cols, row, col - 1);
    next := rowTop - g.tileH as real - 10.0;
  }

  /** The slots of every section start with those of the first `r` sections followed
      by section `r`'s own. */
  lemma SectionPrefix(buckets: seq<Option<string>>, ranks: seq<string>, r: nat, g: Geometry, yStart: real)
    requires r < |ranks| && g.cols >= 1
    ensures var all := AllSlots(buckets, ranks, |ranks|, g, yStart);
      var pre := AllSlots(buckets, ranks, r, g, yStart)
        + SectionSlots(r, RankCount(buckets, ranks[r]), g, CursorBefore(buckets, ranks, r, g, yStart));
      |pre| <= |all| && all[..|pre|] == pre
  {
    AllSlotsPrefix(buckets, ranks, r + 1, |ranks|, g, yStart);
  }

  lemma AllFitPrefix(g: Geometry, margin: real, s: seq<Slot>, k: nat)
    requires k <= |s| && AllFit(g, margin, s[..k])
    ensures forall j :: 0 <= j < k ==> !Misfit(g, margin)(s[j])
  {
    forall j | 0 <= j < k
      ensures !Misfit(g, margin)(s[j])
    {
      assert s[..k][j] == s[j];
    }
  }

  /** Cutting the slot list inside section `r`, at its first misfit `k`, leaves the
      earlier sections and the first `k` tiles of this one. */
  lemma CutInSection(buckets: seq<Option<string>>, ranks: seq<string>, r: nat, g: Geometry, yStart: real, margin: real, k: nat)
    requires r < |ranks| && g.cols >= 1
    requires AllFit(g, margin, AllSlots(buckets, ranks, r, g, yStart))
    requires var sec := SectionSlots(r, RankCount(buckets, ranks[r]), g, CursorBefore(buckets, ranks, r, g, yStart));
      k < |sec| && Misfit(g, margin)(sec[k]) && AllFit(g, margin, sec[..k])
    ensures var all := AllSlots(buckets, ranks, |ranks|, g, yStart);
      var cut := AllSlots(buckets, ranks, r, g, yStart)
        + SectionSlots(r, RankCount(buckets, ranks[r]), g, CursorBefore(buckets, ranks, r, g, yStart))[..k];
      TakeUntil(all, Misfit(g, margin)) == cut && |cut| < |all|
  {
    var all := AllSlots(buckets, ranks, |ranks|, g, yStart);
    var before := AllSlots(buckets, ranks, r, g, yStart);
    var sec := SectionSlots(r, RankCount(buckets, ranks[r]), g, CursorBefore(buckets, ranks, r, g, yStart));
    SectionPrefix(buckets, ranks, r, g, yStart);
    AllFitPrefix(g, margin, sec, k);
    TakeUntilInside(all, before, sec, k, Misfit(g, margin));
  }

  /** Placing section `r` in full extends the slots of the first `r` sections by its
      own and moves the cursor down by what it consumes. */
  lemma SectionStep(buckets: seq<Option<string>>, ranks: seq<string>, r: nat, g: Geometry, yStart: real, margin: real, placed: seq<Slot>)
    requires r < |ranks| && g.cols >= 1
    requires AllFit(g, margin, AllSlots(buckets, ranks, r, g, yStart))
    requires placed == SectionSlots(r, RankCount(buckets, ranks[r]), g, CursorBefore(buckets, ranks, r, g, yStart))
    requires AllFit(g, margin, placed)
    ensures AllSlots(buckets, ranks, r + 1, g, yStart) == AllSlots(buckets, ranks, r, g, yStart) + placed
    ensures AllFit(g, margin, AllSlots(buckets, ranks, r + 1, g, yStart))
    ensures CursorBefore(buckets, ranks, r + 1, g, yStart)
      == CursorBefore(buckets, ranks, r, g, yStart) - Consumed(ranks[r], RankCount(buckets, ranks[r]), g) as real
  {
    AllFitAppend(AllSlots(buckets, ranks, r, g, yStart), placed, g, margin);
  }

  /** The cursor after a fully placed section, 10 points lower below the split rank, is
      the cursor before it less what the section consumes. */
  lemma CursorStep(rank: string, n: nat, g: Geometry, cursor: real, next: real)
    requires g.cols >= 1 && n > 0
    requires next == cursor - ((TitleH + 3) + ((n - 1) / g.cols) * (g.tileH + RowGap) + g.tileH + 10) as real
    ensures (if rank == SplitRank then next - 10.0 else next) == cursor - Consumed(rank, n, g) as real
  {
  }

  /** One pass of the placement loop: section `r` is skipped when empty, otherwise
      placed, and the cursor then drops 10 more points below the split rank. Either the
      whole section fits and the cursor moves to the next section, or the slots drawn
      so far are exactly those up to the first misfit of the page. */
  method PlaceRank(buckets: seq<Option<string>>, ranks: seq<string>, r: nat, g: Geometry, yStart: real, margin: real,
                   cursor: real)
    returns (overflow: bool, placed: seq<Slot>, next: real)
    requires r < |ranks| && g.cols >= 1
    requires cursor == CursorBefore(buckets, ranks, r, g, yStart)
    requires AllFit(g, margin, AllSlots(buckets, ranks, r, g, yStart))
    ensures !overflow ==> next == CursorBefore(buckets, ranks, r + 1, g, yStart)
    ensures !overflow ==> AllSlots(buckets, ranks, r + 1, g, yStart) == AllSlots(buckets, ranks, r, g, yStart) + placed
    ensures !overflow ==> AllFit(g, margin, AllSlots(buckets, ranks, r + 1, g, yStart))
    ensures overflow ==> var all := AllSlots(buckets, ranks, |ranks|, g, yStart);
      var cut := AllSlots(buckets, ranks, r, g, yStart) + placed;
      TakeUntil(all, Misfit(g, margin)) == cut && |cut| < |all|
  {
    var rank := ranks[r];
    var n := RankCount(buckets, rank);
    if n == 0 {
      SectionStep(buckets, ranks, r, g, yStart, margin, []);
      return false, [], cursor;
    }
    overflow, placed, next := PlaceSection(r, n, g, cursor, margin);
    if overflow {
      ghost var sec := SectionSlots(r, n, g, cursor);
      ghost var k :| 0 <= k < n && placed == sec[..k] && Misfit(g, margin)(sec[k]) && AllFit(g, margin, sec[..k]);
      CutInSection(buckets, ranks, r, g, yStart, margin, k);
      return;
    }
    SectionStep(buckets, ranks, r, g, yStart, margin, placed);
    CursorStep(rank, n, g, cursor, next);
    if rank == SplitRank {
      next := next - 10.0;
    }
  }

  /** The placement loop over the rank sections `ranks`, in order, each placed until a
      tile would end below the margin. The tiles drawn are the slots up to the first
      misfit, and overflow is raised exactly when some slot was not drawn. */
  method PlaceRanks(buckets: seq<Option<string>>, ranks: seq<string>, g: Geometry, yStart: real, margin: real)
    returns (overflow: bool, slots: seq<Slot>)
    requires g.cols >= 1
    ensures slots == TakeUntil(AllSlots(buckets, ranks, |ranks|, g, yStart), Misfit(g, margin))
    ensures overflow <==> |slots| < |AllSlots(buckets, ranks, |ranks|, g, yStart)|
  {
    var yCursor := yStart;
    overflow := false;
    slots := [];
    for r := 0 to |ranks|
      invariant !overflow
      invariant yCursor == CursorBefore(buckets, ranks, r, g, yStart)
      invariant slots == AllSlots(buckets, ranks, r, g, yStart)
      invariant AllFit(g, margin, slots)
    {
      var placed, next;
      overflow, placed, next := PlaceRank(buckets, ranks, r, g, yStart, margin, yCursor);
      slots := slots + placed;
      if overflow {
        break;
      }
      yCursor := next;
    }
    if !overflow {
      TakeUntilNoStop(slots, Misfit(g, margin));
    }
  }

  /** The placement of the page: the rank sections of `Ranks` at the geometry of the
      chosen size. A size whose required height fits the space below the header never
      overflows: every tile is drawn. */
  method PlaceTiles(buckets: seq<Option<string>>, size: int, availableW: real, yStart: real, margin: real)
    returns (overflow: bool, slots: seq<Slot>)
    requires size > 0
    ensures var g := GeometryOf(availableW, margin, size);
      slots == TakeUntil(AllSlots(buckets, Ranks, |Ranks|, g, yStart), Misfit(g, margin))
    ensures var g := GeometryOf(availableW, margin, size);
      overflow <==> |slots| < |AllSlots(buckets, Ranks, |Ranks|, g, yStart)|
    ensures FitsAt(buckets, availableW, yStart - margin, size) ==>
      !overflow && slots == AllSlots(buckets, Ranks, |Ranks|, GeometryOf(availableW, margin, size), yStart)
  {
    var g := GeometryOf(availableW, margin, size);
    overflow, slots := PlaceRanks(buckets, Ranks, g, yStart, margin);
    if FitsAt(buckets, availableW, yStart - margin, size) {
      AcceptedSizeFits(buckets, availableW, yStart, margin, size);
    }
  }

  lemma MulMono(a: int, b: int, m: int)
    requires a <= b && m >= 0
    ensures a * m <= b * m
  {
    assert b * m - a * m == (b - a) * m;
  }

  lemma Distribute(rows: int, h: int, gap: int)
    ensures rows * h + (rows - 1) * gap == (rows - 1) * (h + gap) + h
  {
    assert rows * h == (rows - 1) * h + h;
    assert (rows - 1) * (h + gap) == (rows - 1) * h + (rows - 1) * gap;
  }

  /** A section of n tiles consumes its block of `required_height` less the section gap. */
  lemma BlockIsConsumed(rank: string, n: nat, size: int, g: Geometry)
    requires g.cols >= 1 && g.tileH == TileH(size) && n > 0
    ensures BlockHeight(rank, n, size, g.cols) == Consumed(rank, n, g) + SectionGap
  {
    RowsIsCeiling(n, g.cols);
    Distribute(RowsOf(n, g.cols), g.tileH, RowGap);
  }

  /** Every tile of a section ends at or above the cursor less what the section consumes. */
  lemma SectionBottom(r: nat, n: nat, g: Geometry, cursor: real, rank: string, k: nat)
    requires g.cols >= 1 && g.tileH >= 0 && k < n
    ensures SectionSlots(r, n, g, cursor)[k].top - g.tileH as real >= cursor - Consumed(rank, n, g) as real
  {
    DivMono(k, n - 1, g.cols);
    MulMono(k / g.cols, (n - 1) / g.cols, g.tileH + RowGap);
  }

  /** When the cursor minus what a section consumes is still above the margin, every
      tile of the section fits. */
  lemma SectionFits(r: nat, n: nat, g: Geometry, cursor: real, rank: string, margin: real)
    requires g.cols >= 1 && g.tileH >= 0
    requires cursor - Consumed(rank, n, g) as real >= margin
    ensures AllFit(g, margin, SectionSlots(r, n, g, cursor))
  {
    var sec := SectionSlots(r, n, g, cursor);
    forall j | 0 <= j < |sec|
      ensures !Misfit(g, margin)(sec[j])
    {
      SectionBottom(r, n, g, cursor, rank, j);
    }
  }

  lemma AllFitAppend(a: seq<Slot>, b: seq<Slot>, g: Geometry, margin: real)
    requires AllFit(g, margin, a) && AllFit(g, margin, b)
    ensures AllFit(g, margin, a + b)
  {
    forall j | 0 <= j < |a + b|
      ensures !Misfit(g, margin)((a + b)[j])
    {
      if j >= |a| {
        assert (a + b)[j] == b[j - |a|];
      } else {
        assert (a + b)[j] == a[j];
      }
    }
  }

  /** The first `i` sections: the cursor is never lower than the start less their
      blocks, so when those blocks fit above the margin all their tiles do. */
  lemma {:induction false} PrefixFits(buckets: seq<Option<string>>, ranks: seq<string>, g: Geometry, yStart: real, margin: real, size: int, i: nat)
    requires size > 0 && i <= |ranks| && g.cols >= 1 && g.tileH == TileH(size)
    requires SumBlocks(buckets, ranks[..i], size, g.cols) as real <= yStart - margin
    ensures CursorBefore(buckets, ranks, i, g, yStart) >= yStart - SumBlocks(buckets, ranks[..i], size, g.cols) as real
    ensures AllFit(g, margin, AllSlots(buckets, ranks, i, g, yStart))
  {
    if i > 0 {
      var rank := ranks[i - 1];
      var n := RankCount(buckets, rank);
      assert ranks[..i][..i - 1] == ranks[..i - 1];
      var sumBefore := SumBlocks(buckets, ranks[..i - 1], size, g.cols);
      var block := BlockHeight(rank, n, size, g.cols);
      assert SumBlocks(buckets, ranks[..i], size, g.cols) == sumBefore + block;
      BlockBounds(rank, n, size, g.cols);
      PrefixFits(buckets, ranks, g, yStart, margin, size, i - 1);
      var cursor := CursorBefore(buckets, ranks, i - 1, g, yStart);
      if n > 0 {
        BlockIsConsumed(rank, n, size, g);
      }
      SectionFits(i - 1, n, g, cursor, rank, margin);
      AllFitAppend(AllSlots(buckets, ranks, i - 1, g, yStart), SectionSlots(i - 1, n, g, cursor), g, margin);
    }
  }

  /** A size accepted by the search never overflows: when `required_height` fits
      between the top of the tile area and the bottom margin, every slot is drawn. */
  lemma AcceptedSizeFits(buckets: seq<Option<string>>, availableW: real, yStart: real, margin: real, size: int)
    requires size > 0
    requires FitsAt(buckets, availableW, yStart - margin, size)
    ensures var g := GeometryOf(availableW, margin, size);
      var all := AllSlots(buckets, Ranks, |Ranks|, g, yStart);
      TakeUntil(all, Misfit(g, margin)) == all
  {
    var g := GeometryOf(availableW, margin, size);
    assert Ranks[..|Ranks|] == Ranks;
    PrefixFits(buckets, Ranks, g, yStart, margin, size, |Ranks|);
    TakeUntilNoStop(AllSlots(buckets, Ranks, |Ranks|, g, yStart), Misfit(g, margin));
  }
}
