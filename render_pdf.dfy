/** The decisions behind one tile of the PDF photo wall: the border colour bucket of
    a utilisation, which statuses get a border or an overlay label, what caption a
    tile carries at a given photo size, and the header lines. Drawing, fonts and
    image processing are not modelled; the sizing engine is in module Layout. */
module RenderPdf {
  import opened Cells
  import opened Strings
  import opened Status
  import opened Frames
  import opened Sorting
  import Layout
  import RenderExcel

  /** A ReportLab colour with components in [0, 1]. */
  datatype Rgb = Rgb(r: real, g: real, b: real)

  const Green: Rgb := Rgb(0.0, 176.0 / 255.0, 80.0 / 255.0)
  const Yellow: Rgb := Rgb(1.0, 192.0 / 255.0, 0.0)
  const Red: Rgb := Rgb(1.0, 0.0, 0.0)
  const Grey: Rgb := Rgb(0.6, 0.6, 0.6)

  /** `_util_color`: green below 25 %, yellow up to and including 75 %, red above, and
      grey for a value `float()` rejects. NaN converts but fails every comparison, so it
      is red. */
  function UtilColor(u: UtilCell): (c: Rgb)
    ensures c == Grey <==> u.UOther?
    ensures c == Green || c == Yellow || c == Red || c == Grey
  {
    match u
    case UOther => Grey
    case UNaN => Red
    case UNum(x) =>
      if x < 0.25 then Green
      else if x <= 0.75 then Yellow
      else Red
  }

  /** The three numeric buckets, each in both directions. */
  lemma UtilColorBuckets(x: real)
    ensures UtilColor(UNum(x)) == Green <==> x < 0.25
    ensures UtilColor(UNum(x)) == Yellow <==> 0.25 <= x <= 0.75
    ensures UtilColor(UNum(x)) == Red <==> x > 0.75
  {
  }

  /** How alarming a colour is: green, yellow, red. */
  function Heat(c: Rgb): nat
  {
    if c == Green then 0 else if c == Yellow then 1 else 2
  }

  /** A higher utilisation never gets a calmer colour. */
  lemma UtilColorMonotone(x: real, y: real)
    requires x <= y
    ensures Heat(UtilColor(UNum(x))) <= Heat(UtilColor(UNum(y)))
  {
  }

  /** The coloured frame around a photo. */
  datatype Border = Border(colour: Rgb, width: int)

  /** A border is drawn for Normal and Unmapped tiles only, 4 points wide from a
      photo size of 70 and 3 below. */
  function TileBorder(status: string, util: UtilCell, size: int): (b: Option<Border>)
    ensures b.Some? <==> status == Label(Normal) || status == Label(Unmapped)
    ensures b.Some? ==> b.value.colour == UtilColor(util)
    ensures b.Some? ==> (b.value.width == 4 <==> size >= 70) && (b.value.width == 3 <==> size < 70)
  {
    if status == "Normal" || status == "Unmapped" then
      Some(Border(UtilColor(util), if size >= 70 then 4 else 3))
    else None
  }

  /** The label printed across the photo; a Normal tile has none. */
  function PdfOverlay(status: string): (o: Option<string>)
    ensures o.Some? <==> status in {Label(MissingTimesheet), Label(Vacation), Label(OnLeave), Label(Unmapped)}
  {
    if status == "Missing timesheet" then Some("MISSING TIMESHEET")
    else if status == "Vacation" then Some("VACATION")
    else if status == "On leave" then Some("ON LEAVE")
    else if status == "Unmapped" then Some("UNMAPPED")
    else None
  }

  /** Every status label other than Normal is overlaid with its own text in capitals. */
  lemma PdfOverlayIsUpper(s: Status)
    requires s != Normal
    ensures PdfOverlay(Label(s)) == Some(Upper(Label(s)))
  {
    match s
    case OnLeave =>
      assert Upper("On leave") == "ON LEAVE";
    case Vacation =>
      assert Upper("Vacation") == "VACATION";
    case MissingTimesheet =>
      assert Upper("Missing timesheet") == "MISSING TIMESHEET";
    case Unmapped =>
      assert Upper("Unmapped") == "UNMAPPED";
  }

  /** A tile carries a border or an overlay, and both only when it is Unmapped. */
  lemma BorderOrOverlay(status: string, util: UtilCell, size: int)
    requires status in {Label(OnLeave), Label(Vacation), Label(MissingTimesheet), Label(Unmapped), Label(Normal)}
    ensures TileBorder(status, util, size).Some? || PdfOverlay(status).Some?
    ensures TileBorder(status, util, size).Some? && PdfOverlay(status).Some? <==> status == Label(Unmapped)
  {
  }

  /** The initials drawn on a photo when names are hidden: the first two characters of
      a single word, or the first characters of the first and last words, upper-cased;
      nothing for a blank name. */
  function Initials(name: string): (r: Option<string>)
    ensures r.Some? <==> |Words(name)| > 0
    ensures r.Some? ==> 1 <= |r.value| <= 2
  {
    var parts := Words(name);
    WordsAreWords(name);
    if |parts| == 0 then None
    else if |parts| == 1 then Some(Upper(parts[0][..RenderExcel.Min(2, |parts[0]|)]))
    else Some(Upper([parts[0][0], parts[|parts| - 1][0]]))
  }

  /** One word: its first two characters (or its only one). */
  lemma InitialsOfWord(w: string)
    requires IsWord(w)
    ensures Initials(w) == Some(Upper(if |w| >= 2 then w[..2] else w))
  {
    WordsOfJoin([w]);
  }

  /** Several words joined by spaces: the first letters of the first and last words. */
  lemma InitialsOfWords(ws: seq<string>)
    requires |ws| >= 2
    requires forall k :: 0 <= k < |ws| ==> IsWord(ws[k])
    ensures IsWord(ws[0]) && IsWord(ws[|ws| - 1])
      && Initials(Join(ws)) == Some(Upper([ws[0][0], ws[|ws| - 1][0]]))
  {
    WordsOfJoin(ws);
    InitialsOfSplit(Join(ws), ws);
  }

  lemma InitialsOfSplit(name: string, ps: seq<string>)
    requires Words(name) == ps && |ps| >= 2
    ensures IsWord(ps[0]) && IsWord(ps[|ps| - 1]) && Initials(name) == Some(Upper([ps[0][0], ps[|ps| - 1][0]]))
  {
    WordsAreWords(name);
  }

  /** A name made only of whitespace gets no initials. */
  lemma InitialsOfBlank(name: string)
    requires forall k :: 0 <= k < |name| ==> IsSpace(name[k])
    ensures Initials(name) == None
  {
    WordsOfBlank(name);
  }

  /** What is written under or on the photo. */
  datatype Caption = Name(text: string) | InitialsMark(text: string) | NoCaption

  /** The decisions `draw_tile` takes for one tile. */
  datatype TileDecor = TileDecor(
    brightened: bool,
    border: Option<Border>,
    overlay: Option<string>,
    caption: Caption,
    utilLine: bool)

  /** The fields of a detail row a tile is built from: the `str()` of its GPN and
      display name, its rank bucket, the status inputs and the utilisation. */
  datatype TileRow = TileRow(gpn: string, displayName: Option<string>, rankBucket: Option<string>, flags: StatusRow, util: UtilCell)

  /** The trimmed `str()` of the display name a tile shows. */
  function TileName(row: TileRow): (name: string)
    ensures Trimmed(name)
  {
    Strip(CellText(row.displayName))
  }

  /** The caption of a tile: the trimmed name above 42 points; at 42 and below the
      initials of the name, or nothing for a blank name. */
  function TileCaption(name: string, size: int): (c: Caption)
    ensures Layout.ShowNames(size) ==> c == Name(name)
    ensures !Layout.ShowNames(size) ==> !c.Name?
    ensures !Layout.ShowNames(size) ==> (c.InitialsMark? <==> |Words(name)| > 0)
    ensures c.InitialsMark? ==> Initials(name) == Some(c.text)
  {
    if Layout.ShowNames(size) then Name(name)
    else if size <= 42 then
      match Initials(name)
      case Some(ini) => InitialsMark(ini)
      case None => NoCaption
    else NoCaption
  }

  /** The decisions of `draw_tile` once the status text is known: brightening, border,
      overlay and utilisation line follow the status, the caption the size. */
  function Decorate(status: string, util: UtilCell, name: string, size: int): (d: TileDecor)
    ensures d.brightened <==> status == Label(OnLeave)
    ensures d.border.Some? <==> status == Label(Normal) || status == Label(Unmapped)
    ensures d.overlay.Some? <==> status in {Label(MissingTimesheet), Label(Vacation), Label(OnLeave), Label(Unmapped)}
    ensures d.utilLine <==> status == Label(Normal) && Layout.ShowUtil(size)
    ensures d.caption == TileCaption(name, size)
  {
    TileDecor(status == "On leave", TileBorder(status, util, size), PdfOverlay(status),
      TileCaption(name, size), Layout.ShowUtil(size) && status == "Normal")
  }

  /** `draw_tile`, without the drawing. */
  function DrawTile(row: TileRow, size: int): (d: TileDecor)
    ensures d.brightened <==> StatusFromRow(row.flags) == Label(OnLeave)
    ensures d.border.Some? ==> d.border.value.colour == UtilColor(row.util)
    ensures d.caption == TileCaption(TileName(row), size)
  {
    Decorate(StatusFromRow(row.flags), row.util, TileName(row), size)
  }

  /** For each of the five statuses: only an on-leave tile is brightened; Normal and
      Unmapped tiles are framed in the colour of their utilisation; every other status is
      overlaid with its label in capitals; only a Normal tile shows its utilisation, and
      only from 70 points up. */
  lemma DecorateStatus(s: Status, util: UtilCell, name: string, size: int)
    ensures var t := Decorate(Label(s), util, name, size);
      && (t.brightened <==> s == OnLeave)
      && t.border == (if s == Normal || s == Unmapped then Some(Border(UtilColor(util), if size >= 70 then 4 else 3)) else None)
      && t.overlay == (if s == Normal then None else Some(Upper(Label(s))))
      && (t.utilLine <==> s == Normal && size >= 70)
      && t.caption == TileCaption(name, size)
  {
    if s != Normal {
      PdfOverlayIsUpper(s);
    }
  }

  /** A tile drawn for a row whose status reads as `s` carries the decorations of `s`. */
  lemma DrawTileStatus(row: TileRow, size: int, s: Status)
    requires StatusFromRow(row.flags) == Label(s)
    ensures var t := DrawTile(row, size);
      && (t.brightened <==> s == OnLeave)
      && t.border == (if s == Normal || s == Unmapped then Some(Border(UtilColor(row.util), if size >= 70 then 4 else 3)) else None)
      && t.overlay == (if s == Normal then None else Some(Upper(Label(s))))
      && (t.utilLine <==> s == Normal && size >= 70)
      && t.caption == TileCaption(TileName(row), size)
  {
    DecorateStatus(s, row.util, TileName(row), size);
  }

  /** A tile is built from a row of the spreadsheet's detail frame: the status column is
      always set there, so it decides the tile on its own. */
  function TileRowOf(d: RenderExcel.DetailRow): (t: TileRow)
    ensures StatusFromRow(t.flags) == Label(d.status)
    ensures t.gpn == d.gpn && t.displayName == d.displayName && t.rankBucket == d.rankBucket
    ensures d.util.Some? <==> t.util.UNum?
    ensures d.util.Some? ==> t.util.x == d.util.value
  {
    var flags := StatusRow(Some(Label(d.status)), None, None, UOther, None, None);
    StatusFromLabelledRow(flags, d.status);
    TileRow(d.gpn, d.displayName, d.rankBucket, flags, UtilCellOf(d.util))
  }

  /** The picture of a tile: the employee's own photo, or the placeholder. */
  datatype Photo = StaffPhoto(gpn: string) | Placeholder

  /** `draw_tile`'s photo: `<gpn>.jpg` in the photo folder when that file exists, the
      placeholder otherwise; `stored` holds the names (without `.jpg`) of the files in
      the folder. */
  function PdfPhoto(gpn: string, stored: set<string>): (p: Photo)
    ensures p.StaffPhoto? <==> Strip(gpn) in stored
    ensures p.StaffPhoto? ==> p.gpn == Strip(gpn)
  {
    if Strip(gpn) in stored then StaffPhoto(Strip(gpn)) else Placeholder
  }

  // ---------------------------------------------------------------------------
  // The rows behind the placed tiles
  // ---------------------------------------------------------------------------

  /** `detail_df["rank_bucket"] == rank`, as a row condition; a NaN bucket equals no rank. */
  function InBucket(rank: string): TileRow -> bool
  {
    (row: TileRow) => row.rankBucket == Some(rank)
  }

  /** The rows of one rank section, in table order. */
  function Section(rows: seq<TileRow>, rank: string): (sec: seq<TileRow>)
    ensures |sec| == Count(rows, InBucket(rank))
    ensures forall k :: 0 <= k < |sec| ==> sec[k] in rows && sec[k].rankBucket == Some(rank)
  {
    Filter(rows, InBucket(rank))
  }

  /** The sort key of `sort_values("display_name")`. */
  function NameKey(row: TileRow): Option<string>
  {
    row.displayName
  }

  /** The `rank_bucket` column the sizing engine counts. */
  function Buckets(rows: seq<TileRow>): (bs: seq<Option<string>>)
    ensures |bs| == |rows|
    ensures forall k :: 0 <= k < |rows| ==> bs[k] == rows[k].rankBucket
  {
    seq(|rows|, k requires 0 <= k < |rows| => rows[k].rankBucket)
  }

  /** The sizing engine counts exactly the rows of a section. */
  lemma {:induction false} SectionCounted(rows: seq<TileRow>, rank: string)
    ensures |Section(rows, rank)| == Layout.RankCount(Buckets(rows), rank)
  {
    if |rows| > 0 {
      SectionCounted(rows[1..], rank);
      assert Buckets(rows)[1..] == Buckets(rows[1..]);
    }
  }

  /** The rows of a section in the order their tiles are drawn: sorted by display name,
      NaN names last. */
  function WallSection(rows: seq<TileRow>, rank: string): (sec: seq<TileRow>)
    ensures |sec| == Layout.RankCount(Buckets(rows), rank)
    ensures multiset(sec) == multiset(Section(rows, rank))
    ensures SortedBy(sec, NameKey)
    ensures forall k :: 0 <= k < |sec| ==> sec[k] in rows && sec[k].rankBucket == Some(rank)
  {
    var sec := SortBy(Section(rows, rank), NameKey);
    SectionCounted(rows, rank);
    assert forall k :: 0 <= k < |sec| ==> sec[k] in multiset(Section(rows, rank));
    sec
  }

  /** The row whose tile the placement puts in slot `s`. */
  function TileAt(rows: seq<TileRow>, s: Layout.Slot): (row: TileRow)
    requires s.rank < |Layout.Ranks| && s.index < Layout.RankCount(Buckets(rows), Layout.Ranks[s.rank])
    ensures row in rows && row.rankBucket == Some(Layout.Ranks[s.rank])
  {
    WallSection(rows, Layout.Ranks[s.rank])[s.index]
  }

  /** Every slot the placement can produce has a row behind it: a tile of one of the rank
      sections, inside that section. */
  lemma PlacedSlotsHaveRows(rows: seq<TileRow>, g: Layout.Geometry, yStart: real, margin: real)
    requires g.cols >= 1
    ensures var slots := TakeUntil(Layout.AllSlots(Buckets(rows), Layout.Ranks, |Layout.Ranks|, g, yStart), Layout.Misfit(g, margin));
      forall j :: 0 <= j < |slots| ==>
        slots[j].rank < |Layout.Ranks| && slots[j].index < Layout.RankCount(Buckets(rows), Layout.Ranks[slots[j].rank])
  {
    var all := Layout.AllSlots(Buckets(rows), Layout.Ranks, |Layout.Ranks|, g, yStart);
    Layout.SlotsInRange(Buckets(rows), Layout.Ranks, |Layout.Ranks|, g, yStart);
    assert Layout.SlotsWithin(Buckets(rows), Layout.Ranks, |Layout.Ranks|, all);
  }

  /** The header (`short_key - export_format`) and period (`start_date - end_date`)
      lines of the page. */
  function HeaderLine(shortKey: string, exportFormat: string): (h: string)
    ensures shortKey == "" && exportFormat == "" ==> h == ""
    ensures Plain(shortKey) && Plain(exportFormat) ==> h == shortKey + " - " + exportFormat
    ensures Plain(shortKey) && exportFormat == "" ==> h == shortKey
    ensures shortKey == "" && Plain(exportFormat) ==> h == exportFormat
  {
    DashJoinCases(shortKey, exportFormat);
    DashJoin(shortKey, exportFormat)
  }
}
