/** src/render_html.py: the decisions behind the HTML photo wall of one BU/SSL. These
    are the overlay and border tables of a tile, the date range and utilisation of the
    header, the photo fallback, and the rank groups with their employees, split over
    the two rows of the page. The template text, the CSS and the image encoding are not
    modelled. */
module RenderHtml {
  import opened Cells
  import opened Strings
  import opened Frames
  import opened Status
  import opened Sorting
  import RenderPdf
  import RenderExcel
  import Layout

  // ---------------------------------------------------------------------------
  // One tile
  // ---------------------------------------------------------------------------

  /** `_overlay_label`: only three statuses are written across the photo. */
  function OverlayLabel(status: string): (l: string)
    ensures l != "" <==> status in {Label(MissingTimesheet), Label(Vacation), Label(OnLeave)}
  {
    if status == "Missing timesheet" then "MISSING TIMESHEET"
    else if status == "Vacation" then "VACATION"
    else if status == "On leave" then "LEAVE"
    else ""
  }

  /** Against the PDF overlays: the same text for a missing timesheet and a vacation,
      "LEAVE" where the PDF writes "ON LEAVE", and nothing for Unmapped, which the PDF
      labels. */
  lemma OverlayAgainstPdf(s: Status)
    ensures s == MissingTimesheet || s == Vacation ==> RenderPdf.PdfOverlay(Label(s)) == Some(OverlayLabel(Label(s)))
    ensures s == OnLeave ==> OverlayLabel(Label(s)) == "LEAVE" && RenderPdf.PdfOverlay(Label(s)) == Some("ON LEAVE")
    ensures s == Unmapped ==> OverlayLabel(Label(s)) == "" && RenderPdf.PdfOverlay(Label(s)) == Some("UNMAPPED")
    ensures s == Normal ==> OverlayLabel(Label(s)) == "" && RenderPdf.PdfOverlay(Label(s)) == None
  {
  }

  const BorderNone: string := "border-none"
  const BorderGreen: string := "border-green"
  const BorderYellow: string := "border-yellow"
  const BorderRed: string := "border-red"

  /** `_border_class`: only a Normal tile is framed, by its utilisation: green below
      25 %, yellow below 75 %, red from 75 % up. NaN converts but fails both
      comparisons, so it is red; a value `float()` rejects gets no frame. */
  function BorderClass(status: string, util: UtilCell): (c: string)
    ensures c in {BorderNone, BorderGreen, BorderYellow, BorderRed}
    ensures c == BorderNone <==> status != Label(Normal) || util.UOther?
  {
    if status != "Normal" then BorderNone
    else
      match util
      case UOther => BorderNone
      case UNaN => BorderRed
      case UNum(x) =>
        if x < 0.25 then BorderGreen
        else if x < 0.75 then BorderYellow
        else BorderRed
  }

  /** The three buckets of a Normal tile, each in both directions. */
  lemma BorderClassBuckets(x: real)
    ensures BorderClass(Label(Normal), UNum(x)) == BorderGreen <==> x < 0.25
    ensures BorderClass(Label(Normal), UNum(x)) == BorderYellow <==> 0.25 <= x < 0.75
    ensures BorderClass(Label(Normal), UNum(x)) == BorderRed <==> x >= 0.75
  {
  }

  /** The class the template would need to show a PDF border colour. */
  function ClassOfColour(c: RenderPdf.Rgb): string
  {
    if c == RenderPdf.Green then BorderGreen
    else if c == RenderPdf.Yellow then BorderYellow
    else if c == RenderPdf.Red then BorderRed
    else BorderNone
  }

  /** Against the PDF colours of a Normal tile: the same bucket for every utilisation but
      exactly 75 %, which is red here and yellow in the PDF. */
  lemma BorderAgainstPdf(u: UtilCell)
    ensures u != UNum(0.75) ==> BorderClass(Label(Normal), u) == ClassOfColour(RenderPdf.UtilColor(u))
    ensures BorderClass(Label(Normal), UNum(0.75)) == BorderRed && RenderPdf.UtilColor(UNum(0.75)) == RenderPdf.Yellow
  {
  }

  /** An Unmapped tile is framed in the PDF but not here. */
  lemma UnmappedAgainstPdf(u: UtilCell, size: int)
    ensures RenderPdf.TileBorder(Label(Unmapped), u, size).Some? && BorderClass(Label(Unmapped), u) == BorderNone
  {
  }

  /** `write_ssl_html`'s photo: none for an empty GPN, otherwise `<gpn>.jpg` when that
      file exists; the placeholder in every other case. `stored` holds the names
      (without `.jpg`) of the files in the photo folder. */
  function PhotoFor(gpn: string, stored: set<string>): (p: RenderPdf.Photo)
    ensures p.StaffPhoto? <==> Strip(gpn) != "" && Strip(gpn) in stored
    ensures p.StaffPhoto? ==> p.gpn == Strip(gpn)
  {
    var g := Strip(gpn);
    if g != "" && g in stored then RenderPdf.StaffPhoto(g) else RenderPdf.Placeholder
  }

  /** Against the PDF: the same photo, except for an empty GPN when the folder holds a
      file named `.jpg`, which the PDF shows and the HTML replaces by the placeholder. */
  lemma PhotoAgainstPdf(gpn: string, stored: set<string>)
    ensures Strip(gpn) != "" || "" !in stored ==> PhotoFor(gpn, stored) == RenderPdf.PdfPhoto(gpn, stored)
    ensures Strip(gpn) == "" && "" in stored ==>
      PhotoFor(gpn, stored) == RenderPdf.Placeholder && RenderPdf.PdfPhoto(gpn, stored) == RenderPdf.StaffPhoto("")
  {
  }

  /** An employee entry as the template receives it. */
  datatype Employee = Employee(displayName: string, photo: RenderPdf.Photo, overlayLabel: string, borderClass: string)

  /** The entry of one detail row, with the status `_status_from_row` reads from it. */
  function EmployeeOf(row: RenderPdf.TileRow, stored: set<string>): (e: Employee)
    ensures e.displayName == RenderPdf.TileName(row)
    ensures e.photo.StaffPhoto? <==> Strip(row.gpn) != "" && Strip(row.gpn) in stored
    ensures e.overlayLabel != "" <==> StatusFromRow(row.flags) in {Label(MissingTimesheet), Label(Vacation), Label(OnLeave)}
    ensures e.borderClass == BorderNone <==> StatusFromRow(row.flags) != Label(Normal) || row.util.UOther?
  {
    var status := StatusFromRow(row.flags);
    Employee(RenderPdf.TileName(row), PhotoFor(row.gpn, stored), OverlayLabel(status), BorderClass(status, row.util))
  }

  /** `EmployeeOf` as the row-to-entry function the groups are built with. */
  function EntryOf(stored: set<string>): RenderPdf.TileRow -> Employee
  {
    (row: RenderPdf.TileRow) => EmployeeOf(row, stored)
  }

  /** The two tables on the five status labels. */
  lemma TablesOfStatus(s: Status, u: UtilCell)
    ensures OverlayLabel(Label(s)) != "" <==> s in {MissingTimesheet, Vacation, OnLeave}
    ensures BorderClass(Label(s), u) != BorderNone <==> s == Normal && !u.UOther?
  {
    match s
    case Normal =>
    case OnLeave =>
    case Vacation =>
    case MissingTimesheet =>
    case Unmapped =>
  }

  /** The entry of a row of the spreadsheet's detail table follows its status the way
      each table says: an overlay for a missing timesheet, a vacation or a leave, and a
      frame for a Normal member only, in the colour bucket of the utilisation (red for
      a member missing from the export, whose utilisation is NaN). */
  lemma EmployeeOfDetail(d: RenderExcel.DetailRow, stored: set<string>)
    ensures var e := EmployeeOf(RenderPdf.TileRowOf(d), stored);
      && (e.overlayLabel != "" <==> d.status in {MissingTimesheet, Vacation, OnLeave})
      && (e.borderClass != BorderNone <==> d.status == Normal)
      && (d.status == Normal && d.util.Some? ==> e.borderClass == BorderClass(Label(Normal), UNum(d.util.value)))
      && (d.status == Normal && d.util.None? ==> e.borderClass == BorderRed)
  {
    var t := RenderPdf.TileRowOf(d);
    TablesOfStatus(d.status, t.util);
  }

  /** Against the PDF tile of the same row: the same name as the PDF caption above 42
      points; a frame here only where the PDF frames too; an overlay in the PDF wherever
      there is one here. */
  lemma EmployeeAgainstTile(row: RenderPdf.TileRow, size: int, stored: set<string>)
    ensures var e, t := EmployeeOf(row, stored), RenderPdf.DrawTile(row, size);
      && (Layout.ShowNames(size) ==> t.caption == RenderPdf.Name(e.displayName))
      && (e.borderClass != BorderNone ==> t.border.Some?)
      && (e.overlayLabel != "" ==> t.overlay.Some?)
  {
  }

  /** One employee of the inner loop of `write_ssl_html`: the photo path is first the
      GPN's file or, for an empty GPN, the placeholder, and is replaced by the
      placeholder when that file does not exist. */
  method BuildEmployee(row: RenderPdf.TileRow, stored: set<string>) returns (e: Employee)
    ensures e == EmployeeOf(row, stored)
  {
    var gpn := Strip(row.gpn);
    var photo := if gpn != "" then RenderPdf.StaffPhoto(gpn) else RenderPdf.Placeholder;
    if photo.StaffPhoto? && photo.gpn !in stored {
      photo := RenderPdf.Placeholder;
    }
    var status := StatusFromRow(row.flags);
    e := Employee(RenderPdf.TileName(row), photo, OverlayLabel(status), BorderClass(status, row.util));
  }

  // ---------------------------------------------------------------------------
  // The header
  // ---------------------------------------------------------------------------

  /** The summary keys the page reads; a field is None when its key is absent. A date
      is the `str()` of its value. */
  datatype SummaryFields = SummaryFields(
    startDate: Option<string>,
    endDate: Option<string>,
    utilExclMissing: Option<UtilCell>,
    utilAll: Option<UtilCell>)

  /** `date_range`: both dates trimmed, joined by " - ", with spaces and dashes removed
      from both ends. */
  function DateRange(s: SummaryFields): (r: string)
    ensures r == [] || (r[0] != ' ' && r[0] != '-' && r[|r| - 1] != ' ' && r[|r| - 1] != '-')
    ensures var a, b := Strip(s.startDate.GetOr("")), Strip(s.endDate.GetOr(""));
      && (Plain(a) && Plain(b) ==> r == a + " - " + b)
      && (Plain(a) && b == "" ==> r == a)
      && (a == "" && Plain(b) ==> r == b)
  {
    var a, b := Strip(s.startDate.GetOr("")), Strip(s.endDate.GetOr(""));
    DashJoinCases(a, b);
    DashJoin(a, b)
  }

  /** Absent or blank dates give an empty range. */
  lemma DateRangeBlank(s: SummaryFields)
    requires Strip(s.startDate.GetOr("")) == "" && Strip(s.endDate.GetOr("")) == ""
    ensures DateRange(s) == ""
  {
    DashJoinEmpty();
  }

  /** Two dates such as "2025-01-06" and "2025-01-12" are joined as they are. */
  lemma DateRangeOfDates(s: SummaryFields, a: string, b: string)
    requires s.startDate == Some(a) && s.endDate == Some(b) && Trimmed(a) && Trimmed(b)
    requires |a| > 0 && a[0] != '-' && |b| > 0 && b[|b| - 1] != '-'
    ensures DateRange(s) == a + " - " + b
  {
    StripTrimmed(a);
    StripTrimmed(b);
    DashJoinPlain(a, b);
  }

  /** A week with only its start date shows that date alone, with no dangling " - ". */
  lemma DateRangeStartOnly(s: SummaryFields, a: string)
    requires s.startDate == Some(a) && Trimmed(a) && Plain(a) && s.endDate.None?
    ensures DateRange(s) == a
  {
    StripTrimmed(a);
    StripTrimmed("");
  }

  /** `summary.get("util_excl_missing", summary.get("util_all"))`. */
  function UtilVal(s: SummaryFields): (v: Option<UtilCell>)
    ensures s.utilExclMissing.Some? ==> v == s.utilExclMissing
    ensures s.utilExclMissing.None? ==> v == s.utilAll
  {
    if s.utilExclMissing.Some? then s.utilExclMissing else s.utilAll
  }

  /** The figure excluding missing timesheets wins whenever its key is present, even
      when it holds NaN and the overall figure is a number. */
  lemma UtilValPrefersPresentKey(s: SummaryFields, x: real)
    requires s.utilExclMissing == Some(UNaN) && s.utilAll == Some(UNum(x))
    ensures UtilVal(s) == Some(UNaN)
  {
  }

  // ---------------------------------------------------------------------------
  // Rank groups
  // ---------------------------------------------------------------------------

  /** `rank_order`: the sections of the page, in the order they are emitted. */
  const RankOrder: seq<string> := ["Manager", "Senior Manager", "Director", "Associate Partner", "Partner", "Senior Consultant", "Consultant"]

  /** `rank_classes`. */
  const RankClasses: map<string, string> := map[
    "Manager" := "manager",
    "Senior Manager" := "senior-manager",
    "Director" := "director",
    "Associate Partner" := "associate-partner",
    "Partner" := "partner",
    "Senior Consultant" := "senior-consultant",
    "Consultant" := "consultant"]

  /** `rank_classes.get(rank, "")`. */
  function RankClass(rank: string): string
  {
    if rank in RankClasses then RankClasses[rank] else ""
  }

  /** The classes the template places in the top row and in the bottom row. */
  const TopClasses: set<string> := {"manager", "senior-manager", "director", "associate-partner", "partner"}
  const BottomClasses: set<string> := {"senior-consultant", "consultant"}

  /** The HTML page has the same seven sections as the PDF page, in another order. */
  lemma SameRanksAsPdf()
    ensures forall r :: r in RankOrder <==> r in Layout.Ranks
    ensures RankOrder != Layout.Ranks
  {
    assert RankOrder[0] != Layout.Ranks[0];
  }

  /** Every rank of the page has a class of exactly one row: the first five ranks go on
      top, the two consultant ranks below. */
  lemma RankClassRow(i: nat)
    requires i < |RankOrder|
    ensures RankClass(RankOrder[i]) in TopClasses <==> i < 5
    ensures RankClass(RankOrder[i]) in BottomClasses <==> i >= 5
  {
  }

  lemma RankOrderDistinct()
    ensures Distinct(RankOrder)
  {
  }

  /** A group of the template: a rank, its class and its employees. */
  datatype Group = Group(rank: string, cssClass: string, employees: seq<Employee>)

  /** The entries of `rows`, in their order. */
  function Employees(rows: seq<RenderPdf.TileRow>, entry: RenderPdf.TileRow -> Employee): (es: seq<Employee>)
    ensures |es| == |rows|
    ensures forall k :: 0 <= k < |rows| ==> es[k] == entry(rows[k])
  {
    if |rows| == 0 then [] else [entry(rows[0])] + Employees(rows[1..], entry)
  }

  lemma EmployeesSnoc(rows: seq<RenderPdf.TileRow>, entry: RenderPdf.TileRow -> Employee, i: nat)
    requires i < |rows|
    ensures Employees(rows[..i + 1], entry) == Employees(rows[..i], entry) + [entry(rows[i])]
  {
    var l, r := Employees(rows[..i + 1], entry), Employees(rows[..i], entry) + [entry(rows[i])];
    assert |l| == |r|;
    forall k | 0 <= k < |l|
      ensures l[k] == r[k]
    {
      assert rows[..i + 1][k] == rows[k];
    }
  }

  /** The group of one rank: the section sorted by display name. */
  function GroupOf(rows: seq<RenderPdf.TileRow>, rank: string, entry: RenderPdf.TileRow -> Employee): (g: Group)
    ensures g.rank == rank && g.cssClass == RankClass(rank)
    ensures |g.employees| == Count(rows, RenderPdf.InBucket(rank))
  {
    Group(rank, RankClass(rank), Employees(SortBy(RenderPdf.Section(rows, rank), RenderPdf.NameKey), entry))
  }

  /** The employees of a group are those of the section's rows in display-name order:
      the i-th is built from a row of the section, and its name is not above the j-th's. */
  lemma GroupOfSorted(rows: seq<RenderPdf.TileRow>, rank: string, entry: RenderPdf.TileRow -> Employee, i: nat, j: nat)
    requires i < j < Count(rows, RenderPdf.InBucket(rank))
    ensures var sorted := SortBy(RenderPdf.Section(rows, rank), RenderPdf.NameKey);
      && sorted[i] in rows && sorted[i].rankBucket == Some(rank)
      && GroupOf(rows, rank, entry).employees[i] == entry(sorted[i])
      && KeyLe(sorted[i].displayName, sorted[j].displayName)
  {
    var sec := RenderPdf.Section(rows, rank);
    var sorted := SortBy(sec, RenderPdf.NameKey);
    assert sorted[i] in multiset(sec);
  }

  /** A rank gets a group when at least one row has it. */
  function Occupied(rows: seq<RenderPdf.TileRow>): string -> bool
  {
    (rank: string) => Count(rows, RenderPdf.InBucket(rank)) > 0
  }

  /** A rank of `init` is a rank of `init + [last]`. */
  lemma InInit(ranks: seq<string>, r: string)
    requires |ranks| > 0 && r in ranks[..|ranks| - 1]
    ensures r in ranks
  {
    var i :| 0 <= i < |ranks| - 1 && ranks[..|ranks| - 1][i] == r;
    assert ranks[i] == r;
  }

  /** The groups of `ranks`, in their order, skipping the empty ones. */
  function GroupsOf(rows: seq<RenderPdf.TileRow>, ranks: seq<string>, entry: RenderPdf.TileRow -> Employee): (gs: seq<Group>)
    ensures forall k :: 0 <= k < |gs| ==>
      gs[k].rank in ranks && |gs[k].employees| > 0 && gs[k] == GroupOf(rows, gs[k].rank, entry)
    decreases |ranks|
  {
    if |ranks| == 0 then []
    else
      var last := ranks[|ranks| - 1];
      var before := GroupsOf(rows, ranks[..|ranks| - 1], entry);
      forall k | 0 <= k < |before|
        ensures before[k].rank in ranks
      {
        InInit(ranks, before[k].rank);
      }
      if Count(rows, RenderPdf.InBucket(last)) == 0 then before
      else before + [GroupOf(rows, last, entry)]
  }

  /** The ranks of a list of groups. */
  function RanksOf(gs: seq<Group>): (rs: seq<string>)
    ensures |rs| == |gs|
    ensures forall k :: 0 <= k < |gs| ==> rs[k] == gs[k].rank
  {
    if |gs| == 0 then [] else [gs[0].rank] + RanksOf(gs[1..])
  }

  lemma RanksOfAppend(a: seq<Group>, b: seq<Group>)
    ensures RanksOf(a + b) == RanksOf(a) + RanksOf(b)
  {
    var l, r := RanksOf(a + b), RanksOf(a) + RanksOf(b);
    forall k | 0 <= k < |l|
      ensures l[k] == r[k]
    {
      ConcatIndex(a, b, k);
    }
  }

  /** The groups follow the order of `ranks` and skip exactly the ranks no row has. */
  lemma {:induction false} GroupRanks(rows: seq<RenderPdf.TileRow>, ranks: seq<string>, entry: RenderPdf.TileRow -> Employee)
    ensures RanksOf(GroupsOf(rows, ranks, entry)) == Filter(ranks, Occupied(rows))
    decreases |ranks|
  {
    if |ranks| > 0 {
      var init, last := ranks[..|ranks| - 1], ranks[|ranks| - 1];
      GroupRanks(rows, init, entry);
      Snoc(ranks);
      FilterAppend(init, [last], Occupied(rows));
      var before := GroupsOf(rows, init, entry);
      if Count(rows, RenderPdf.InBucket(last)) > 0 {
        RanksOfAppend(before, [GroupOf(rows, last, entry)]);
      }
    }
  }

  /** The number of entries over all groups. */
  function TotalEmployees(gs: seq<Group>): nat
  {
    if |gs| == 0 then 0 else TotalEmployees(gs[..|gs| - 1]) + |gs[|gs| - 1].employees|
  }

  /** A row in one of the sections of `ranks`. */
  function InSomeBucket(ranks: seq<string>): RenderPdf.TileRow -> bool
  {
    (row: RenderPdf.TileRow) => row.rankBucket.Some? && row.rankBucket.value in ranks
  }

  /** Each rank appears once in `ranks`. */
  predicate Distinct(ranks: seq<string>)
  {
    forall i, j :: 0 <= i < j < |ranks| ==> ranks[i] != ranks[j]
  }

  /** A row is in a section of `init + [last]` when it is in one of `init` or in that of
      `last`, and with distinct ranks never in both. */
  lemma BucketSplit(ranks: seq<string>, row: RenderPdf.TileRow)
    requires Distinct(ranks) && |ranks| > 0
    ensures InSomeBucket(ranks)(row) <==> InSomeBucket(ranks[..|ranks| - 1])(row) || RenderPdf.InBucket(ranks[|ranks| - 1])(row)
    ensures !(InSomeBucket(ranks[..|ranks| - 1])(row) && RenderPdf.InBucket(ranks[|ranks| - 1])(row))
  {
    var init, last := ranks[..|ranks| - 1], ranks[|ranks| - 1];
    Snoc(ranks);
    if row.rankBucket.Some? && row.rankBucket.value in init {
      var i :| 0 <= i < |init| && init[i] == row.rankBucket.value;
      assert ranks[i] != ranks[|ranks| - 1];
    }
  }

  /** With distinct ranks every row whose bucket is one of them is the entry of exactly
      one group: the groups hold as many entries as there are such rows. */
  lemma {:induction false} GroupsCoverRows(rows: seq<RenderPdf.TileRow>, ranks: seq<string>, entry: RenderPdf.TileRow -> Employee)
    requires Distinct(ranks)
    ensures TotalEmployees(GroupsOf(rows, ranks, entry)) == Count(rows, InSomeBucket(ranks))
    decreases |ranks|
  {
    if |ranks| == 0 {
      CountNone(rows, InSomeBucket(ranks));
    } else {
      var init, last := ranks[..|ranks| - 1], ranks[|ranks| - 1];
      assert Distinct(init) by {
        forall i, j | 0 <= i < j < |init|
          ensures init[i] != init[j]
        {
          assert init[i] == ranks[i] && init[j] == ranks[j];
        }
      }
      GroupsCoverRows(rows, init, entry);
      forall k | 0 <= k < |rows|
        ensures InSomeBucket(ranks)(rows[k]) <==> InSomeBucket(init)(rows[k]) || RenderPdf.InBucket(last)(rows[k])
        ensures !(InSomeBucket(init)(rows[k]) && RenderPdf.InBucket(last)(rows[k]))
      {
        BucketSplit(ranks, rows[k]);
      }
      CountDisjoint(rows, InSomeBucket(init), RenderPdf.InBucket(last), InSomeBucket(ranks));
      var before := GroupsOf(rows, init, entry);
      if Count(rows, RenderPdf.InBucket(last)) > 0 {
        var after := before + [GroupOf(rows, last, entry)];
        assert after[..|after| - 1] == before;
      }
    }
  }

  /** The entries of one section, in display-name order. */
  method BuildEmployees(section: seq<RenderPdf.TileRow>, stored: set<string>) returns (employees: seq<Employee>)
    ensures employees == Employees(SortBy(section, RenderPdf.NameKey), EntryOf(stored))
  {
    var sorted := SortBy(section, RenderPdf.NameKey);
    var entry := EntryOf(stored);
    employees := [];
    for i := 0 to |sorted|
      invariant employees == Employees(sorted[..i], entry)
    {
      var e := BuildEmployee(sorted[i], stored);
      assert e == entry(sorted[i]);
      EmployeesSnoc(sorted, entry, i);
      employees := employees + [e];
    }
    assert sorted[..|sorted|] == sorted;
  }

  /** The `groups` loop of `write_ssl_html`, over any list of ranks. */
  method BuildGroupsOf(rows: seq<RenderPdf.TileRow>, ranks: seq<string>, stored: set<string>) returns (groups: seq<Group>)
    ensures groups == GroupsOf(rows, ranks, EntryOf(stored))
  {
    groups := [];
    for i := 0 to |ranks|
      invariant groups == GroupsOf(rows, ranks[..i], EntryOf(stored))
    {
      var rank := ranks[i];
      assert ranks[..i + 1][..i] == ranks[..i];
      var section := Filter(rows, RenderPdf.InBucket(rank));
      if |section| == 0 {
        continue;
      }
      var employees := BuildEmployees(section, stored);
      groups := groups + [Group(rank, RankClass(rank), employees)];
    }
    assert ranks[..|ranks|] == ranks;
  }

  /** The groups of the page: in `rank_order`, without the empty ranks, and holding every
      row whose bucket is one of the seven ranks exactly once. */
  method BuildGroups(rows: seq<RenderPdf.TileRow>, stored: set<string>) returns (groups: seq<Group>)
    ensures groups == GroupsOf(rows, RankOrder, EntryOf(stored))
    ensures RanksOf(groups) == Filter(RankOrder, Occupied(rows))
    ensures TotalEmployees(groups) == Count(rows, InSomeBucket(RankOrder))
  {
    groups := BuildGroupsOf(rows, RankOrder, stored);
    RankOrderDistinct();
    GroupRanks(rows, RankOrder, EntryOf(stored));
    GroupsCoverRows(rows, RankOrder, EntryOf(stored));
  }

  // ---------------------------------------------------------------------------
  // The two rows of the page
  // ---------------------------------------------------------------------------

  function InTopRow(g: Group): bool { g.cssClass in TopClasses }
  function InBottomRow(g: Group): bool { g.cssClass in BottomClasses }

  /** A group of one of the seven ranks, with that rank's class, is in exactly one row. */
  lemma GroupRow(g: Group)
    requires g.rank in RankOrder && g.cssClass == RankClass(g.rank)
    ensures InTopRow(g) <==> !InBottomRow(g)
  {
    var i :| 0 <= i < |RankOrder| && RankOrder[i] == g.rank;
    RankClassRow(i);
  }

  /** Each group of the page is drawn once: in the top row or in the bottom row, never
      both. */
  lemma PageRows(rows: seq<RenderPdf.TileRow>, stored: set<string>)
    ensures var gs := GroupsOf(rows, RankOrder, EntryOf(stored));
      forall k :: 0 <= k < |gs| ==> (InTopRow(gs[k]) <==> !InBottomRow(gs[k]))
    ensures var gs := GroupsOf(rows, RankOrder, EntryOf(stored));
      |Filter(gs, InTopRow)| + |Filter(gs, InBottomRow)| == |gs|
  {
    var gs := GroupsOf(rows, RankOrder, EntryOf(stored));
    forall k | 0 <= k < |gs|
      ensures InTopRow(gs[k]) <==> !InBottomRow(gs[k])
    {
      GroupRow(gs[k]);
    }
    CountSplit(gs, InBottomRow, InTopRow);
  }
}
