/** The weekly utilization pipeline of src/etl.py: load and clean the PowerBI export,
    map competencies to (BU, SSL), derive the row flags and aggregate per unit. */
module Etl {
  import opened Cells
  import opened Strings
  import opened Frames

  // ---------------------------------------------------------------------------
  // Rank buckets and name / week normalisation
  // ---------------------------------------------------------------------------

  /** Raw rank description -> report bucket. */
  const RankMap: map<string, string> := map[
    "Executive Director" := "Associate Partner",
    "Manager" := "Manager",
    "Partner" := "Partner",
    "Senior" := "Senior Consultant",
    "Senior Manager" := "Senior Manager",
    "Staff" := "Consultant"
  ]

  /** `_norm_week`: None becomes "", anything else has its whitespace runs collapsed. */
  function NormWeek(s: Option<string>): (r: string)
    ensures s.None? ==> r == ""
    ensures SingleSpaced(r)
    ensures s.Some? ==> Words(r) == Words(s.value)
  {
    match s
    case None => ""
    case Some(t) =>
      WordsAreWords(t);
      JoinSingleSpaced(Words(t));
      WordsOfJoin(Words(t));
      Join(Words(t))
  }

  /** Normalising a week string twice is the same as normalising it once. */
  lemma NormWeekIdempotent(s: Option<string>)
    ensures NormWeek(Some(NormWeek(s))) == NormWeek(s)
  {
    var r := NormWeek(s);
    if s.Some? {
      WordsAreWords(r);
      WordsOfJoin(Words(s.value));
    } else {
      assert Words(r) == [];
    }
  }

  /** Position of the first `c` in `s`, or |s| when there is none. */
  function IndexOf(s: string, c: char): (i: nat)
    ensures i <= |s|
    ensures i < |s| ==> s[i] == c
    ensures forall k :: 0 <= k < i ==> s[k] != c
  {
    if |s| == 0 then 0
    else if s[0] == c then 0
    else 1 + IndexOf(s[1..], c)
  }

  /** `normalize_display_name`: "Last, First" becomes "First Last". */
  function NormalizeDisplayName(pbiName: Option<string>): (r: string)
    ensures pbiName.None? ==> r == ""
    ensures pbiName.Some? && ',' !in Strip(pbiName.value) ==> r == Strip(pbiName.value)
    ensures pbiName.Some? && ',' in Strip(pbiName.value) ==>
      var name := Strip(pbiName.value);
      exists i :: 0 <= i < |name| && name[i] == ',' && ',' !in name[..i]
        && r == Strip(name[i + 1..]) + " " + Strip(name[..i])
  {
    match pbiName
    case None => ""
    case Some(s) =>
      var name := Strip(s);
      var i := IndexOf(name, ',');
      if i < |name| then
        assert ',' !in name[..i];
        Strip(name[i + 1..]) + " " + Strip(name[..i])
      else
        name
  }

  /** A comma-free name is only trimmed, so normalising it twice changes nothing. */
  lemma NormalizeCommaFreeIdempotent(s: string)
    requires ',' !in s
    ensures NormalizeDisplayName(Some(s)) == Strip(s)
    ensures NormalizeDisplayName(Some(NormalizeDisplayName(Some(s)))) == NormalizeDisplayName(Some(s))
  {
    StripKeepsAbsent(s, ',');
    StripIdempotent(s);
  }

  /** "Last, First" with trimmed, comma-free parts becomes "First Last". */
  lemma NormalizeLastFirst(last: string, first: string)
    requires |last| > 0 && |first| > 0 && Trimmed(last) && Trimmed(first)
    requires ',' !in last
    ensures NormalizeDisplayName(Some(last + ", " + first)) == first + " " + last
  {
    var s := last + ", " + first;
    LastFirstTrimmed(last, first);
    StripTrimmed(s);
    LastFirstComma(last, first);
    StripAfterSpace(first);
    StripTrimmed(last);
  }

  lemma LastFirstTrimmed(last: string, first: string)
    requires |last| > 0 && |first| > 0 && Trimmed(last) && Trimmed(first)
    ensures Trimmed(last + ", " + first)
  {
    var s := last + ", " + first;
    assert s[0] == last[0];
    assert s[|s| - 1] == first[|first| - 1];
  }

  lemma LastFirstComma(last: string, first: string)
    requires ',' !in last
    ensures var s := last + ", " + first;
      IndexOf(s, ',') == |last| && s[..|last|] == last && s[|last| + 1..] == " " + first
  {
    var s := last + ", " + first;
    assert s[|last|] == ',';
    assert forall k :: 0 <= k < |last| ==> s[k] == last[k];
    assert s[..|last|] == last;
    assert s[|last| + 1..] == " " + first;
  }

  lemma StripAfterSpace(first: string)
    requires |first| > 0 && Trimmed(first)
    ensures Strip(" " + first) == first
  {
    assert (" " + first)[1..] == first;
    StripTrimmed(first);
  }

  /** The worked example of the source docstring: "Doe, Jane" becomes "Jane Doe". */
  lemma NormalizeDoeJane()
    ensures NormalizeDisplayName(Some("Doe" + ", " + "Jane")) == "Jane" + " " + "Doe"
  {
    assert Trimmed("Doe") && Trimmed("Jane");
    NormalizeLastFirst("Doe", "Jane");
  }

  // ---------------------------------------------------------------------------
  // Loading the export
  // ---------------------------------------------------------------------------

  /** An hours cell: a number `pd.to_numeric` can read, a value it cannot, or blank. */
  datatype HourCell = Number(x: real) | NonNumeric | Blank

  /** A Missing Timesheets cell as `fillna(0).astype(int)` reads it: a value it converts
      (a number, or text spelling one, carried as that number), a blank, or a value it
      rejects with a ValueError. */
  datatype IntCell = IntValue(x: real) | IntBlank | IntInvalid

  /** `int(x)` of a float: truncation toward zero. */
  function TruncToInt(x: real): (n: int)
    ensures x >= 0.0 ==> n >= 0 && n as real <= x < n as real + 1.0
    ensures x < 0.0 ==> n <= 0 && n as real - 1.0 < x <= n as real
  {
    if x >= 0.0 then x.Floor else -((-x).Floor)
  }

  /** Any count from 1 up to, not including, 2 becomes 1, the value that marks a missing
      timesheet. */
  lemma TruncOfFraction(x: real)
    requires 1.0 <= x < 2.0
    ensures TruncToInt(x) == 1
  {
  }

  /** One row of the export sheet; a field is meaningful only when its column exists. */
  datatype RawRow = RawRow(
    gpn: Option<string>,
    employeeName: Option<string>,
    competency: Option<string>,
    rankDescription: Option<string>,
    missingTimesheets: IntCell,
    employeeStatus: Option<string>,
    availableHours: HourCell,
    chargeableHours: HourCell,
    week: Option<string>)

  /** The first sheet of the export: its header cells and its rows. */
  datatype RawTable = RawTable(header: seq<string>, rows: seq<RawRow>)

  /** The column names after `c.strip()`. */
  function Columns(t: RawTable): (cs: seq<string>)
    ensures |cs| == |t.header|
    ensures forall i :: 0 <= i < |cs| ==> cs[i] == Strip(t.header[i])
  {
    seq(|t.header|, i requires 0 <= i < |t.header| => Strip(t.header[i]))
  }

  /** Column names are stripped before any lookup. */
  predicate HasColumn(t: RawTable, name: string)
  {
    name in Columns(t)
  }

  /** A cleaned export row. */
  datatype ExportRow = ExportRow(
    gpn: string,
    employeeName: string,
    displayNameAuto: string,
    competency: string,
    rankDescription: string,
    missingTimesheets: int,
    employeeStatus: Option<string>,
    availableHours: real,
    chargeableHours: real,
    week: Option<string>)

  datatype EtlError =
    | MissingColumn(column: string)
    | EmptyWeekConfig
    | EmptyWeek
    | WeekNotFound(week: string)
    | WeekColumnMissing
    | NotAnInteger(column: string)

  /** The footer marker: Employee Name is "total" once trimmed and lower-cased; a NaN
      name reads "nan" and is never the footer. */
  predicate IsTotalRow(r: RawRow)
    ensures r.employeeName.None? ==> !IsTotalRow(r)
  {
    StripTrimmed(CellText(None));
    LowerOfLowercase(CellText(None));

    Lower(Strip(CellText(r.employeeName))) == "total"
  }

  /** Rows strictly before the first "Total" row, or all rows when there is none. */
  function TruncateAtTotal(rows: seq<RawRow>): (r: seq<RawRow>)
    ensures |r| <= |rows| && r == rows[..|r|]
    ensures forall k :: 0 <= k < |r| ==> !IsTotalRow(r[k])
    ensures |r| < |rows| ==> IsTotalRow(rows[|r|])
  {
    TakeUntil(rows, IsTotalRow)
  }

  /** Everything from the first "Total" row on (the "Applied filters" lines too) is dropped. */
  lemma TruncateDropsFooter(body: seq<RawRow>, total: RawRow, footer: seq<RawRow>)
    requires forall k :: 0 <= k < |body| ==> !IsTotalRow(body[k])
    requires IsTotalRow(total)
    ensures TruncateAtTotal(body + [total] + footer) == body
  {
    TakeUntilFirstStop(body, total, footer, IsTotalRow);
  }

  predicate HasGpn(r: RawRow)
  {
    r.gpn.Some?
  }

  /** `df[df["GPN"].notna()]`: rows with a GPN, order preserved. */
  function DropMissingGpn(rows: seq<RawRow>): (r: seq<RawRow>)
    ensures |r| <= |rows|
    ensures forall x :: x in r <==> x in rows && x.gpn.Some?
  {
    Filter(rows, HasGpn)
  }

  /** Dropping rows keeps the relative order: it distributes over concatenation. */
  lemma DropMissingGpnAppend(a: seq<RawRow>, b: seq<RawRow>)
    ensures DropMissingGpn(a + b) == DropMissingGpn(a) + DropMissingGpn(b)
  {
    FilterAppend(a, b, HasGpn);
  }

  /** `pd.to_numeric(..., errors="coerce").fillna(0.0)`. */
  function CoerceHours(c: HourCell): (h: real)
    ensures c.Number? ==> h == c.x
    ensures !c.Number? ==> h == 0.0
  {
    match c
    case Number(x) => x
    case NonNumeric => 0.0
    case Blank => 0.0
  }

  /** Hours of a possibly absent column: an absent column is all 0.0. */
  function HoursColumn(t: RawTable, column: string, c: HourCell): (h: real)
    ensures !HasColumn(t, column) ==> h == 0.0
    ensures HasColumn(t, column) ==> h == CoerceHours(c)
  {
    if HasColumn(t, column) then CoerceHours(c) else 0.0
  }

  /** `str(value).strip()` of a cell. */
  function Clean(c: Option<string>): (s: string)
    ensures Trimmed(s)
  {
    Strip(CellText(c))
  }

  /** A cleaned cell is its `str()` with only surrounding whitespace cut. */
  lemma CleanIsSlice(c: Option<string>)
    ensures SpaceCutTo(CellText(c), Clean(c))
  {
    StripIsSlice(CellText(c));
  }

  /** A Missing Timesheets cell `astype(int)` converts, blanks counting as 0. */
  predicate IntReadable(c: IntCell)
  {
    !c.IntInvalid?
  }

  /** `fillna(0).astype(int)` of a readable cell. */
  function MissingCount(c: IntCell): (n: int)
    ensures c.IntBlank? ==> n == 0
    ensures c.IntValue? ==> n == TruncToInt(c.x)
  {
    if c.IntValue? then TruncToInt(c.x) else 0
  }

  /** Cleaning of one kept row: trimming, name normalisation, defaults and coercion. */
  function NormalizeRow(t: RawTable, r: RawRow): (e: ExportRow)
    ensures Trimmed(e.gpn) && Trimmed(e.employeeName) && Trimmed(e.competency)
    ensures e.gpn == Clean(r.gpn) && e.employeeName == Clean(r.employeeName) && e.competency == Clean(r.competency)
    ensures e.displayNameAuto == NormalizeDisplayName(Some(e.employeeName))
    ensures !HasColumn(t, "Rank Description") ==> e.rankDescription == ""
    ensures HasColumn(t, "Rank Description") ==> e.rankDescription == Clean(r.rankDescription)
    ensures !HasColumn(t, "Missing Timesheets") ==> e.missingTimesheets == 0
    ensures HasColumn(t, "Missing Timesheets") && r.missingTimesheets.IntBlank? ==> e.missingTimesheets == 0
    ensures HasColumn(t, "Missing Timesheets") && r.missingTimesheets.IntValue? ==>
      e.missingTimesheets == TruncToInt(r.missingTimesheets.x)
    ensures !HasColumn(t, "Employee Status") ==> e.employeeStatus == Some("")
    ensures HasColumn(t, "Employee Status") ==> e.employeeStatus == r.employeeStatus
    ensures e.availableHours == HoursColumn(t, "Effective Available Hours", r.availableHours)
    ensures e.chargeableHours == HoursColumn(t, "Chargeable Hours", r.chargeableHours)
    ensures !HasColumn(t, "Week") ==> e.week.None?
    ensures HasColumn(t, "Week") ==> e.week == r.week
  {
    var name := Clean(r.employeeName);
    ExportRow(
      gpn := Clean(r.gpn),
      employeeName := name,
      displayNameAuto := NormalizeDisplayName(Some(name)),
      competency := Clean(r.competency),
      rankDescription := if HasColumn(t, "Rank Description") then Clean(r.rankDescription) else "",
      missingTimesheets := if HasColumn(t, "Missing Timesheets") then MissingCount(r.missingTimesheets) else 0,
      employeeStatus := if HasColumn(t, "Employee Status") then r.employeeStatus else Some(""),
      availableHours := HoursColumn(t, "Effective Available Hours", r.availableHours),
      chargeableHours := HoursColumn(t, "Chargeable Hours", r.chargeableHours),
      week := if HasColumn(t, "Week") then r.week else None)
  }

  /** Every row cleaned, in order. */
  function CleanRows(t: RawTable, rows: seq<RawRow>): (es: seq<ExportRow>)
    ensures |es| == |rows|
    ensures forall i :: 0 <= i < |rows| ==> es[i] == NormalizeRow(t, rows[i])
  {
    seq(|rows|, i requires 0 <= i < |rows| => NormalizeRow(t, rows[i]))
  }

  /** The rows `load_powerbi_export` keeps, before cleaning. */
  function KeptRows(t: RawTable): (r: seq<RawRow>)
    ensures HasColumn(t, "GPN") ==> forall x :: x in r ==> x.gpn.Some?
    ensures HasColumn(t, "Employee Name") ==> forall x :: x in r ==> !IsTotalRow(x)
  {
    var rows := if HasColumn(t, "Employee Name") then TruncateAtTotal(t.rows) else t.rows;
    assert HasColumn(t, "Employee Name") ==> forall x :: x in rows ==> !IsTotalRow(x);
    if HasColumn(t, "GPN") then DropMissingGpn(rows) else rows
  }

  /** Every kept row's Missing Timesheets cell converts, or the column is absent. */
  predicate CountsReadable(t: RawTable)
  {
    !HasColumn(t, "Missing Timesheets") || forall x :: x in KeptRows(t) ==> IntReadable(x.missingTimesheets)
  }

  /** `load_powerbi_export`: fails on a missing GPN, Employee Name or Competency column
      (in that order), then with a ValueError when a kept row's Missing Timesheets cannot
      be made an integer; otherwise cleans every kept row. */
  function LoadPowerBiExport(t: RawTable): (r: Result<seq<ExportRow>, EtlError>)
    ensures !HasColumn(t, "GPN") ==> r == Err(MissingColumn("GPN"))
    ensures HasColumn(t, "GPN") && !HasColumn(t, "Employee Name") ==> r == Err(MissingColumn("Employee Name"))
    ensures HasColumn(t, "GPN") && HasColumn(t, "Employee Name") && !HasColumn(t, "Competency") ==>
      r == Err(MissingColumn("Competency"))
    ensures HasColumn(t, "GPN") && HasColumn(t, "Employee Name") && HasColumn(t, "Competency") && !CountsReadable(t) ==>
      r == Err(NotAnInteger("Missing Timesheets"))
    ensures r.Ok? <==> HasColumn(t, "GPN") && HasColumn(t, "Employee Name") && HasColumn(t, "Competency") && CountsReadable(t)
    ensures r.Ok? ==> |r.value| == |KeptRows(t)|
    ensures r.Ok? ==> forall i :: 0 <= i < |r.value| ==> r.value[i] == NormalizeRow(t, KeptRows(t)[i])
  {
    if !HasColumn(t, "GPN") then Err(MissingColumn("GPN"))
    else if !HasColumn(t, "Employee Name") then Err(MissingColumn("Employee Name"))
    else if !HasColumn(t, "Competency") then Err(MissingColumn("Competency"))
    else if !CountsReadable(t) then Err(NotAnInteger("Missing Timesheets"))
    else Ok(CleanRows(t, KeptRows(t)))
  }

  // ---------------------------------------------------------------------------
  // Competency -> (BU, SSL)
  // ---------------------------------------------------------------------------

  datatype Unit = Unit(bu: string, ssl: string)
  datatype SslConfig = SslConfig(name: string, competencyAreas: seq<string>)
  datatype BuConfig = BuConfig(name: string, ssls: seq<SslConfig>)

  /** One `lookup[ca] = (bu, ssl)` assignment. */
  datatype Entry = Entry(competency: string, unit: Unit)

  /** The assignments made for one SSL, in list order. */
  function SslEntries(bu: string, s: SslConfig): (es: seq<Entry>)
    ensures |es| == |s.competencyAreas|
    ensures forall k :: 0 <= k < |es| ==> es[k] == Entry(s.competencyAreas[k], Unit(bu, s.name))
  {
    seq(|s.competencyAreas|, k requires 0 <= k < |s.competencyAreas| =>
      Entry(s.competencyAreas[k], Unit(bu, s.name)))
  }

  /** The assignments made for the SSLs of one BU, in iteration order. */
  function BuEntries(bu: string, ssls: seq<SslConfig>): seq<Entry>
  {
    if |ssls| == 0 then []
    else BuEntries(bu, ssls[..|ssls| - 1]) + SslEntries(bu, ssls[|ssls| - 1])
  }

  /** Every assignment of the triple loop, in iteration order. */
  function Entries(cfg: seq<BuConfig>): seq<Entry>
  {
    if |cfg| == 0 then []
    else Entries(cfg[..|cfg| - 1]) + BuEntries(cfg[|cfg| - 1].name, cfg[|cfg| - 1].ssls)
  }

  /** The dictionary left after performing the assignments in order. */
  function LookupOf(es: seq<Entry>): map<string, Unit>
  {
    if |es| == 0 then map[]
    else LookupOf(es[..|es| - 1])[es[|es| - 1].competency := es[|es| - 1].unit]
  }

  /** A competency is a key iff some entry names it, and its value comes from the last such entry. */
  lemma {:induction false} LookupLastWins(es: seq<Entry>, ca: string)
    ensures ca in LookupOf(es) <==> exists i :: 0 <= i < |es| && es[i].competency == ca
    ensures ca in LookupOf(es) ==>
      exists i :: 0 <= i < |es| && es[i].competency == ca && LookupOf(es)[ca] == es[i].unit
        && forall j :: i < j < |es| ==> es[j].competency != ca
  {
    if |es| > 0 {
      var init, last := es[..|es| - 1], es[|es| - 1];
      LookupLastWins(init, ca);
      if last.competency == ca {
        assert es[|es| - 1].competency == ca;
      } else {
        assert forall i :: 0 <= i < |init| ==> init[i] == es[i];
        if ca in LookupOf(es) {
          var i :| 0 <= i < |init| && init[i].competency == ca && LookupOf(init)[ca] == init[i].unit
            && forall j :: i < j < |init| ==> init[j].competency != ca;
          assert forall j :: i < j < |es| ==> es[j].competency != ca;
        }
      }
    }
  }

  lemma LookupOfSnoc(es: seq<Entry>, e: Entry)
    ensures LookupOf(es + [e]) == LookupOf(es)[e.competency := e.unit]
  {
    assert (es + [e])[..|es|] == es;
  }

  lemma EntriesSnoc(cfg: seq<BuConfig>, i: nat)
    requires i < |cfg|
    ensures Entries(cfg[..i + 1]) == Entries(cfg[..i]) + BuEntries(cfg[i].name, cfg[i].ssls)
  {
    assert cfg[..i + 1][..i] == cfg[..i];
  }

  lemma BuEntriesSnoc(bu: string, ssls: seq<SslConfig>, j: nat)
    requires j < |ssls|
    ensures BuEntries(bu, ssls[..j + 1]) == BuEntries(bu, ssls[..j]) + SslEntries(bu, ssls[j])
  {
    assert ssls[..j + 1][..j] == ssls[..j];
  }

  /** The innermost loop of `map_competency_to_ssl`: one SSL's competency areas. */
  method AddSslEntries(lookup: map<string, Unit>, ghost done: seq<Entry>, bu: string, s: SslConfig)
    returns (updated: map<string, Unit>)
    requires lookup == LookupOf(done)
    ensures updated == LookupOf(done + SslEntries(bu, s))
  {
    updated := lookup;
    ghost var es := SslEntries(bu, s);
    assert done + es[..0] == done;
    for k := 0 to |s.competencyAreas|
      invariant updated == LookupOf(done + es[..k])
    {
      var ca := s.competencyAreas[k];
      assert es[..k + 1] == es[..k] + [es[k]];
      AppendAssoc(done, es[..k], [es[k]]);
      LookupOfSnoc(done + es[..k], es[k]);
      updated := updated[ca := Unit(bu, s.name)];
    }
    assert es[..|es|] == es;
  }

  /** The middle loop of `map_competency_to_ssl`: the SSLs of one BU. */
  method AddBuEntries(lookup: map<string, Unit>, ghost done: seq<Entry>, b: BuConfig)
    returns (updated: map<string, Unit>)
    requires lookup == LookupOf(done)
    ensures updated == LookupOf(done + BuEntries(b.name, b.ssls))
  {
    updated := lookup;
    ghost var acc := done;
    assert BuEntries(b.name, b.ssls[..0]) == [];
    for j := 0 to |b.ssls|
      invariant acc == done + BuEntries(b.name, b.ssls[..j])
      invariant updated == LookupOf(acc)
    {
      updated := AddSslEntries(updated, acc, b.name, b.ssls[j]);
      BuEntriesSnoc(b.name, b.ssls, j);
      AppendAssoc(done, BuEntries(b.name, b.ssls[..j]), SslEntries(b.name, b.ssls[j]));
      acc := acc + SslEntries(b.name, b.ssls[j]);
    }
    assert b.ssls[..|b.ssls|] == b.ssls;
  }

  /** The lookup dictionary of `map_competency_to_ssl`: one assignment per competency area,
      BUs, SSLs and areas in configuration order. */
  method BuildLookup(cfg: seq<BuConfig>) returns (lookup: map<string, Unit>)
    ensures lookup == LookupOf(Entries(cfg))
  {
    lookup := map[];
    ghost var acc: seq<Entry> := [];
    for i := 0 to |cfg|
      invariant acc == Entries(cfg[..i])
      invariant lookup == LookupOf(acc)
    {
      lookup := AddBuEntries(lookup, acc, cfg[i]);
      EntriesSnoc(cfg, i);
      acc := acc + BuEntries(cfg[i].name, cfg[i].ssls);
    }
    assert cfg[..|cfg|] == cfg;
  }

  /** An export row with its resolved unit. */
  datatype MappedRow = MappedRow(row: ExportRow, bu: Option<string>, ssl: Option<string>, unmapped: bool)

  /** `df["Competency"].map(lookup)` for one row. */
  function MapRow(r: ExportRow, lookup: map<string, Unit>): (m: MappedRow)
    ensures m.row == r
    ensures m.unmapped <==> r.competency !in lookup
    ensures m.unmapped <==> m.bu.None? && m.ssl.None?
    ensures !m.unmapped ==> m.bu == Some(lookup[r.competency].bu) && m.ssl == Some(lookup[r.competency].ssl)
  {
    if r.competency in lookup then
      MappedRow(r, Some(lookup[r.competency].bu), Some(lookup[r.competency].ssl), false)
    else
      MappedRow(r, None, None, true)
  }

  function MapRows(rows: seq<ExportRow>, lookup: map<string, Unit>): (ms: seq<MappedRow>)
    ensures |ms| == |rows|
    ensures forall i :: 0 <= i < |rows| ==> ms[i] == MapRow(rows[i], lookup)
  {
    seq(|rows|, i requires 0 <= i < |rows| => MapRow(rows[i], lookup))
  }

  /** `map_competency_to_ssl`: a row is unmapped iff no SSL lists its competency;
      otherwise it gets the unit of the last SSL (in iteration order) that lists it. */
  method MapCompetencyToSsl(rows: seq<ExportRow>, cfg: seq<BuConfig>) returns (mapped: seq<MappedRow>)
    ensures mapped == MapRows(rows, LookupOf(Entries(cfg)))
    ensures forall i :: 0 <= i < |rows| ==>
      (mapped[i].unmapped <==> forall k :: 0 <= k < |Entries(cfg)| ==> Entries(cfg)[k].competency != rows[i].competency)
    ensures forall i :: 0 <= i < |rows| && !mapped[i].unmapped ==>
      exists k :: 0 <= k < |Entries(cfg)| && Entries(cfg)[k].competency == rows[i].competency
        && Entries(cfg)[k].unit == Unit(mapped[i].bu.value, mapped[i].ssl.value)
        && forall j :: k < j < |Entries(cfg)| ==> Entries(cfg)[j].competency != rows[i].competency
  {
    var lookup := BuildLookup(cfg);
    mapped := MapRows(rows, lookup);
    forall i | 0 <= i < |rows| {
      LookupLastWins(Entries(cfg), rows[i].competency);
    }
  }

  // ---------------------------------------------------------------------------
  // Flags and row utilization
  // ---------------------------------------------------------------------------

  datatype EnrichedRow = EnrichedRow(
    row: ExportRow,
    bu: Option<string>,
    ssl: Option<string>,
    unmapped: bool,
    rankBucket: string,
    missingTimesheet: bool,
    vacation: bool,
    inactiveLeave: bool,
    util: Option<real>)

  /** `RANK_MAP[raw]`, falling back to the raw description. */
  function RankBucket(raw: string): (b: string)
    ensures raw in RankMap ==> b == RankMap[raw]
    ensures raw !in RankMap ==> b == raw
  {
    if raw in RankMap then RankMap[raw] else raw
  }

  /** `enrich_flags_and_util` for one row. */
  function EnrichRow(m: MappedRow): (e: EnrichedRow)
    ensures e.row == m.row && e.bu == m.bu && e.ssl == m.ssl && e.unmapped == m.unmapped
    ensures e.rankBucket == RankBucket(m.row.rankDescription)
    ensures e.missingTimesheet <==> m.row.missingTimesheets == 1
    ensures e.vacation <==> m.row.availableHours <= 0.0
    ensures e.inactiveLeave <==> Lower(CellText(m.row.employeeStatus)) == "inactive"
    ensures e.util == Ratio(m.row.chargeableHours, m.row.availableHours)
  {
    EnrichedRow(
      row := m.row,
      bu := m.bu,
      ssl := m.ssl,
      unmapped := m.unmapped,
      rankBucket := RankBucket(m.row.rankDescription),
      missingTimesheet := m.row.missingTimesheets == 1,
      vacation := m.row.availableHours <= 0.0,
      inactiveLeave := Lower(CellText(m.row.employeeStatus)) == "inactive",
      util := Ratio(m.row.chargeableHours, m.row.availableHours))
  }

  function Enrich(rows: seq<MappedRow>): (es: seq<EnrichedRow>)
    ensures |es| == |rows|
    ensures forall i :: 0 <= i < |rows| ==> es[i] == EnrichRow(rows[i])
  {
    seq(|rows|, i requires 0 <= i < |rows| => EnrichRow(rows[i]))
  }

  /** A non-vacation row always has a utilization: its available hours are positive. */
  lemma NonVacationHasUtil(m: MappedRow)
    ensures !EnrichRow(m).vacation ==> EnrichRow(m).util.Some? && m.row.availableHours > 0.0
  {
  }

  // ---------------------------------------------------------------------------
  // Aggregation per (BU, SSL)
  // ---------------------------------------------------------------------------

  /** The grouping key; unmapped rows share the key (None, None). */
  datatype GroupKey = GroupKey(bu: Option<string>, ssl: Option<string>)

  function KeyOf(e: EnrichedRow): GroupKey
  {
    GroupKey(e.bu, e.ssl)
  }

  /** The non-vacation rows of one group, in row order. */
  function GroupRows(rows: seq<EnrichedRow>, g: GroupKey): (rs: seq<EnrichedRow>)
    ensures |rs| <= |rows|
    ensures forall e :: e in rs <==> e in rows && !e.vacation && KeyOf(e) == g
    ensures rs != [] <==> exists i :: 0 <= i < |rows| && !rows[i].vacation && KeyOf(rows[i]) == g
  {
    if |rows| == 0 then []
    else
      var init, last := rows[..|rows| - 1], rows[|rows| - 1];
      assert forall e :: e in rows <==> e in init || e == last;
      if !last.vacation && KeyOf(last) == g then GroupRows(init, g) + [last] else GroupRows(init, g)
  }

  /** The rows of a group whose timesheet is not missing. */
  function NonMissing(rs: seq<EnrichedRow>): (r: seq<EnrichedRow>)
    ensures forall e :: e in r <==> e in rs && !e.missingTimesheet
  {
    if |rs| == 0 then []
    else
      var init, last := rs[..|rs| - 1], rs[|rs| - 1];
      assert forall e :: e in rs <==> e in init || e == last;
      if last.missingTimesheet then NonMissing(init) else NonMissing(init) + [last]
  }

  function SumChargeable(rs: seq<EnrichedRow>): real
  {
    if |rs| == 0 then 0.0 else SumChargeable(rs[..|rs| - 1]) + rs[|rs| - 1].row.chargeableHours
  }

  function SumAvailable(rs: seq<EnrichedRow>): real
  {
    if |rs| == 0 then 0.0 else SumAvailable(rs[..|rs| - 1]) + rs[|rs| - 1].row.availableHours
  }

  function Gpns(rs: seq<EnrichedRow>): set<string>
  {
    if |rs| == 0 then {} else Gpns(rs[..|rs| - 1]) + {rs[|rs| - 1].row.gpn}
  }

  function CountMissing(rs: seq<EnrichedRow>): nat
  {
    if |rs| == 0 then 0 else CountMissing(rs[..|rs| - 1]) + (if rs[|rs| - 1].missingTimesheet then 1 else 0)
  }

  /** The running sums the group-by keeps for one group. */
  datatype Acc = Acc(
    chargeable: real,
    available: real,
    gpns: set<string>,
    missing: nat,
    chargeableExcl: real,
    availableExcl: real,
    exclRows: nat)

  const EmptyAcc := Acc(0.0, 0.0, {}, 0, 0.0, 0.0, 0)

  /** Adds one non-vacation row to a group's sums. */
  function Accumulate(a: Acc, e: EnrichedRow): Acc
  {
    Acc(
      a.chargeable + e.row.chargeableHours,
      a.available + e.row.availableHours,
      a.gpns + {e.row.gpn},
      a.missing + (if e.missingTimesheet then 1 else 0),
      if e.missingTimesheet then a.chargeableExcl else a.chargeableExcl + e.row.chargeableHours,
      if e.missingTimesheet then a.availableExcl else a.availableExcl + e.row.availableHours,
      if e.missingTimesheet then a.exclRows else a.exclRows + 1)
  }

  /** The sums of a whole group, each stated on its own. */
  function AccOf(rs: seq<EnrichedRow>): Acc
  {
    Acc(SumChargeable(rs), SumAvailable(rs), Gpns(rs), CountMissing(rs),
        SumChargeable(NonMissing(rs)), SumAvailable(NonMissing(rs)), |NonMissing(rs)|)
  }

  lemma AccOfSnoc(rs: seq<EnrichedRow>, e: EnrichedRow)
    ensures AccOf(rs + [e]) == Accumulate(AccOf(rs), e)
  {
    var s := rs + [e];
    assert s[..|s| - 1] == rs;
    if !e.missingTimesheet {
      var n := NonMissing(rs) + [e];
      assert n[..|n| - 1] == NonMissing(rs);
    }
  }

  /** The group-by as a single pass over the rows into per-group sums; a group enters
      the map with its first row, so every group has a row counted either as missing or
      in the excluding-missing sums. */
  function Fold(rows: seq<EnrichedRow>): (m: map<GroupKey, Acc>)
    ensures forall g :: g in m ==> m[g].missing + m[g].exclRows > 0
  {
    if |rows| == 0 then map[]
    else
      var m, e := Fold(rows[..|rows| - 1]), rows[|rows| - 1];
      if e.vacation then m
      else m[KeyOf(e) := Accumulate(if KeyOf(e) in m then m[KeyOf(e)] else EmptyAcc, e)]
  }

  /** The fold holds exactly the groups with a non-vacation row, each with its group's sums. */
  lemma {:induction false} FoldIsGroupSums(rows: seq<EnrichedRow>, g: GroupKey)
    ensures g in Fold(rows) <==> GroupRows(rows, g) != []
    ensures g in Fold(rows) ==> Fold(rows)[g] == AccOf(GroupRows(rows, g))
  {
    if |rows| > 0 {
      var init, e := rows[..|rows| - 1], rows[|rows| - 1];
      FoldIsGroupSums(init, g);
      if !e.vacation && KeyOf(e) == g {
        AccOfSnoc(GroupRows(init, g), e);
        if GroupRows(init, g) == [] {
          assert AccOf([]) == EmptyAcc;
          assert [] + [e] == [e];
        }
      }
    }
  }

  /** A ratio with no value when the denominator is 0: the row-level `util` and the
      group-level `util_all` / `util_excl_missing` all divide this way. */
  function Ratio(num: real, den: real): (r: Option<real>)
    ensures r.None? <==> den == 0.0
    ensures r.Some? ==> r.value * den == num
  {
    if den == 0.0 then None else Some(num / den)
  }

  datatype GroupTotals = GroupTotals(
    totalChargeable: real,
    totalAvailable: real,
    headcount: nat,
    missingTimesheets: nat,
    totalChargeableExcl: Option<real>,
    totalAvailableExcl: Option<real>,
    utilAll: Option<real>,
    utilExcl: Option<real>)

  /** The output columns of one group; the left merge leaves the "excl" sums empty
      for a group whose every row misses its timesheet. */
  function TotalsOf(a: Acc): GroupTotals
  {
    var chEx := if a.exclRows == 0 then None else Some(a.chargeableExcl);
    var avEx := if a.exclRows == 0 then None else Some(a.availableExcl);
    GroupTotals(
      a.chargeable, a.available, |a.gpns|, a.missing, chEx, avEx,
      Ratio(a.chargeable, a.available),
      if a.exclRows == 0 then None else Ratio(a.chargeableExcl, a.availableExcl))
  }

  /** `compute_aggregates`: one entry per group with a non-vacation row (unmapped rows
      under (None, None)); vacation rows count nowhere; `util_excl_missing` leaves out
      missing-timesheet rows; a ratio is empty when its denominator is 0. */
  function ComputeAggregates(rows: seq<EnrichedRow>): (out: map<GroupKey, GroupTotals>)
    ensures forall g :: g in out <==> exists i :: 0 <= i < |rows| && !rows[i].vacation && KeyOf(rows[i]) == g
    ensures forall g :: g in out ==>
      var rs := GroupRows(rows, g);
      && out[g].totalChargeable == SumChargeable(rs)
      && out[g].totalAvailable == SumAvailable(rs)
      && out[g].headcount == |Gpns(rs)|
      && out[g].missingTimesheets == CountMissing(rs)
      && out[g].utilAll == Ratio(SumChargeable(rs), SumAvailable(rs))
      && out[g].utilExcl == (if NonMissing(rs) == [] then None
                             else Ratio(SumChargeable(NonMissing(rs)), SumAvailable(NonMissing(rs))))
    ensures forall g :: g in out ==>
      var ex := NonMissing(GroupRows(rows, g));
      && out[g].totalChargeableExcl == (if ex == [] then None else Some(SumChargeable(ex)))
      && out[g].totalAvailableExcl == (if ex == [] then None else Some(SumAvailable(ex)))
  {
    var m := Fold(rows);
    forall g ensures g in m <==> GroupRows(rows, g) != [] {
      FoldIsGroupSums(rows, g);
    }
    forall g | g in m ensures m[g] == AccOf(GroupRows(rows, g)) {
      FoldIsGroupSums(rows, g);
    }
    map g | g in m :: TotalsOf(m[g])
  }

  /** The worked example: 40h available / 20h chargeable with a missing timesheet, and
      40h / 40h, in one unit give util_all = 0.75 and util_excl_missing = 1.0. */
  lemma AggregateExample(a: EnrichedRow, b: EnrichedRow)
    requires KeyOf(a) == KeyOf(b) && !a.vacation && !b.vacation
    requires a.row.availableHours == 40.0 && a.row.chargeableHours == 20.0 && a.missingTimesheet
    requires b.row.availableHours == 40.0 && b.row.chargeableHours == 40.0 && !b.missingTimesheet
    ensures KeyOf(a) in ComputeAggregates([a, b])
    ensures ComputeAggregates([a, b])[KeyOf(a)].utilAll == Some(0.75)
    ensures ComputeAggregates([a, b])[KeyOf(a)].utilExcl == Some(1.0)
  {
    var rows, g := [a, b], KeyOf(a);
    assert rows[..1] == [a];
    assert [a][..0] == [];
    var rs := GroupRows(rows, g);
    assert rs == [a, b];
    assert SumChargeable([a]) == SumChargeable([]) + 20.0;
    assert SumAvailable([a]) == SumAvailable([]) + 40.0;
    assert SumChargeable(rs) == 60.0 && SumAvailable(rs) == 80.0;
    assert NonMissing([a]) == [];
    assert NonMissing(rs) == [b];
    assert [b][..0] == [];
    assert SumChargeable([b]) == SumChargeable([]) + 40.0;
    assert SumAvailable([b]) == SumAvailable([]) + 40.0;
    var out := ComputeAggregates(rows);
    assert g in out;
    assert out[g].utilAll == Ratio(60.0, 80.0);
    assert out[g].utilExcl == Ratio(40.0, 40.0);
  }

  // ---------------------------------------------------------------------------
  // Week metadata and output directory names
  // ---------------------------------------------------------------------------

  /** One row of the week configuration sheet. */
  datatype WeekConfigRow = WeekConfigRow(
    shortKey: Option<string>,
    exportFormat: Option<string>,
    longFormat: Option<string>,
    realWeek: Option<string>,
    startDate: Option<string>,
    endDate: Option<string>)

  datatype WeekMeta = WeekMeta(
    shortKey: string,
    exportFormat: string,
    longFormat: string,
    realWeek: string,
    startDate: string,
    endDate: string)

  /** The `export_format_norm` comparison. */
  predicate WeekMatches(row: WeekConfigRow, week: string)
  {
    NormWeek(Some(CellText(row.exportFormat))) == week
  }

  function FirstWeekMatch(cfg: seq<WeekConfigRow>, week: string): (i: nat)
    ensures i <= |cfg|
    ensures i < |cfg| ==> WeekMatches(cfg[i], week)
    ensures forall k :: 0 <= k < i ==> !WeekMatches(cfg[k], week)
  {
    if |cfg| == 0 then 0
    else if WeekMatches(cfg[0], week) then 0
    else 1 + FirstWeekMatch(cfg[1..], week)
  }

  function MetaOf(row: WeekConfigRow): WeekMeta
  {
    WeekMeta(
      Strip(CellText(row.shortKey)), Strip(CellText(row.exportFormat)), Strip(CellText(row.longFormat)),
      Strip(CellText(row.realWeek)), Strip(CellText(row.startDate)), Strip(CellText(row.endDate)))
  }

  /** `resolve_week_meta`: raises on an empty configuration, on a week that normalises to
      "", and when no row matches; otherwise reads the first matching row. */
  function ResolveWeekMeta(week: Option<string>, cfg: seq<WeekConfigRow>): (r: Result<WeekMeta, EtlError>)
    ensures |cfg| == 0 ==> r == Err(EmptyWeekConfig)
    ensures |cfg| > 0 && NormWeek(week) == "" ==> r == Err(EmptyWeek)
    ensures |cfg| > 0 && NormWeek(week) != "" && (forall k :: 0 <= k < |cfg| ==> !WeekMatches(cfg[k], NormWeek(week))) ==>
      r == Err(WeekNotFound(NormWeek(week)))
    ensures r.Ok? ==> exists i :: (0 <= i < |cfg| && WeekMatches(cfg[i], NormWeek(week))
      && (forall k :: 0 <= k < i ==> !WeekMatches(cfg[k], NormWeek(week))) && r.value == MetaOf(cfg[i]))
  {
    var w := NormWeek(week);
    if |cfg| == 0 then Err(EmptyWeekConfig)
    else if w == "" then Err(EmptyWeek)
    else
      var i := FirstWeekMatch(cfg, w);
      if i == |cfg| then Err(WeekNotFound(w)) else Ok(MetaOf(cfg[i]))
  }

  /** The first non-missing Week value of the export, normalised. */
  function FirstWeek(rows: seq<ExportRow>): (w: Option<string>)
    ensures w.Some? ==> exists i :: (0 <= i < |rows| && rows[i].week == w
      && forall k :: 0 <= k < i ==> rows[k].week.None?)
    ensures w.None? ==> forall k :: 0 <= k < |rows| ==> rows[k].week.None?
  {
    if |rows| == 0 then None
    else if rows[0].week.Some? then rows[0].week
    else FirstWeek(rows[1..])
  }

  /** The week pick of `run_etl`: the first Week value, which must not normalise to "". */
  function PickWeek(rows: seq<ExportRow>): (r: Result<string, EtlError>)
    ensures r.Ok? <==> FirstWeek(rows).Some? && NormWeek(FirstWeek(rows)) != ""
    ensures r.Ok? ==> r.value == NormWeek(FirstWeek(rows)) && r.value != ""
    ensures r.Err? ==> r.error == WeekColumnMissing
  {
    var w := FirstWeek(rows);
    if w.Some? && NormWeek(w) != "" then Ok(NormWeek(w)) else Err(WeekColumnMissing)
  }

  /** `get_output_dir.sanitize`: "UNKNOWN" for a missing part, otherwise trimmed, spaces
      turned into '_' and path separators removed. */
  function Sanitize(part: Option<string>): (r: string)
    ensures part.None? ==> r == "UNKNOWN"
    ensures ' ' !in r && '/' !in r && '\\' !in r
    ensures part.Some? ==> |r| <= |part.value|
    ensures part.Some? ==> r == Filter(ReplaceChar(Strip(part.value), ' ', '_'), PathSafe)
  {
    match part
    case None => "UNKNOWN"
    case Some(s) =>
      var u := ReplaceChar(Strip(s), ' ', '_');
      RemoveSeparators(u);
      RemoveChar(RemoveChar(u, '/'), '\\')
  }

  /** A character that is not a path separator. */
  predicate PathSafe(c: char)
  {
    c != '/' && c != '\\'
  }

  /** Removing '/' and then '\\' keeps exactly the other characters, in order. */
  lemma {:induction false} RemoveSeparators(s: string)
    ensures RemoveChar(RemoveChar(s, '/'), '\\') == Filter(s, PathSafe)
  {
    if |s| > 0 {
      RemoveSeparators(s[1..]);
      if s[0] != '/' {
        var t := RemoveChar(s[1..], '/');
        assert ([s[0]] + t)[0] == s[0] && ([s[0]] + t)[1..] == t;
      }
    }
  }

  /** A name with nothing to clean is kept as it is. */
  lemma {:induction false} SanitizeKeepsSafeNames(s: string)
    requires Trimmed(s) && ' ' !in s && '/' !in s && '\\' !in s
    ensures Sanitize(Some(s)) == s
  {
    StripTrimmed(s);
    ReplaceCharAbsent(s, ' ', '_');
    RemoveAbsent(s, '/');
    RemoveAbsent(s, '\\');
  }

  lemma {:induction false} RemoveAbsent(s: string, c: char)
    requires c !in s
    ensures RemoveChar(s, c) == s
  {
    if |s| > 0 {
      RemoveAbsent(s[1..], c);
    }
  }

  /** The `<BU>_<SSL>` directory name: one path component, never a separator in it. */
  function UnitDirName(bu: Option<string>, ssl: Option<string>): (r: string)
    ensures '/' !in r && '\\' !in r
  {
    Sanitize(bu) + "_" + Sanitize(ssl)
  }

  // ---------------------------------------------------------------------------
  // The pipeline
  // ---------------------------------------------------------------------------

  datatype EtlOutput = EtlOutput(rows: seq<EnrichedRow>, totals: map<GroupKey, GroupTotals>, weekMeta: WeekMeta)

  /** `run_etl` with the org and week configurations passed in: load, pick and resolve
      the week, map, enrich, aggregate; the first failing step decides the error. */
  method RunEtl(t: RawTable, org: seq<BuConfig>, weekCfg: seq<WeekConfigRow>) returns (r: Result<EtlOutput, EtlError>)
    ensures LoadPowerBiExport(t).Err? ==> r == Err(LoadPowerBiExport(t).error)
    ensures LoadPowerBiExport(t).Ok? && PickWeek(LoadPowerBiExport(t).value).Err? ==> r == Err(WeekColumnMissing)
    ensures LoadPowerBiExport(t).Ok? && PickWeek(LoadPowerBiExport(t).value).Ok? ==>
      var meta := ResolveWeekMeta(Some(PickWeek(LoadPowerBiExport(t).value).value), weekCfg);
      && (meta.Err? ==> r == Err(meta.error))
      && (meta.Ok? ==> r.Ok? && r.value.weekMeta == meta.value)
    ensures r.Ok? ==>
      && r.value.rows == Enrich(MapRows(LoadPowerBiExport(t).value, LookupOf(Entries(org))))
      && r.value.totals == ComputeAggregates(r.value.rows)
  {
    var loaded := LoadPowerBiExport(t);
    if loaded.Err? {
      return Err(loaded.error);
    }
    var week := PickWeek(loaded.value);
    if week.Err? {
      return Err(week.error);
    }
    var meta := ResolveWeekMeta(Some(week.value), weekCfg);
    if meta.Err? {
      return Err(meta.error);
    }
    var mapped := MapCompetencyToSsl(loaded.value, org);
    var rows := Enrich(mapped);
    r := Ok(EtlOutput(rows, ComputeAggregates(rows), meta.value));
  }
}
