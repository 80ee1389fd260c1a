/** src/render_excel.py: the per-unit employee table (roster joined to the export,
    with its status chain), the summary counts, the column-width rule and the Excel
    table name. */
module RenderExcel {
  import opened Cells
  import opened Strings
  import opened Frames
  import opened Status
  import Etl

  // ---------------------------------------------------------------------------
  // The roster join
  // ---------------------------------------------------------------------------

  /** One row of the master roster; every cell may be empty. */
  datatype RosterEntry = RosterEntry(
    gpn: Option<string>,
    bu: Option<string>,
    ssl: Option<string>,
    active: Option<string>,
    onLeave: Option<string>,
    displayName: Option<string>,
    rankBucket: Option<string>,
    notes: Option<string>)

  /** The roster GPN as the join sees it: `astype(str).str.strip()`. */
  function MemberGpn(m: RosterEntry): string
  {
    Strip(CellText(m.gpn))
  }

  /** Active members whose trimmed BU and SSL are the requested pair. */
  predicate ActiveIn(m: RosterEntry, bu: string, ssl: string)
  {
    CoerceBool(m.active) && Strip(CellText(m.bu)) == bu && Strip(CellText(m.ssl)) == ssl
  }

  /** The base rows of the table, in roster order. */
  function ActiveMembers(master: seq<RosterEntry>, bu: string, ssl: string): (ms: seq<RosterEntry>)
    ensures forall k :: 0 <= k < |ms| ==> ms[k] in master && ActiveIn(ms[k], bu, ssl)
    ensures forall k :: 0 <= k < |master| && ActiveIn(master[k], bu, ssl) ==> master[k] in ms
  {
    Filter(master, m => ActiveIn(m, bu, ssl))
  }

  /** The export rows with a given GPN, in export order. */
  function Matches(gpn: string, raw: seq<Etl.EnrichedRow>): (rs: seq<Etl.EnrichedRow>)
    ensures forall k :: 0 <= k < |rs| ==> rs[k] in raw && rs[k].row.gpn == gpn
    ensures |rs| == 0 <==> NoMatch(gpn, raw)
  {
    var rs := Filter(raw, (e: Etl.EnrichedRow) => e.row.gpn == gpn);
    assert |rs| != 0 ==> rs[0] in raw;
    rs
  }

  /** No export row carries the GPN. */
  predicate NoMatch(gpn: string, raw: seq<Etl.EnrichedRow>)
  {
    forall k :: 0 <= k < |raw| ==> raw[k].row.gpn != gpn
  }

  /** A roster member with one matching export row, or with none. */
  datatype Joined = Joined(member: RosterEntry, key: string, matched: Option<Etl.EnrichedRow>)

  /** A joined row names an export row only when that row carries the member's GPN, and
      names none only when no export row carries it. */
  predicate JoinedWell(j: Joined, raw: seq<Etl.EnrichedRow>)
  {
    && (j.matched.Some? ==> j.matched.value in raw && j.matched.value.row.gpn == j.key)
    && (j.matched.None? ==> NoMatch(j.key, raw))
  }

  /** The member paired with each of its matching export rows. */
  function Pair(m: RosterEntry, key: string, rs: seq<Etl.EnrichedRow>): (js: seq<Joined>)
    ensures |js| == |rs|
    ensures forall k :: 0 <= k < |js| ==> js[k] == Joined(m, key, Some(rs[k]))
  {
    if |rs| == 0 then [] else [Joined(m, key, Some(rs[0]))] + Pair(m, key, rs[1..])
  }

  function JoinOne(m: RosterEntry, raw: seq<Etl.EnrichedRow>): (js: seq<Joined>)
    ensures |js| >= 1
    ensures forall k :: 0 <= k < |js| ==> js[k].member == m && js[k].key == MemberGpn(m) && JoinedWell(js[k], raw)
  {
    var key := MemberGpn(m);
    var rs := Matches(key, raw);
    if |rs| == 0 then [Joined(m, key, None)]
    else Pair(m, key, rs)
  }

  /** A joined row of one of `members`, keyed by its GPN and consistent with the export. */
  predicate JoinedFrom(j: Joined, members: seq<RosterEntry>, raw: seq<Etl.EnrichedRow>)
  {
    j.member in members && j.key == MemberGpn(j.member) && JoinedWell(j, raw)
  }

  /** `active_master.merge(raw_small, left_on="gpn", right_on="GPN", how="left")`:
      every member in order, repeated once per matching export row, or once with no
      match; each joined row belongs to one of the members and is consistent with the
      export. */
  function LeftJoin(members: seq<RosterEntry>, raw: seq<Etl.EnrichedRow>): (js: seq<Joined>)
    ensures |js| >= |members|
    ensures forall k :: 0 <= k < |js| ==> JoinedFrom(js[k], members, raw)
  {
    if |members| == 0 then []
    else
      var head, tail := JoinOne(members[0], raw), LeftJoin(members[1..], raw);
      JoinedFromAppend(members, raw, head, tail);
      head + tail
  }

  /** The rows of the first member joined with those of the rest all belong to the
      members. */
  lemma JoinedFromAppend(members: seq<RosterEntry>, raw: seq<Etl.EnrichedRow>, head: seq<Joined>, tail: seq<Joined>)
    requires |members| > 0
    requires forall k :: 0 <= k < |head| ==>
      head[k].member == members[0] && head[k].key == MemberGpn(members[0]) && JoinedWell(head[k], raw)
    requires forall k :: 0 <= k < |tail| ==> JoinedFrom(tail[k], members[1..], raw)
    ensures forall k :: 0 <= k < |head + tail| ==> JoinedFrom((head + tail)[k], members, raw)
  {
    forall k | 0 <= k < |head + tail|
      ensures JoinedFrom((head + tail)[k], members, raw)
    {
      if k < |head| {
        assert (head + tail)[k] == head[k];
      } else {
        assert (head + tail)[k] == tail[k - |head|];
        InTail(members, tail[k - |head|].member);
      }
    }
  }

  /** The GPN of export row `i`. */
  function GpnAt(raw: seq<Etl.EnrichedRow>, i: nat): string
    requires i < |raw|
  {
    raw[i].row.gpn
  }

  /** Export GPNs are unique. */
  predicate UniqueGpns(raw: seq<Etl.EnrichedRow>)
  {
    forall i, j :: 0 <= i < j < |raw| ==> GpnAt(raw, i) != GpnAt(raw, j)
  }

  lemma {:induction false} MatchesAtMostOne(gpn: string, raw: seq<Etl.EnrichedRow>)
    requires UniqueGpns(raw)
    ensures |Matches(gpn, raw)| <= 1
  {
    if |raw| > 0 {
      var rest := raw[1..];
      assert UniqueGpns(rest) by {
        forall i, j | 0 <= i < j < |rest|
          ensures GpnAt(rest, i) != GpnAt(rest, j)
        {
          assert GpnAt(raw, i + 1) != GpnAt(raw, j + 1);
        }
      }
      MatchesAtMostOne(gpn, rest);
      if raw[0].row.gpn == gpn {
        forall j | 0 <= j < |rest|
          ensures rest[j].row.gpn != gpn
        {
          assert GpnAt(raw, 0) != GpnAt(raw, j + 1);
        }
      }
    }
  }

  /** With unique export GPNs a member joins exactly one row. */
  lemma JoinOneSingle(m: RosterEntry, raw: seq<Etl.EnrichedRow>)
    requires UniqueGpns(raw)
    ensures |JoinOne(m, raw)| == 1 && JoinOne(m, raw)[0].member == m
  {
    MatchesAtMostOne(MemberGpn(m), raw);
  }

  /** The roster side of joined rows. */
  function Members(js: seq<Joined>): (ms: seq<RosterEntry>)
    ensures |ms| == |js|
    ensures forall k :: 0 <= k < |js| ==> ms[k] == js[k].member
  {
    if |js| == 0 then [] else [js[0].member] + Members(js[1..])
  }

  lemma MembersAppend(a: seq<Joined>, b: seq<Joined>)
    ensures Members(a + b) == Members(a) + Members(b)
  {
    var l, r := Members(a + b), Members(a) + Members(b);
    forall k | 0 <= k < |l|
      ensures l[k] == r[k]
    {
      ConcatIndex(a, b, k);
    }
  }

  /** The member heading the joined rows, and every later member, are among all. */
  lemma CoverStep(head: seq<Joined>, tail: seq<Joined>)
    requires |head| >= 1
    ensures head[0].member in Members(head + tail)
    ensures forall x :: x in Members(tail) ==> x in Members(head + tail)
  {
    MembersAppend(head, tail);
    assert Members(head)[0] == head[0].member;
  }

  /** Every active member has a row in the table, matched or not. */
  lemma {:induction false} LeftJoinCovers(members: seq<RosterEntry>, raw: seq<Etl.EnrichedRow>, i: nat)
    requires i < |members|
    ensures members[i] in Members(LeftJoin(members, raw))
  {
    var head, tail := JoinOne(members[0], raw), LeftJoin(members[1..], raw);
    if i > 0 {
      LeftJoinCovers(members[1..], raw, i - 1);
      assert members[1..][i - 1] == members[i];
    }
    CoverStep(head, tail);
  }

  /** With unique export GPNs the table has exactly one row per active member, in
      roster order. */
  lemma {:induction false} LeftJoinMembers(members: seq<RosterEntry>, raw: seq<Etl.EnrichedRow>)
    requires UniqueGpns(raw)
    ensures Members(LeftJoin(members, raw)) == members
  {
    if |members| > 0 {
      LeftJoinStep(members, raw);
      LeftJoinMembers(members[1..], raw);
      assert [members[0]] + members[1..] == members;
    }
  }

  /** With unique export GPNs the first member contributes one row, ahead of the rows of
      the others. */
  lemma LeftJoinStep(members: seq<RosterEntry>, raw: seq<Etl.EnrichedRow>)
    requires |members| > 0 && UniqueGpns(raw)
    ensures Members(LeftJoin(members, raw)) == [members[0]] + Members(LeftJoin(members[1..], raw))
  {
    var head, tail := JoinOne(members[0], raw), LeftJoin(members[1..], raw);
    JoinOneSingle(members[0], raw);
    MembersCons(LeftJoin(members, raw), head, tail, members[0], Members(tail));
  }

  /** One joined row followed by others contributes its member first. */
  lemma MembersCons(all: seq<Joined>, head: seq<Joined>, tail: seq<Joined>, first: RosterEntry, rest: seq<RosterEntry>)
    requires all == head + tail && |head| == 1 && head[0].member == first && Members(tail) == rest
    ensures Members(all) == [first] + rest
  {
    MembersAppend(head, tail);
    assert Members(head) == [head[0].member];
  }

  /** The same, row by row. */
  lemma LeftJoinOnePerMember(members: seq<RosterEntry>, raw: seq<Etl.EnrichedRow>)
    requires UniqueGpns(raw)
    ensures |LeftJoin(members, raw)| == |members|
    ensures forall k :: 0 <= k < |members| ==> LeftJoin(members, raw)[k].member == members[k]
  {
    LeftJoinMembers(members, raw);
  }

  // ---------------------------------------------------------------------------
  // The detail table
  // ---------------------------------------------------------------------------

  /** One row of the Employees sheet. */
  datatype DetailRow = DetailRow(
    gpn: string,
    displayName: Option<string>,
    rankBucket: Option<string>,
    bu: Option<string>,
    ssl: Option<string>,
    competency: Option<string>,
    employeeStatus: Option<string>,
    availableHours: Option<real>,
    chargeableHours: Option<real>,
    util: Option<real>,
    missingTimesheet: bool,
    vacation: bool,
    inactiveLeave: bool,
    unmappedCompetency: bool,
    onLeaveMaster: bool,
    status: Status,
    notes: Option<string>)

  /** The four conditions of a joined row; a flag of a member missing from the export is
      false (`fillna(False)`), and such a member counts as on leave. */
  function JoinedFlags(j: Joined): (f: Flags)
    ensures f.onLeave <==> CoerceBool(j.member.onLeave) || j.matched.None? || j.matched.value.inactiveLeave
    ensures f.vacation <==> j.matched.Some? && j.matched.value.vacation
    ensures f.missingTimesheet <==> j.matched.Some? && j.matched.value.missingTimesheet
    ensures f.unmapped <==> j.matched.Some? && j.matched.value.unmapped
  {
    match j.matched
    case None => Flags(true, false, false, false)
    case Some(e) => Flags(CoerceBool(j.member.onLeave) || e.inactiveLeave, e.vacation, e.missingTimesheet, e.unmapped)
  }

  /** The output columns of one joined row with its status. */
  function DetailOf(j: Joined, status: Status): (d: DetailRow)
    ensures d.gpn == MemberGpn(j.member) && d.status == status
    ensures d.displayName == j.member.displayName && d.rankBucket == j.member.rankBucket
    ensures d.bu == j.member.bu && d.ssl == j.member.ssl && d.notes == j.member.notes
    ensures d.missingTimesheet <==> j.matched.Some? && j.matched.value.missingTimesheet
    ensures d.vacation <==> j.matched.Some? && j.matched.value.vacation
    ensures d.unmappedCompetency <==> j.matched.Some? && j.matched.value.unmapped
    ensures d.inactiveLeave <==> j.matched.Some? && j.matched.value.inactiveLeave
    ensures j.matched.None? ==>
      d.competency.None? && d.employeeStatus.None? && d.availableHours.None? && d.chargeableHours.None? && d.util.None?
    ensures j.matched.Some? ==>
      var e := j.matched.value;
      && d.competency == Some(e.row.competency) && d.employeeStatus == e.row.employeeStatus
      && d.availableHours == Some(e.row.availableHours) && d.chargeableHours == Some(e.row.chargeableHours)
      && d.util == e.util
    ensures d.onLeaveMaster == CoerceBool(j.member.onLeave)
  {
    var m := j.member;
    var f := JoinedFlags(j);
    DetailRow(
      gpn := MemberGpn(m),
      displayName := m.displayName,
      rankBucket := m.rankBucket,
      bu := m.bu,
      ssl := m.ssl,
      competency := if j.matched.Some? then Some(j.matched.value.row.competency) else None,
      employeeStatus := if j.matched.Some? then j.matched.value.row.employeeStatus else None,
      availableHours := if j.matched.Some? then Some(j.matched.value.row.availableHours) else None,
      chargeableHours := if j.matched.Some? then Some(j.matched.value.row.chargeableHours) else None,
      util := if j.matched.Some? then j.matched.value.util else None,
      missingTimesheet := f.missingTimesheet,
      vacation := f.vacation,
      inactiveLeave := j.matched.Some? && j.matched.value.inactiveLeave,
      unmappedCompetency := f.unmapped,
      onLeaveMaster := CoerceBool(m.onLeave),
      status := status,
      notes := m.notes)
  }

  /** The table `build_ssl_dataset` returns, each row with the precedence status of its conditions. */
  function SslDataset(master: seq<RosterEntry>, raw: seq<Etl.EnrichedRow>, bu: string, ssl: string): (ds: seq<DetailRow>)
    ensures |ds| == |LeftJoin(ActiveMembers(master, bu, ssl), raw)|
    ensures forall i :: 0 <= i < |ds| ==>
      var j := LeftJoin(ActiveMembers(master, bu, ssl), raw)[i];
      ds[i] == DetailOf(j, Precedence(JoinedFlags(j)))
  {
    var js := LeftJoin(ActiveMembers(master, bu, ssl), raw);
    seq(|js|, i requires 0 <= i < |js| => DetailOf(js[i], Precedence(JoinedFlags(js[i]))))
  }

  /** `build_ssl_dataset`: join, then derive the status column by the four-mask chain. */
  method BuildSslDataset(master: seq<RosterEntry>, raw: seq<Etl.EnrichedRow>, bu: string, ssl: string)
    returns (detail: seq<DetailRow>)
    ensures detail == SslDataset(master, raw, bu, ssl)
  {
    var active := ActiveMembers(master, bu, ssl);
    var merged := LeftJoin(active, raw);
    var flags := seq(|merged|, i requires 0 <= i < |merged| => JoinedFlags(merged[i]));
    var status := MaskChain(flags);
    detail := seq(|merged|, i requires 0 <= i < |merged| => DetailOf(merged[i], status[i]));
    ghost var expected := SslDataset(master, raw, bu, ssl);
    forall i | 0 <= i < |detail|
      ensures detail[i] == expected[i]
    {
      assert status[i] == Precedence(JoinedFlags(merged[i]));
    }
  }

  /** Every row of the table is an active member of the unit, and a member absent from
      the export is always "On leave". */
  lemma DatasetRows(master: seq<RosterEntry>, raw: seq<Etl.EnrichedRow>, bu: string, ssl: string, i: nat)
    requires i < |SslDataset(master, raw, bu, ssl)|
    ensures var d := SslDataset(master, raw, bu, ssl)[i];
      && (exists m :: m in master && ActiveIn(m, bu, ssl) && d.gpn == MemberGpn(m))
      && ((forall k :: 0 <= k < |raw| ==> raw[k].row.gpn != d.gpn) ==> d.status == OnLeave)
  {
    var j := LeftJoin(ActiveMembers(master, bu, ssl), raw)[i];
    var d := SslDataset(master, raw, bu, ssl)[i];
    if forall k :: 0 <= k < |raw| ==> raw[k].row.gpn != d.gpn {
      assert j.matched.None?;
    }
  }

  /** A row is "On leave" exactly when the roster says so, the export marks the member
      inactive, or the member is missing from the export. */
  lemma DatasetOnLeave(master: seq<RosterEntry>, raw: seq<Etl.EnrichedRow>, bu: string, ssl: string, i: nat)
    requires i < |SslDataset(master, raw, bu, ssl)|
    ensures var d := SslDataset(master, raw, bu, ssl)[i];
      (d.status == OnLeave <==> (d.onLeaveMaster || d.inactiveLeave
        || forall k :: 0 <= k < |raw| ==> raw[k].row.gpn != d.gpn))
  {
  }

  // ---------------------------------------------------------------------------
  // The summary
  // ---------------------------------------------------------------------------

  datatype Summary = Summary(
    weekKey: string,
    exportFormat: string,
    period: string,
    utilAll: Option<real>,
    utilExclMissing: Option<real>,
    headcount: nat,
    present: nat,
    missing: int,
    missingTimesheets: nat,
    vacation: nat,
    onLeave: nat)

  datatype SummaryError = MasterDfMissing

  /** The GPNs present in the export. */
  function RawGpns(raw: seq<Etl.EnrichedRow>): (g: set<string>)
    ensures forall x :: x in g <==> exists k :: 0 <= k < |raw| && raw[k].row.gpn == x
  {
    set k | 0 <= k < |raw| :: raw[k].row.gpn
  }

  /** The unit's ratios, read from the aggregate of the unit's key; both empty when the
      unit has no aggregate. */
  function UnitUtil(totals: map<Etl.GroupKey, Etl.GroupTotals>, bu: string, ssl: string): (u: (Option<real>, Option<real>))
    ensures Etl.GroupKey(Some(bu), Some(ssl)) !in totals ==> u == (None, None)
    ensures Etl.GroupKey(Some(bu), Some(ssl)) in totals ==>
      var t := totals[Etl.GroupKey(Some(bu), Some(ssl))];
      u == (t.utilAll, t.utilExcl)
  {
    var key := Etl.GroupKey(Some(bu), Some(ssl));
    if key in totals then (totals[key].utilAll, totals[key].utilExcl) else (None, None)
  }

  /** `build_ssl_summary`: fails without a roster; otherwise the counts of the unit's
      table. Present plus missing is the headcount, and every member missing from the
      export is among those on leave. */
  method BuildSslSummary(
    totals: map<Etl.GroupKey, Etl.GroupTotals>, raw: seq<Etl.EnrichedRow>, bu: string, ssl: string,
    meta: Etl.WeekMeta, master: Option<seq<RosterEntry>>)
    returns (r: Result<Summary, SummaryError>)
    ensures master.None? <==> r == Err(MasterDfMissing)
    ensures r.Ok? ==>
      var detail := SslDataset(master.value, raw, bu, ssl);
      var s := r.value;
      && s.headcount == |detail|
      && s.present == Count(detail, (d: DetailRow) => d.gpn in RawGpns(raw))
      && s.present + s.missing == s.headcount
      && 0 <= s.present <= s.headcount
      && s.missing <= s.onLeave
      && s.onLeave == Count(detail, (d: DetailRow) => d.status == OnLeave)
      && s.missingTimesheets == Count(detail, (d: DetailRow) => d.missingTimesheet)
      && s.vacation == Count(detail, (d: DetailRow) => d.vacation)
      && (s.utilAll, s.utilExclMissing) == UnitUtil(totals, bu, ssl)
      && s.weekKey == meta.shortKey && s.exportFormat == meta.exportFormat
      && s.period == meta.startDate + " - " + meta.endDate
  {
    var util := UnitUtil(totals, bu, ssl);
    var rawGpns := RawGpns(raw);
    if master.None? {
      return Err(MasterDfMissing);
    }
    var detail := BuildSslDataset(master.value, raw, bu, ssl);
    var isPresent := (d: DetailRow) => d.gpn in rawGpns;
    var isAbsent := (d: DetailRow) => d.gpn !in rawGpns;
    var isOnLeave := (d: DetailRow) => d.status == OnLeave;
    var headcount := |detail|;
    var present := Count(detail, isPresent);
    var missing := headcount - present;
    CountSplit(detail, isPresent, isAbsent);
    forall k | 0 <= k < |detail| && isAbsent(detail[k]) ensures isOnLeave(detail[k]) {
      DatasetRows(master.value, raw, bu, ssl, k);
    }
    CountMono(detail, isAbsent, isOnLeave);
    r := Ok(Summary(
      meta.shortKey, meta.exportFormat, meta.startDate + " - " + meta.endDate,
      util.0, util.1,
      headcount, present, missing,
      Count(detail, (d: DetailRow) => d.missingTimesheet),
      Count(detail, (d: DetailRow) => d.vacation),
      Count(detail, isOnLeave)));
  }

  // ---------------------------------------------------------------------------
  // Column widths and the table name
  // ---------------------------------------------------------------------------

  function Max(a: int, b: int): int { if a >= b then a else b }
  function Min(a: int, b: int): int { if a <= b then a else b }

  /** `max(len(v) for v in values)`. */
  function MaxLen(values: seq<string>): (m: nat)
    requires |values| > 0
    ensures forall k :: 0 <= k < |values| ==> |values[k]| <= m
    ensures exists k :: 0 <= k < |values| && |values[k]| == m
  {
    if |values| == 1 then |values[0]|
    else
      var rest := MaxLen(values[1..]);
      assert forall k :: 1 <= k < |values| ==> values[k] == values[1..][k - 1];
      if |values[0]| >= rest then |values[0]| else rest
  }

  /** `_best_width`: the longest value plus 2, held between the two caps; `min_w` for no values. */
  function BestWidth(values: seq<string>, minW: int, maxW: int): (w: int)
    ensures |values| == 0 ==> w == minW
    ensures w >= minW
    ensures minW <= maxW ==> w <= maxW
    ensures |values| > 0 && minW <= MaxLen(values) + 2 <= maxW ==> w == MaxLen(values) + 2
    ensures |values| > 0 && minW <= maxW < MaxLen(values) + 2 ==> w == maxW
    ensures |values| > 0 && MaxLen(values) + 2 < minW ==> w == minW
    ensures maxW < minW ==> w == minW
    ensures |values| > 0 && w > minW ==> exists k :: 0 <= k < |values| && |values[k]| + 2 >= w
  {
    if |values| == 0 then minW
    else Max(minW, Min(maxW, MaxLen(values) + 2))
  }

  /** The flag columns, which get narrow caps. */
  const FlagHeaders: set<string> :=
    {"missing_timesheet", "vacation", "inactive_leave", "unmapped_competency", "on_leave_master"}

  /** The free-text columns, which may grow to 60. */
  const WideHeaders: set<string> := {"display_name", "notes"}

  /** The unit columns, which may shrink to 8. */
  const NarrowHeaders: set<string> := {"bu", "ssl"}

  /** The caps chosen for an Employees column from its header. */
  function ColumnCaps(header: string): (caps: (int, int))
    ensures 8 <= caps.0 <= caps.1 <= 60
    ensures header in FlagHeaders ==> caps == (12, 20)
    ensures header in WideHeaders ==> caps == (10, 60)
    ensures header in NarrowHeaders ==> caps == (8, 45)
    ensures header !in FlagHeaders + WideHeaders + NarrowHeaders ==> caps == (10, 45)
  {
    var maxW := if header in WideHeaders then 60 else 45;
    var minW := if header in NarrowHeaders then 8 else 10;
    if header in FlagHeaders then (12, 20)
    else (minW, maxW)
  }

  /** Every Employees column ends up between 8 and 60 characters wide. */
  lemma ColumnWidthRange(header: string, values: seq<string>)
    ensures 8 <= BestWidth(values, ColumnCaps(header).0, ColumnCaps(header).1) <= 60
  {
  }

  /** A character an Excel table name may keep. */
  predicate TableChar(c: char)
  {
    IsAlnum(c) || c == '_'
  }

  const TablePrefix: string := "Employees_"

  /** A stem with every '-' and ' ' turned into '_'. */
  function Underscored(stem: string): (u: string)
    ensures |u| == |stem|
    ensures forall k :: 0 <= k < |stem| ==> u[k] == if stem[k] == '-' || stem[k] == ' ' then '_' else stem[k]
  {
    ReplaceChar(ReplaceChar(stem, '-', '_'), ' ', '_')
  }

  /** The Excel table name for an output file stem: '-' and ' ' become '_', other
      characters outside letters, digits and '_' are dropped, and at most 250 remain. */
  function TableName(stem: string): (name: string)
    ensures |name| <= 250
    ensures forall k :: 0 <= k < |name| ==> TableChar(name[k])
    ensures |name| >= |TablePrefix| && name[..|TablePrefix|] == TablePrefix
    ensures var full := TablePrefix + Filter(Underscored(stem), TableChar);
      name == if |full| > 250 then full[..250] else full
  {
    var t := ReplaceChar(ReplaceChar(TablePrefix + stem, '-', '_'), ' ', '_');
    var kept := Filter(t, TableChar);
    TableNamePrefix(stem);
    if |kept| > 250 then kept[..250] else kept
  }

  /** When the name is not cut, every kept character of the stem, and a '_' for every
      '-' or ' ' in it, appears in the table name. */
  lemma TableNameKeepsStem(stem: string, k: nat)
    requires |TablePrefix + Filter(Underscored(stem), TableChar)| <= 250
    requires k < |stem|
    ensures TableChar(stem[k]) ==> stem[k] in TableName(stem)
    ensures stem[k] == '-' || stem[k] == ' ' ==> '_' in TableName(stem)
  {
    var u := Underscored(stem);
    var kept := Filter(u, TableChar);
    assert TableName(stem) == TablePrefix + kept;
    if TableChar(u[k]) {
      assert u[k] in kept;
      var i :| 0 <= i < |kept| && kept[i] == u[k];
      assert (TablePrefix + kept)[|TablePrefix| + i] == u[k];
    }
  }

  /** Replacing and filtering leave the prefix in front of the cleaned stem. */
  lemma TableNamePrefix(stem: string)
    ensures var kept := Filter(ReplaceChar(ReplaceChar(TablePrefix + stem, '-', '_'), ' ', '_'), TableChar);
      && kept == TablePrefix + Filter(Underscored(stem), TableChar)
      && |kept| >= |TablePrefix| && kept[..|TablePrefix|] == TablePrefix
  {
    var s1 := ReplaceChar(stem, '-', '_');
    var s2 := ReplaceChar(s1, ' ', '_');
    PrefixSurvivesReplace(stem, '-', '_');
    PrefixSurvivesReplace(s1, ' ', '_');
    FilterAppend(TablePrefix, s2, TableChar);
    PrefixKept();
    var kept := Filter(TablePrefix + s2, TableChar);
    assert kept == TablePrefix + Filter(s2, TableChar);
    assert kept[..|TablePrefix|] == TablePrefix;
  }

  /** The prefix is made of characters a table name keeps. */
  lemma PrefixKept()
    ensures Filter(TablePrefix, TableChar) == TablePrefix
  {
    assert TablePrefix == ['E', 'm', 'p', 'l', 'o', 'y', 'e', 'e', 's', '_'];
    FilterAll(TablePrefix, TableChar);
  }

  /** Neither '-' nor ' ' occurs in the prefix, so replacing them leaves it in place. */
  lemma PrefixSurvivesReplace(s: string, a: char, b: char)
    requires a == '-' || a == ' '
    ensures ReplaceChar(TablePrefix + s, a, b) == TablePrefix + ReplaceChar(s, a, b)
  {
    assert forall k :: 0 <= k < |TablePrefix| ==> TablePrefix[k] != a;
    ReplaceCharAppend(TablePrefix, s, a, b);
    ReplaceCharAbsent(TablePrefix, a, b);
  }

  /** A short stem of letters, digits and '_' is kept as it is. */
  lemma TableNameOfCleanStem(stem: string)
    requires |stem| <= 240
    requires forall k :: 0 <= k < |stem| ==> TableChar(stem[k])
    ensures TableName(stem) == TablePrefix + stem
  {
    PrefixSurvivesReplace(stem, '-', '_');
    PrefixSurvivesReplace(stem, ' ', '_');
    assert forall k :: 0 <= k < |stem| ==> stem[k] != '-' && stem[k] != ' ';
    ReplaceCharAbsent(stem, '-', '_');
    ReplaceCharAbsent(stem, ' ', '_');
    assert forall k :: 0 <= k < |TablePrefix + stem| ==> TableChar((TablePrefix + stem)[k]);
    FilterAll(TablePrefix + stem, TableChar);
  }
}
