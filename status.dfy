/** The status rules shared by the spreadsheet, PDF and HTML renderers: the boolean
    coercion of roster and frame cells, the five statuses with their precedence, and
    the per-row fallback a renderer uses when a row carries no status. */
module Status {
  import opened Cells
  import opened Strings

  /** The spellings read as true once trimmed and lower-cased. */
  const TrueWords: set<string> := {"true", "1", "yes", "y", "t"}

  /** The spellings the source lists as false; every other spelling is false too. */
  const FalseWords: set<string> := {"false", "0", "no", "n", "f"}

  /** `_coerce_bool` / `_bool_from_str`: a missing cell is false; any other cell is true
      exactly when its text, trimmed and lower-cased, is one of the true spellings. */
  function CoerceBool(v: Option<string>): (b: bool)
    ensures v.None? ==> !b
    ensures v.Some? ==> (b <==> Lower(Strip(v.value)) in TrueWords)
  {
    match v
    case None => false
    case Some(s) =>
      var n := Lower(Strip(s));
      if n in TrueWords then true
      else if n in FalseWords then false
      else false
  }

  /** `str(b)` of a Python bool. */
  function BoolText(b: bool): string
  {
    if b then "True" else "False"
  }

  /** A boolean written out by pandas reads back as the same boolean. */
  lemma CoerceBoolText(b: bool)
    ensures CoerceBool(Some(BoolText(b))) == b
  {
    if b {
      NormalTrue();
    } else {
      NormalFalse();
    }
  }

  /** "True", trimmed and lower-cased, is "true". */
  lemma NormalTrue()
    ensures Lower(Strip("True")) == "true"
  {
    var l := Lower("True");
    assert l[0] == 't' && l[1] == 'r' && l[2] == 'u' && l[3] == 'e';
    NormalOfTrimmed("True", "true");
  }

  /** "False", trimmed and lower-cased, is "false". */
  lemma NormalFalse()
    ensures Lower(Strip("False")) == "false"
  {
    var l := Lower("False");
    assert l[0] == 'f' && l[1] == 'a' && l[2] == 'l' && l[3] == 's' && l[4] == 'e';
    NormalOfTrimmed("False", "false");
  }

  /** A trimmed text is normalised by lower-casing alone. */
  lemma NormalOfTrimmed(s: string, t: string)
    requires Trimmed(s) && Lower(s) == t
    ensures Lower(Strip(s)) == t
  {
    StripTrimmed(s);
  }

  /** The float NaN of an empty cell prints as "nan", which is false. */
  lemma CoerceBoolNaN()
    ensures !CoerceBool(Some(CellText(None)))
  {
    NormalizedNaN();
    assert CellText(None) !in TrueWords;
  }

  lemma NormalizedNaN()
    ensures Lower(Strip(CellText(None))) == CellText(None)
  {
    var nan := CellText(None);
    StripTrimmed(nan);
    LowerOfLowercase(nan);
  }

  /** Surrounding whitespace never changes the reading. */
  lemma CoerceBoolIgnoresPadding(s: string)
    ensures CoerceBool(Some(s)) == CoerceBool(Some(Strip(s)))
  {
    StripIdempotent(s);
  }

  /** The statuses of a roster member, most important first. */
  datatype Status = OnLeave | Vacation | MissingTimesheet | Unmapped | Normal

  /** The text the detail frame stores and the renderers compare against. */
  function Label(s: Status): (l: string)
    ensures |l| > 0 && Trimmed(l)
  {
    match s
    case OnLeave => "On leave"
    case Vacation => "Vacation"
    case MissingTimesheet => "Missing timesheet"
    case Unmapped => "Unmapped"
    case Normal => "Normal"
  }

  /** Reads a label back; any other text is no status. */
  function StatusOfLabel(l: string): (s: Option<Status>)
    ensures s.Some? ==> Label(s.value) == l
  {
    if l == "On leave" then Some(OnLeave)
    else if l == "Vacation" then Some(Vacation)
    else if l == "Missing timesheet" then Some(MissingTimesheet)
    else if l == "Unmapped" then Some(Unmapped)
    else if l == "Normal" then Some(Normal)
    else None
  }

  /** Labels are distinct: reading a label back gives its status. */
  lemma LabelRoundTrip(s: Status)
    ensures StatusOfLabel(Label(s)) == Some(s)
  {
  }

  /** The four conditions a status is derived from. */
  datatype Flags = Flags(onLeave: bool, vacation: bool, missingTimesheet: bool, unmapped: bool)

  /** Whether the condition behind a status holds; Normal always applies. */
  predicate Raised(f: Flags, s: Status)
  {
    match s
    case OnLeave => f.onLeave
    case Vacation => f.vacation
    case MissingTimesheet => f.missingTimesheet
    case Unmapped => f.unmapped
    case Normal => true
  }

  /** Position in the precedence order On leave > Vacation > Missing timesheet > Unmapped > Normal. */
  function Rank(s: Status): nat
  {
    match s
    case OnLeave => 4
    case Vacation => 3
    case MissingTimesheet => 2
    case Unmapped => 1
    case Normal => 0
  }

  /** The highest-ranked status whose condition holds. */
  function Precedence(f: Flags): (s: Status)
    ensures Raised(f, s)
    ensures forall t :: Rank(t) > Rank(s) ==> !Raised(f, t)
  {
    if f.onLeave then OnLeave
    else if f.vacation then Vacation
    else if f.missingTimesheet then MissingTimesheet
    else if f.unmapped then Unmapped
    else Normal
  }

  /** Any status raised and outranking every other raised status is the precedence result. */
  lemma PrecedenceUnique(f: Flags, s: Status)
    requires Raised(f, s)
    requires forall t :: Rank(t) > Rank(s) ==> !Raised(f, t)
    ensures Precedence(f) == s
  {
    var p := Precedence(f);
    assert Rank(p) <= Rank(s);
    assert Rank(s) <= Rank(p);
  }

  /** The worked example: a vacation row with an unmapped competency shows "Vacation". */
  lemma VacationBeatsUnmapped(f: Flags)
    requires !f.onLeave && f.vacation && f.unmapped
    ensures Precedence(f) == Vacation
  {
  }

  /** `Series.mask(cond, v)`: `v` where the condition holds, the old value elsewhere. */
  function Mask(s: seq<Status>, cond: seq<bool>, v: Status): (r: seq<Status>)
    requires |cond| == |s|
    ensures |r| == |s|
    ensures forall i :: 0 <= i < |s| ==> r[i] == (if cond[i] then v else s[i])
  {
    seq(|s|, i requires 0 <= i < |s| => if cond[i] then v else s[i])
  }

  function OnLeaveColumn(fs: seq<Flags>): (c: seq<bool>)
    ensures |c| == |fs| && forall i :: 0 <= i < |fs| ==> c[i] == fs[i].onLeave
  {
    seq(|fs|, i requires 0 <= i < |fs| => fs[i].onLeave)
  }

  function VacationColumn(fs: seq<Flags>): (c: seq<bool>)
    ensures |c| == |fs| && forall i :: 0 <= i < |fs| ==> c[i] == fs[i].vacation
  {
    seq(|fs|, i requires 0 <= i < |fs| => fs[i].vacation)
  }

  function MissingColumn(fs: seq<Flags>): (c: seq<bool>)
    ensures |c| == |fs| && forall i :: 0 <= i < |fs| ==> c[i] == fs[i].missingTimesheet
  {
    seq(|fs|, i requires 0 <= i < |fs| => fs[i].missingTimesheet)
  }

  function UnmappedColumn(fs: seq<Flags>): (c: seq<bool>)
    ensures |c| == |fs| && forall i :: 0 <= i < |fs| ==> c[i] == fs[i].unmapped
  {
    seq(|fs|, i requires 0 <= i < |fs| => fs[i].unmapped)
  }

  /** The status column of `build_ssl_dataset`: start from "Normal" and overwrite it with
      four masks, lowest precedence first; each row ends with its precedence status. */
  method MaskChain(fs: seq<Flags>) returns (status: seq<Status>)
    ensures |status| == |fs|
    ensures forall i :: 0 <= i < |fs| ==> status[i] == Precedence(fs[i])
  {
    status := seq(|fs|, i => Normal);
    status := Mask(status, UnmappedColumn(fs), Unmapped);
    status := Mask(status, MissingColumn(fs), MissingTimesheet);
    status := Mask(status, VacationColumn(fs), Vacation);
    status := Mask(status, OnLeaveColumn(fs), OnLeave);
  }

  /** A rendered value whose `float()` conversion is attempted: a number, NaN, or
      something the conversion rejects. */
  type NumberCell = UtilCell

  /** The fields of a frame row `_status_from_row` looks at. A text field is None when
      the row has no such value; `status` is None unless it holds a string. */
  datatype StatusRow = StatusRow(
    status: Option<string>,
    onLeaveMaster: Option<string>,
    inactiveLeave: Option<string>,
    availableHours: NumberCell,
    missingTimesheet: Option<string>,
    unmappedCompetency: Option<string>)

  /** The conditions of the fallback: vacation needs a readable number that is at most 0. */
  function RowFlags(r: StatusRow): (f: Flags)
    ensures f.onLeave <==> CoerceBool(r.onLeaveMaster) || CoerceBool(r.inactiveLeave)
    ensures f.vacation <==> r.availableHours.UNum? && r.availableHours.x <= 0.0
    ensures f.missingTimesheet <==> CoerceBool(r.missingTimesheet)
    ensures f.unmapped <==> CoerceBool(r.unmappedCompetency)
  {
    Flags(
      CoerceBool(r.onLeaveMaster) || CoerceBool(r.inactiveLeave),
      r.availableHours.UNum? && r.availableHours.x <= 0.0,
      CoerceBool(r.missingTimesheet),
      CoerceBool(r.unmappedCompetency))
  }

  /** `_status_from_row` (identical in the PDF and HTML renderers): a non-blank status
      string is returned as it is; otherwise the precedence of the row's conditions. */
  function StatusFromRow(r: StatusRow): (s: string)
    ensures r.status.Some? && Strip(r.status.value) != "" ==> s == r.status.value
    ensures !(r.status.Some? && Strip(r.status.value) != "") ==> s == Label(Precedence(RowFlags(r)))
  {
    if r.status.Some? && Strip(r.status.value) != "" then r.status.value
    else Label(Precedence(RowFlags(r)))
  }

  /** Every row gets a non-blank status. */
  lemma StatusFromRowNonBlank(r: StatusRow)
    ensures Strip(StatusFromRow(r)) != ""
  {
    if !(r.status.Some? && Strip(r.status.value) != "") {
      StripTrimmed(Label(Precedence(RowFlags(r))));
    }
  }

  /** A row that already carries a status label keeps that status in every renderer. */
  lemma StatusFromLabelledRow(r: StatusRow, s: Status)
    requires r.status == Some(Label(s))
    ensures StatusFromRow(r) == Label(s)
  {
    StripTrimmed(Label(s));
  }
}
