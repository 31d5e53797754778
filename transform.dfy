/** `transform_cons_data` of main.py: from the constituent, email and subscription tables
    to the people table. */
module Transform {
  import opened Wrappers
  import opened Seqs
  import opened Values
  import opened Frames

  /** The columns of the people table, in order. */
  const PeopleColumns: seq<string> := ["email", "code", "is_unsub", "created_dt", "updated_dt"]

  /** The first rename: `create_dt` is parked under a temporary label. */
  const Staging: map<string, string> := map["create_dt" := "created_dt_orig"]

  /** The second rename, to the people table's labels. */
  const Renames: map<string, string> := map[
    "source" := "code",
    "isunsub" := "is_unsub",
    "created_dt_orig" := "created_dt",
    "modified_dt" := "updated_dt"]

  /** The labels after both renames. */
  function RenamedLabels(cols: seq<string>): seq<string> {
    Relabelled(Relabelled(cols, Staging), Renames)
  }

  /** `fillna(False)`: a missing value becomes `False`. */
  function FillFalse(v: Value): (r: Value)
    ensures !r.Null?
    ensures !v.Null? ==> r == v
    ensures v.Null? ==> r == Bool(false)
  {
    if v.Null? then Bool(false) else v
  }

  /** `astype(bool)`: the value's truthiness. */
  function AsBool(v: Value): (r: Value)
    ensures r.Bool? && (r.b <==> Truthy(v))
    ensures v.Bool? ==> r == v
  {
    Bool(Truthy(v))
  }

  /** Whether a subscription counts as unsubscribed: a missing flag means it does not,
      any other flag by its truthiness. */
  predicate Unsubscribed(v: Value) {
    !v.Null? && Truthy(v)
  }

  /** Filling missing flags before the boolean cast is what makes a missing flag false:
      the cast alone would make it true (NaN is truthy). */
  lemma FillThenCast(v: Value)
    ensures AsBool(FillFalse(v)) == Bool(Unsubscribed(v))
    ensures v.Null? ==> AsBool(v) == Bool(true)
  {
  }

  /** The primary email rows. */
  function PrimaryEmails(email: Table): (r: Result<Table, FrameError>)
    requires WellFormed(email)
    ensures r.Failure? <==> "is_primary" !in email.columns
    ensures r.Failure? ==> r.error == MissingColumn("is_primary")
    ensures r.Success? ==> WellFormed(r.value) && r.value.columns == email.columns
    ensures r.Success? ==> forall x :: x in r.value.rows <==> x in email.rows && IsOne(Cell(email, x, "is_primary"))
  {
    Where(email, "is_primary")
  }

  /** The chapter-1 subscription rows. */
  function ChapterOne(sub: Table): (r: Result<Table, FrameError>)
    requires WellFormed(sub)
    ensures r.Failure? <==> "chapter_id" !in sub.columns
    ensures r.Failure? ==> r.error == MissingColumn("chapter_id")
    ensures r.Success? ==> WellFormed(r.value) && r.value.columns == sub.columns
    ensures r.Success? ==> forall x :: x in r.value.rows <==> x in sub.rows && IsOne(Cell(sub, x, "chapter_id"))
  {
    Where(sub, "chapter_id")
  }

  /** The first merge: constituents with their primary email. */
  function FirstJoin(cons: Table, email: Table): (r: Result<Table, FrameError>)
    requires WellFormed(cons) && WellFormed(email)
    ensures "is_primary" !in email.columns ==> r == Failure(MissingColumn("is_primary"))
    ensures r.Failure? && r.error.NotOneToOne? ==> r.error.key == "cons_id"
    ensures r.Failure? && r.error.MissingColumn? ==> r.error.name in ["is_primary", "cons_id"]
    ensures r.Success? <==>
      "is_primary" in email.columns && "cons_id" in cons.columns && "cons_id" in email.columns
      && UniqueOn(cons, "cons_id") && UniqueOn(PrimaryEmails(email).value, "cons_id")
      && Distinct(MergedLabels(cons, PrimaryEmails(email).value, "cons_id", "_email"))
    ensures r.Success? ==> WellFormed(r.value) && "cons_id" in r.value.columns && UniqueOn(r.value, "cons_id")
  {
    var primaries :- PrimaryEmails(email);
    Merge(cons, primaries, "cons_id", "_email")
  }

  /** The two renames: `create_dt` by way of `created_dt_orig` to `created_dt`, and the
      other people labels. A label either rename would duplicate stops the run. */
  function RenameStage(all: Table): (r: Result<Table, FrameError>)
    requires WellFormed(all)
    ensures r.Success? <==> Distinct(Relabelled(all.columns, Staging)) && Distinct(RenamedLabels(all.columns))
    ensures r.Failure? ==> r.error == DuplicateColumns
    ensures r.Success? ==> WellFormed(r.value) && r.value.rows == all.rows
    ensures r.Success? ==> r.value.columns == RenamedLabels(all.columns)
    ensures r.Success? ==> forall c :: c in all.columns ==>
      var name := Relabel(Relabel(c, Staging), Renames);
      name in r.value.columns && IndexOf(r.value.columns, name) == IndexOf(all.columns, c)
  {
    var staged :- Rename(all, Staging);
    Rename(staged, Renames)
  }

  /** `is_unsub` filled with `False` where missing, then cast to bool: every flag becomes
      `Unsubscribed` of what it was, and no other cell changes. */
  function FlagStage(t: Table): (r: Result<Table, FrameError>)
    requires WellFormed(t)
    ensures r.Failure? <==> "is_unsub" !in t.columns
    ensures r.Failure? ==> r.error == MissingColumn("is_unsub")
    ensures r.Success? ==> WellFormed(r.value) && r.value.columns == t.columns && |r.value.rows| == |t.rows|
    ensures r.Success? ==> forall i, d :: 0 <= i < |t.rows| && d in t.columns ==>
      Cell(r.value, r.value.rows[i], d) ==
        if d == "is_unsub" then Bool(Unsubscribed(Cell(t, t.rows[i], d))) else Cell(t, t.rows[i], d)
  {
    var filled :- Apply(t, "is_unsub", FillFalse);
    // the column was just read, so the cast finds it
    var flagged := Apply(filled, "is_unsub", AsBool).value;
    assert forall v :: AsBool(FillFalse(v)) == Bool(Unsubscribed(v));
    Success(flagged)
  }

  /** The steps after the two merges: rename, fill and cast `is_unsub`, select the columns. */
  function Finish(all: Table): (r: Result<Table, FrameError>)
    requires WellFormed(all)
    ensures r.Success? <==>
      Distinct(Relabelled(all.columns, Staging)) && Distinct(RenamedLabels(all.columns))
      && forall c :: c in PeopleColumns ==> c in RenamedLabels(all.columns)
    ensures r.Success? ==> WellFormed(r.value) && r.value.columns == PeopleColumns
    ensures r.Success? ==> |r.value.rows| == |all.rows|
  {
    PeopleColumnsDistinct();
    var renamed :- RenameStage(all);
    var flagged :- FlagStage(renamed);
    Project(flagged, PeopleColumns)
  }

  /** The people labels are five different labels, `is_unsub` among them. */
  lemma PeopleColumnsDistinct()
    ensures Distinct(PeopleColumns) && "is_unsub" in PeopleColumns
  {
  }

  /** `transform_cons_data(cons, cons_email, cons_sub)`. */
  function TransformConsData(cons: Table, email: Table, sub: Table): (r: Result<Table, FrameError>)
    requires WellFormed(cons) && WellFormed(email) && WellFormed(sub)
    ensures "chapter_id" !in sub.columns ==> r == Failure(MissingColumn("chapter_id"))
    ensures "chapter_id" in sub.columns && "is_primary" !in email.columns ==> r == Failure(MissingColumn("is_primary"))
    ensures r.Success? ==> WellFormed(r.value) && r.value.columns == PeopleColumns
  {
    var subs :- ChapterOne(sub);
    var primaries :- PrimaryEmails(email);
    MergeAndFinish(cons, primaries, subs)
  }

  /** The two merges and the finishing steps, on the already selected emails and
      subscriptions. */
  function MergeAndFinish(cons: Table, primaries: Table, subs: Table): (r: Result<Table, FrameError>)
    requires WellFormed(cons) && WellFormed(primaries) && WellFormed(subs)
    ensures r.Success? ==> WellFormed(r.value) && r.value.columns == PeopleColumns
  {
    var joined :- Merge(cons, primaries, "cons_id", "_email");
    var all :- Merge(joined, subs, "cons_email_id", "_sub");
    Finish(all)
  }

  /** Everything after the first merge depends on the constituents only through it. */
  lemma SameFirstJoin(cons1: Table, cons2: Table, email: Table, sub: Table)
    requires WellFormed(cons1) && WellFormed(cons2) && WellFormed(email) && WellFormed(sub)
    requires FirstJoin(cons1, email) == FirstJoin(cons2, email)
    ensures TransformConsData(cons1, email, sub) == TransformConsData(cons2, email, sub)
  {
    if ChapterOne(sub).Success? && PrimaryEmails(email).Success? {
      var subs, primaries := ChapterOne(sub).value, PrimaryEmails(email).value;
      assert Merge(cons1, primaries, "cons_id", "_email") == Merge(cons2, primaries, "cons_id", "_email");
      SameJoinedSameResult(cons1, cons2, primaries, subs);
    }
  }

  /** The steps after the first merge see the constituents only through its result. */
  lemma SameJoinedSameResult(cons1: Table, cons2: Table, primaries: Table, subs: Table)
    requires WellFormed(cons1) && WellFormed(cons2) && WellFormed(primaries) && WellFormed(subs)
    requires Merge(cons1, primaries, "cons_id", "_email") == Merge(cons2, primaries, "cons_id", "_email")
    ensures MergeAndFinish(cons1, primaries, subs) == MergeAndFinish(cons2, primaries, subs)
  {
  }

  /** The intermediate tables of a successful run. */
  lemma Stages(cons: Table, email: Table, sub: Table) returns (subs: Table, primaries: Table, joined: Table, all: Table)
    requires WellFormed(cons) && WellFormed(email) && WellFormed(sub)
    requires TransformConsData(cons, email, sub).Success?
    ensures ChapterOne(sub) == Success(subs) && PrimaryEmails(email) == Success(primaries)
    ensures FirstJoin(cons, email) == Success(joined)
    ensures WellFormed(subs) && WellFormed(primaries) && WellFormed(joined)
    ensures Merge(joined, subs, "cons_email_id", "_sub") == Success(all) && WellFormed(all)
    ensures Finish(all) == TransformConsData(cons, email, sub)
  {
    subs := ChapterOne(sub).value;
    primaries := PrimaryEmails(email).value;
    joined := Merge(cons, primaries, "cons_id", "_email").value;
    all := Merge(joined, subs, "cons_email_id", "_sub").value;
  }

  /** The cell `Finish` puts in output column `q` is the merged row's cell whose label the
      two renames turn into that column's label. */
  lemma FinishCell(all: Table, n: nat, c: string, q: nat)
    requires WellFormed(all) && Finish(all).Success? && n < |all.rows| && c in all.columns
    requires q < |PeopleColumns| && Relabel(Relabel(c, Staging), Renames) == PeopleColumns[q]
    ensures all.rows[n] in all.rows && n < |Finish(all).value.rows|
    ensures Finish(all).value.rows[n][q] ==
      if q == 2 then Bool(Unsubscribed(Cell(all, all.rows[n], c))) else Cell(all, all.rows[n], c)
  {
    var renamed := RenameStage(all).value;
    var flagged := FlagStage(renamed).value;
    var people := Project(flagged, PeopleColumns).value;
    assert Finish(all).value == people;
    assert all.rows[n] in all.rows;
    var name := PeopleColumns[q];
    UnsubColumn(q);
    assert Cell(renamed, renamed.rows[n], name) == Cell(all, all.rows[n], c);
    assert people.rows[n][q] == Cell(flagged, flagged.rows[n], name);
  }

  /** Only the third people column is the unsubscribe flag. */
  lemma UnsubColumn(q: nat)
    requires q < |PeopleColumns|
    ensures PeopleColumns[q] == "is_unsub" <==> q == 2
  {
  }

  /** What `Finish` makes of one merged row: its email, source, creation and modification
      cells, and its unsubscribe flag read as `Unsubscribed`. Any label clash the renames
      would cause makes `Finish` fail, so success pins each output column to its source. */
  lemma FinishRow(all: Table, n: nat)
    requires WellFormed(all) && Finish(all).Success? && n < |all.rows|
    requires "email" in all.columns && "source" in all.columns && "isunsub" in all.columns
    requires "create_dt" in all.columns && "modified_dt" in all.columns
    ensures all.rows[n] in all.rows && n < |Finish(all).value.rows|
    ensures var row, out := all.rows[n], Finish(all).value.rows[n];
      |out| == 5 && out[0] == Cell(all, row, "email") && out[1] == Cell(all, row, "source")
      && out[2] == Bool(Unsubscribed(Cell(all, row, "isunsub")))
      && out[3] == Cell(all, row, "create_dt") && out[4] == Cell(all, row, "modified_dt")
  {
    RenamesReach();
    FinishCell(all, n, "email", 0);
    FinishCell(all, n, "source", 1);
    FinishCell(all, n, "isunsub", 2);
    FinishCell(all, n, "create_dt", 3);
    FinishCell(all, n, "modified_dt", 4);
    assert Finish(all).value.rows[n] in Finish(all).value.rows;
  }

  /** The label each people column is renamed from. */
  lemma RenamesReach()
    ensures Relabel(Relabel("email", Staging), Renames) == PeopleColumns[0]
    ensures Relabel(Relabel("source", Staging), Renames) == PeopleColumns[1]
    ensures Relabel(Relabel("isunsub", Staging), Renames) == PeopleColumns[2]
    ensures Relabel(Relabel("create_dt", Staging), Renames) == PeopleColumns[3]
    ensures Relabel(Relabel("modified_dt", Staging), Renames) == PeopleColumns[4]
  {
  }
}
