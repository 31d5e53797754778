/** What `transform_cons_data` promises about its output, stated on the three input tables:
    where each people row comes from, which input rows reach the output, and which
    repeated keys stop the run. */
module Provenance {
  import opened Wrappers
  import opened Seqs
  import opened Values
  import opened Frames
  import opened Transform

  /** The input tables carry the columns the pipeline reads from each of them. */
  predicate Schema(cons: Table, email: Table, sub: Table) {
    WellFormed(cons) && WellFormed(email) && WellFormed(sub)
    && "cons_id" in cons.columns && "source" in cons.columns
    && "create_dt" in cons.columns && "modified_dt" in cons.columns
    && "cons_id" in email.columns && "cons_email_id" in email.columns
    && "is_primary" in email.columns && "email" in email.columns
    && "cons_email_id" in sub.columns && "chapter_id" in sub.columns && "isunsub" in sub.columns
  }

  /** The cell under label `c` of constituent row `i` joined with email row `j`: the
      constituent's when it has that label (the left side keeps it), else the email's. */
  function EmailJoinCell(cons: Table, email: Table, i: nat, j: nat, c: string): Value
    requires WellFormed(cons) && WellFormed(email) && i < |cons.rows| && j < |email.rows|
    requires c in cons.columns || c in email.columns
  {
    assert cons.rows[i] in cons.rows && email.rows[j] in email.rows;
    if c in cons.columns then Cell(cons, cons.rows[i], c) else Cell(email, email.rows[j], c)
  }

  /** The cell under label `c` once subscription row `k` is joined on as well: the
      subscription's only when neither earlier table has that label. */
  function PersonCell(cons: Table, email: Table, sub: Table, i: nat, j: nat, k: nat, c: string): Value
    requires Schema(cons, email, sub) && i < |cons.rows| && j < |email.rows| && k < |sub.rows|
    requires c in cons.columns || c in email.columns || c in sub.columns
  {
    if c in cons.columns || c in email.columns then EmailJoinCell(cons, email, i, j, c)
    else
      assert sub.rows[k] in sub.rows;
      Cell(sub, sub.rows[k], c)
  }

  /** Constituent row `i`, email row `j` and subscription row `k` pass both filters and
      meet on both keys. */
  predicate Keeps(cons: Table, email: Table, sub: Table, i: nat, j: nat, k: nat)
    requires Schema(cons, email, sub) && i < |cons.rows| && j < |email.rows| && k < |sub.rows|
  {
    assert cons.rows[i] in cons.rows && email.rows[j] in email.rows && sub.rows[k] in sub.rows;
    IsOne(Cell(email, email.rows[j], "is_primary")) && IsOne(Cell(sub, sub.rows[k], "chapter_id"))
    && Cell(cons, cons.rows[i], "cons_id") == Cell(email, email.rows[j], "cons_id")
    && EmailJoinCell(cons, email, i, j, "cons_email_id") == Cell(sub, sub.rows[k], "cons_email_id")
  }

  /** The people row those three rows make: email, code, is_unsub, created_dt, updated_dt. */
  function Person(cons: Table, email: Table, sub: Table, i: nat, j: nat, k: nat): Row
    requires Schema(cons, email, sub) && i < |cons.rows| && j < |email.rows| && k < |sub.rows|
  {
    [PersonCell(cons, email, sub, i, j, k, "email"),
     PersonCell(cons, email, sub, i, j, k, "source"),
     Bool(Unsubscribed(PersonCell(cons, email, sub, i, j, k, "isunsub"))),
     PersonCell(cons, email, sub, i, j, k, "create_dt"),
     PersonCell(cons, email, sub, i, j, k, "modified_dt")]
  }

  /** "isunsub" cannot be a label the first merge suffixed, so it reaches the merged
      table under its own name only from one of the first two tables. */
  lemma IsunsubNotSuffixed(cons: Table, email: Table)
    requires WellFormed(cons) && WellFormed(email) && "cons_id" in email.columns && "is_primary" in email.columns
    requires "isunsub" !in cons.columns && "isunsub" !in email.columns
    ensures "isunsub" !in MergedLabels(cons, Where(email, "is_primary").value, "cons_id", "_email")
  {
    var primaries := Where(email, "is_primary").value;
    assert !EndsWith("isunsub", "_email");
    if "isunsub" in MergedLabels(cons, primaries, "cons_id", "_email") {
      MergedLabelFromRight(cons, primaries, "cons_id", "_email", "isunsub");
    }
  }

  /** A row of five cells, read one position at a time, is the row listing those cells in
      that order. */
  lemma FiveCells(out: Row, a: Value, b: Value, c: Value, d: Value, e: Value)
    requires |out| == 5 && out[0] == a && out[1] == b && out[2] == c && out[3] == d && out[4] == e
    ensures out == [a, b, c, d, e]
  {
  }

  /** Provenance of one people row: it is `Person` of a constituent row, a primary email
      row and a chapter-1 subscription row that meet on both keys. The positions are the
      ones the two merges paired, read back through the two selections. */
  lemma RowOrigin(cons: Table, email: Table, sub: Table, n: nat) returns (i: nat, j: nat, k: nat)
    requires Schema(cons, email, sub) && TransformConsData(cons, email, sub).Success?
    requires n < |TransformConsData(cons, email, sub).value.rows|
    ensures i < |cons.rows| && j < |email.rows| && k < |sub.rows|
    ensures Keeps(cons, email, sub, i, j, k)
    ensures TransformConsData(cons, email, sub).value.rows[n] == Person(cons, email, sub, i, j, k)
    ensures var joined := FirstJoin(cons, email).value;
      var ps1 := Pairs(cons, Where(email, "is_primary").value, "cons_id");
      var ps2 := Pairs(joined, Where(sub, "chapter_id").value, "cons_email_id");
      n < |ps2| && ps2[n].0 < |ps1| && i == ps1[ps2[n].0].0
      && ps1[ps2[n].0].1 < |Picked(email, "is_primary")| && j == Picked(email, "is_primary")[ps1[ps2[n].0].1]
      && ps2[n].1 < |Picked(sub, "chapter_id")| && k == Picked(sub, "chapter_id")[ps2[n].1]
  {
    var subs, primaries, joined, all := Stages(cons, email, sub);
    var a: nat;
    a, k := SelectedMergeRow(joined, sub, "chapter_id", "cons_email_id", "_sub", n);
    i, j := SelectedMergeRow(cons, email, "is_primary", "cons_id", "_email", a);
    PersonCells(cons, email, sub, joined, all, n, a, i, j, k);
    FinishRow(all, n);
    var out := TransformConsData(cons, email, sub).value.rows[n];
    FiveCells(out, PersonCell(cons, email, sub, i, j, k, "email"),
      PersonCell(cons, email, sub, i, j, k, "source"),
      Bool(Unsubscribed(PersonCell(cons, email, sub, i, j, k, "isunsub"))),
      PersonCell(cons, email, sub, i, j, k, "create_dt"),
      PersonCell(cons, email, sub, i, j, k, "modified_dt"));
  }

  /** The five labels the people table is read from sit in the merged table, holding the
      cells `PersonCell` names. */
  lemma PersonCells(cons: Table, email: Table, sub: Table, joined: Table, all: Table, n: nat, a: nat, i: nat, j: nat, k: nat)
    requires Schema(cons, email, sub) && WellFormed(joined) && WellFormed(all)
    requires i < |cons.rows| && j < |email.rows| && k < |sub.rows| && a < |joined.rows| && n < |all.rows|
    requires joined.columns == MergedLabels(cons, Where(email, "is_primary").value, "cons_id", "_email")
    requires forall c :: c in cons.columns ==> c in joined.columns && Cell(joined, joined.rows[a], c) == Cell(cons, cons.rows[i], c)
    requires forall c :: c in email.columns && c !in cons.columns ==>
      c in joined.columns && Cell(joined, joined.rows[a], c) == Cell(email, email.rows[j], c)
    requires forall c :: c in joined.columns ==> c in all.columns && Cell(all, all.rows[n], c) == Cell(joined, joined.rows[a], c)
    requires forall c :: c in sub.columns && c !in joined.columns ==>
      c in all.columns && Cell(all, all.rows[n], c) == Cell(sub, sub.rows[k], c)
    ensures "email" in all.columns
      && Cell(all, all.rows[n], "email") == PersonCell(cons, email, sub, i, j, k, "email")
    ensures "source" in all.columns
      && Cell(all, all.rows[n], "source") == PersonCell(cons, email, sub, i, j, k, "source")
    ensures "isunsub" in all.columns
      && Cell(all, all.rows[n], "isunsub") == PersonCell(cons, email, sub, i, j, k, "isunsub")
    ensures "create_dt" in all.columns
      && Cell(all, all.rows[n], "create_dt") == PersonCell(cons, email, sub, i, j, k, "create_dt")
    ensures "modified_dt" in all.columns
      && Cell(all, all.rows[n], "modified_dt") == PersonCell(cons, email, sub, i, j, k, "modified_dt")
    ensures "cons_email_id" in joined.columns
      && Cell(joined, joined.rows[a], "cons_email_id") == EmailJoinCell(cons, email, i, j, "cons_email_id")
  {
    if "isunsub" !in cons.columns && "isunsub" !in email.columns {
      IsunsubNotSuffixed(cons, email);
    }
  }

  /** People row `row` is traced to constituent row `o.0`, email row `o.1` and subscription
      row `o.2`: they meet, and the row is the one they make. */
  predicate Traced(cons: Table, email: Table, sub: Table, o: (nat, nat, nat), row: Row)
    requires Schema(cons, email, sub)
  {
    o.0 < |cons.rows| && o.1 < |email.rows| && o.2 < |sub.rows|
    && Keeps(cons, email, sub, o.0, o.1, o.2) && row == Person(cons, email, sub, o.0, o.1, o.2)
  }

  /** The input positions behind each row of two chained merges over two selections. */
  function Compose(ps1: seq<(nat, nat)>, ps2: seq<(nat, nat)>, pe: seq<nat>, pc: seq<nat>): (o: seq<(nat, nat, nat)>)
    requires forall n :: 0 <= n < |ps2| ==> ps2[n].0 < |ps1| && ps2[n].1 < |pc|
    requires forall a :: 0 <= a < |ps1| ==> ps1[a].1 < |pe|
    requires forall n, m :: 0 <= n < m < |ps1| ==> ps1[n].0 < ps1[m].0
    requires forall n, m :: 0 <= n < m < |ps2| ==> ps2[n].0 < ps2[m].0
    ensures |o| == |ps2|
    ensures forall n :: 0 <= n < |o| ==> o[n] == (ps1[ps2[n].0].0, pe[ps1[ps2[n].0].1], pc[ps2[n].1])
    ensures forall n, m :: 0 <= n < m < |o| ==> o[n].0 < o[m].0
  {
    seq(|ps2|, n requires 0 <= n < |ps2| => (ps1[ps2[n].0].0, pe[ps1[ps2[n].0].1], pc[ps2[n].1]))
  }

  /** Soundness: every people row is traced to rows that pass both filters and meet on both
      keys, so rows failing a filter never contribute; and the people rows come in
      constituent order. */
  lemma TransformSound(cons: Table, email: Table, sub: Table) returns (origins: seq<(nat, nat, nat)>)
    requires Schema(cons, email, sub) && TransformConsData(cons, email, sub).Success?
    ensures |origins| == |TransformConsData(cons, email, sub).value.rows|
    ensures forall n :: 0 <= n < |origins| ==> origins[n].0 < |cons.rows|
    ensures forall n :: 0 <= n < |origins| ==>
      Traced(cons, email, sub, origins[n], TransformConsData(cons, email, sub).value.rows[n])
    ensures forall n, m :: 0 <= n < m < |origins| ==> origins[n].0 < origins[m].0
  {
    var subs, primaries, joined, all := Stages(cons, email, sub);
    var people := TransformConsData(cons, email, sub).value;
    var ps1 := Pairs(cons, primaries, "cons_id");
    var ps2 := Pairs(joined, subs, "cons_email_id");
    var pe, pc := Picked(email, "is_primary"), Picked(sub, "chapter_id");
    MergeValue(cons, primaries, "cons_id", "_email");
    MergeValue(joined, subs, "cons_email_id", "_sub");
    FilterReadsPositions(OneAt(IndexOf(email.columns, "is_primary")), email.rows);
    FilterReadsPositions(OneAt(IndexOf(sub.columns, "chapter_id")), sub.rows);
    origins := Compose(ps1, ps2, pe, pc);
    forall n | 0 <= n < |origins|
      ensures origins[n].0 < |cons.rows| && Traced(cons, email, sub, origins[n], people.rows[n])
    {
      var i, j, k := RowOrigin(cons, email, sub, n);
    }
  }

  /** On success no `cons_id` reaches the people table twice: distinct people rows come
      from constituents with distinct ids. */
  lemma ConsIdOnce(cons: Table, email: Table, sub: Table) returns (origins: seq<(nat, nat, nat)>)
    requires Schema(cons, email, sub) && TransformConsData(cons, email, sub).Success?
    ensures |origins| == |TransformConsData(cons, email, sub).value.rows|
    ensures forall n :: 0 <= n < |origins| ==> origins[n].0 < |cons.rows|
    ensures forall n :: 0 <= n < |origins| ==>
      Traced(cons, email, sub, origins[n], TransformConsData(cons, email, sub).value.rows[n])
    ensures forall n, m :: 0 <= n < m < |origins| ==>
      CellAt(cons, origins[n].0, "cons_id") != CellAt(cons, origins[m].0, "cons_id")
  {
    origins := TransformSound(cons, email, sub);
    var subs, primaries, joined, all := Stages(cons, email, sub);
    ConsIdsApart(cons, origins);
  }

  /** Distinct constituent rows of a table unique on `cons_id` hold distinct ids. */
  lemma ConsIdsApart(cons: Table, origins: seq<(nat, nat, nat)>)
    requires WellFormed(cons) && "cons_id" in cons.columns && UniqueOn(cons, "cons_id")
    requires forall n :: 0 <= n < |origins| ==> origins[n].0 < |cons.rows|
    requires forall n, m :: 0 <= n < m < |origins| ==> origins[n].0 < origins[m].0
    ensures forall n, m :: 0 <= n < m < |origins| ==>
      CellAt(cons, origins[n].0, "cons_id") != CellAt(cons, origins[m].0, "cons_id")
  {
  }

  /** The people table has at most one row per constituent. */
  lemma PeopleAtMostCons(cons: Table, email: Table, sub: Table)
    requires Schema(cons, email, sub) && TransformConsData(cons, email, sub).Success?
    ensures |TransformConsData(cons, email, sub).value.rows| <= |cons.rows|
  {
    var origins := TransformSound(cons, email, sub);
    FirstsBelow(origins, |cons.rows|);
  }

  /** Triples whose first components strictly increase below `bound` number at most `bound`. */
  lemma FirstsBelow(origins: seq<(nat, nat, nat)>, bound: nat)
    requires forall n :: 0 <= n < |origins| ==> origins[n].0 < bound
    requires forall n, m :: 0 <= n < m < |origins| ==> origins[n].0 < origins[m].0
    ensures |origins| <= bound
  {
    var firsts := seq(|origins|, n requires 0 <= n < |origins| => origins[n].0);
    IncreasingBelow(firsts, bound);
  }

  /** Completeness: rows that pass both filters and meet on both keys make a people row,
      the one traced to them. */
  lemma TransformComplete(cons: Table, email: Table, sub: Table, i: nat, j: nat, k: nat) returns (n: nat)
    requires Schema(cons, email, sub) && TransformConsData(cons, email, sub).Success?
    requires i < |cons.rows| && j < |email.rows| && k < |sub.rows| && Keeps(cons, email, sub, i, j, k)
    ensures n < |TransformConsData(cons, email, sub).value.rows|
    ensures TransformConsData(cons, email, sub).value.rows[n] == Person(cons, email, sub, i, j, k)
  {
    var subs, primaries, joined, all := Stages(cons, email, sub);
    var a := SelectedMergeReach(cons, email, "is_primary", "cons_id", "_email", i, j);
    KeyCellOfJoined(cons, email, i, j, a);
    n := SelectedMergeReach(joined, sub, "chapter_id", "cons_email_id", "_sub", a, k);
    var i2, j2, k2 := RowOrigin(cons, email, sub, n);
  }

  /** The first merge's row for constituent row `i` and email row `j` holds their
      `cons_email_id` as `EmailJoinCell` reads it. */
  lemma KeyCellOfJoined(cons: Table, email: Table, i: nat, j: nat, a: nat)
    requires WellFormed(cons) && WellFormed(email) && "is_primary" in email.columns
    requires "cons_id" in cons.columns && "cons_email_id" in email.columns && "cons_id" in email.columns
    requires FirstJoin(cons, email).Success? && i < |cons.rows| && j < |email.rows|
    requires a < |FirstJoin(cons, email).value.rows|
    requires var ps := Pairs(cons, Where(email, "is_primary").value, "cons_id");
      a < |ps| && ps[a].0 == i && ps[a].1 < |Picked(email, "is_primary")| && Picked(email, "is_primary")[ps[a].1] == j
    ensures var joined := FirstJoin(cons, email).value;
      "cons_email_id" in joined.columns && joined.rows[a] in joined.rows
      && Cell(joined, joined.rows[a], "cons_email_id") == EmailJoinCell(cons, email, i, j, "cons_email_id")
  {
    var i1, j1 := SelectedMergeRow(cons, email, "is_primary", "cons_id", "_email", a);
  }
  // ---------------------------------------------------------------------------------------
  // Inner joins and filters: rows that do not meet change nothing, and are no error

  /** An email row that is not primary changes nothing. */
  lemma NonPrimaryEmailIgnored(cons: Table, email: Table, sub: Table, row: Row)
    requires WellFormed(cons) && WellFormed(email) && WellFormed(sub) && |row| == |email.columns|
    requires "is_primary" in email.columns ==> !IsOne(row[IndexOf(email.columns, "is_primary")])
    ensures WellFormed(Table(email.columns, email.rows + [row]))
    ensures TransformConsData(cons, Table(email.columns, email.rows + [row]), sub) == TransformConsData(cons, email, sub)
  {
    WhereIgnoresFailing(email, "is_primary", row);
  }

  /** A subscription row for a chapter other than 1 changes nothing. */
  lemma OtherChapterIgnored(cons: Table, email: Table, sub: Table, row: Row)
    requires WellFormed(cons) && WellFormed(email) && WellFormed(sub) && |row| == |sub.columns|
    requires "chapter_id" in sub.columns ==> !IsOne(row[IndexOf(sub.columns, "chapter_id")])
    ensures WellFormed(Table(sub.columns, sub.rows + [row]))
    ensures TransformConsData(cons, email, Table(sub.columns, sub.rows + [row])) == TransformConsData(cons, email, sub)
  {
    WhereIgnoresFailing(sub, "chapter_id", row);
  }

  /** A constituent with a new `cons_id` that no primary email carries changes nothing:
      the inner join drops it, and its presence is no error. */
  lemma UnmatchedConstituentIgnored(cons: Table, email: Table, sub: Table, row: Row)
    requires WellFormed(cons) && WellFormed(email) && WellFormed(sub) && |row| == |cons.columns|
    requires "cons_id" in cons.columns
    requires forall i :: 0 <= i < |cons.rows| ==> CellAt(cons, i, "cons_id") != row[IndexOf(cons.columns, "cons_id")]
    requires "is_primary" in email.columns && "cons_id" in email.columns ==>
      forall j :: 0 <= j < |email.rows| && IsOne(CellAt(email, j, "is_primary")) ==>
        CellAt(email, j, "cons_id") != row[IndexOf(cons.columns, "cons_id")]
    ensures WellFormed(Table(cons.columns, cons.rows + [row]))
    ensures TransformConsData(Table(cons.columns, cons.rows + [row]), email, sub) == TransformConsData(cons, email, sub)
  {
    FirstJoinIgnoresUnmatched(cons, email, row);
    SameFirstJoin(Table(cons.columns, cons.rows + [row]), cons, email, sub);
  }

  /** The first merge is where an unmatched constituent drops out. */
  lemma FirstJoinIgnoresUnmatched(cons: Table, email: Table, row: Row)
    requires WellFormed(cons) && WellFormed(email) && |row| == |cons.columns|
    requires "cons_id" in cons.columns
    requires forall i :: 0 <= i < |cons.rows| ==> CellAt(cons, i, "cons_id") != row[IndexOf(cons.columns, "cons_id")]
    requires "is_primary" in email.columns && "cons_id" in email.columns ==>
      forall j :: 0 <= j < |email.rows| && IsOne(CellAt(email, j, "is_primary")) ==>
        CellAt(email, j, "cons_id") != row[IndexOf(cons.columns, "cons_id")]
    ensures WellFormed(Table(cons.columns, cons.rows + [row]))
    ensures FirstJoin(Table(cons.columns, cons.rows + [row]), email) == FirstJoin(cons, email)
  {
    if "is_primary" in email.columns {
      var primaries := Where(email, "is_primary").value;
      if "cons_id" in email.columns {
        SelectedAvoid(email, "is_primary", "cons_id", row[IndexOf(cons.columns, "cons_id")]);
      }
      MergeIgnoresUnmatchedLeft(cons, primaries, "cons_id", "_email", row);
    }
  }

  // ---------------------------------------------------------------------------------------
  // One-to-one validation: which repeated keys stop the run

  /** Two constituents with the same `cons_id` stop the run at the first merge, whether or
      not either of them has a primary email: the check reads the whole left side. The
      error names the left side, or both sides when the primary emails repeat a
      `cons_id` too. */
  lemma RepeatedConsId(cons: Table, email: Table, sub: Table, i1: nat, i2: nat)
    requires Schema(cons, email, sub) && i1 < |cons.rows| && i2 < |cons.rows| && i1 != i2
    requires CellAt(cons, i1, "cons_id") == CellAt(cons, i2, "cons_id")
    ensures var primaries := PrimaryEmails(email).value;
      "cons_id" in primaries.columns && WellFormed(primaries)
      && TransformConsData(cons, email, sub)
         == Failure(NotOneToOne(if UniqueOn(primaries, "cons_id") then Left else Both, "cons_id"))
  {
    SharedCell(cons, "cons_id", i1, i2);
  }

  /** With distinct constituent ids, two primary emails with the same `cons_id` stop the
      run at the first merge, whether or not that id belongs to any constituent. */
  lemma RepeatedPrimary(cons: Table, email: Table, sub: Table, j1: nat, j2: nat)
    requires Schema(cons, email, sub) && UniqueOn(cons, "cons_id")
    requires j1 < |email.rows| && j2 < |email.rows| && j1 != j2
    requires IsOne(CellAt(email, j1, "is_primary")) && IsOne(CellAt(email, j2, "is_primary"))
    requires CellAt(email, j1, "cons_id") == CellAt(email, j2, "cons_id")
    ensures TransformConsData(cons, email, sub) == Failure(NotOneToOne(Right, "cons_id"))
  {
    SelectedRepeat(email, "is_primary", "cons_id", j1, j2);
  }

  /** When the first merge succeeds, two of its rows from different constituents that
      carry the same `cons_email_id` stop the run at the second merge. The error names the
      left side, or both sides when the chapter-1 subscriptions repeat a `cons_email_id`
      too. */
  lemma SharedEmailId(cons: Table, email: Table, sub: Table, i1: nat, j1: nat, i2: nat, j2: nat)
    requires Schema(cons, email, sub) && FirstJoin(cons, email).Success?
    requires i1 < |cons.rows| && i2 < |cons.rows| && i1 != i2 && j1 < |email.rows| && j2 < |email.rows|
    requires IsOne(CellAt(email, j1, "is_primary")) && IsOne(CellAt(email, j2, "is_primary"))
    requires CellAt(cons, i1, "cons_id") == CellAt(email, j1, "cons_id")
    requires CellAt(cons, i2, "cons_id") == CellAt(email, j2, "cons_id")
    requires EmailJoinCell(cons, email, i1, j1, "cons_email_id") == EmailJoinCell(cons, email, i2, j2, "cons_email_id")
    ensures var subs := ChapterOne(sub).value;
      "cons_email_id" in subs.columns && WellFormed(subs)
      && TransformConsData(cons, email, sub)
         == Failure(NotOneToOne(if UniqueOn(subs, "cons_email_id") then Left else Both, "cons_email_id"))
  {
    assert cons.rows[i1] in cons.rows && cons.rows[i2] in cons.rows;
    assert email.rows[j1] in email.rows && email.rows[j2] in email.rows;
    var a1 := SelectedMergeReach(cons, email, "is_primary", "cons_id", "_email", i1, j1);
    var a2 := SelectedMergeReach(cons, email, "is_primary", "cons_id", "_email", i2, j2);
    KeyCellOfJoined(cons, email, i1, j1, a1);
    KeyCellOfJoined(cons, email, i2, j2, a2);
    var joined := FirstJoin(cons, email).value;
    SharedCell(joined, "cons_email_id", a1, a2);
  }

  /** When the first merge succeeds with distinct `cons_email_id`s, two chapter-1
      subscriptions with the same `cons_email_id` stop the run at the second merge. */
  lemma RepeatedSubscription(cons: Table, email: Table, sub: Table, k1: nat, k2: nat)
    requires Schema(cons, email, sub) && FirstJoin(cons, email).Success?
    requires "cons_email_id" in FirstJoin(cons, email).value.columns
    requires UniqueOn(FirstJoin(cons, email).value, "cons_email_id")
    requires k1 < |sub.rows| && k2 < |sub.rows| && k1 != k2
    requires IsOne(CellAt(sub, k1, "chapter_id")) && IsOne(CellAt(sub, k2, "chapter_id"))
    requires CellAt(sub, k1, "cons_email_id") == CellAt(sub, k2, "cons_email_id")
    ensures TransformConsData(cons, email, sub) == Failure(NotOneToOne(Right, "cons_email_id"))
  {
    SelectedRepeat(sub, "chapter_id", "cons_email_id", k1, k2);
  }

  /** The run succeeds exactly when both sides of both merges are unique on their keys and
      neither the merges nor the renames give two columns one label. */
  lemma SuccessConditions(cons: Table, email: Table, sub: Table)
    requires Schema(cons, email, sub)
    ensures TransformConsData(cons, email, sub).Success? <==>
      var primaries, subs := PrimaryEmails(email).value, ChapterOne(sub).value;
      UniqueOn(cons, "cons_id") && UniqueOn(primaries, "cons_id")
      && Distinct(MergedLabels(cons, primaries, "cons_id", "_email"))
      && (var joined := FirstJoin(cons, email).value;
          "cons_email_id" in joined.columns && UniqueOn(joined, "cons_email_id")
          && UniqueOn(subs, "cons_email_id") && Distinct(MergedLabels(joined, subs, "cons_email_id", "_sub"))
          && (var all := Merge(joined, subs, "cons_email_id", "_sub").value;
              Distinct(Relabelled(all.columns, Staging)) && Distinct(RenamedLabels(all.columns))
              && forall c :: c in PeopleColumns ==> c in RenamedLabels(all.columns)))
  {
  }

  /** Conversely, a successful run had no repeated key on either side of either merge. */
  lemma SuccessIsOneToOne(cons: Table, email: Table, sub: Table)
    requires Schema(cons, email, sub) && TransformConsData(cons, email, sub).Success?
    ensures UniqueOn(cons, "cons_id")
    ensures forall j1, j2 ::
      0 <= j1 < |email.rows| && 0 <= j2 < |email.rows| && j1 != j2
      && IsOne(CellAt(email, j1, "is_primary")) && IsOne(CellAt(email, j2, "is_primary"))
      ==> CellAt(email, j1, "cons_id") != CellAt(email, j2, "cons_id")
    ensures forall i1, j1, i2, j2 ::
      0 <= i1 < |cons.rows| && 0 <= i2 < |cons.rows| && i1 != i2 && 0 <= j1 < |email.rows| && 0 <= j2 < |email.rows|
      && IsOne(CellAt(email, j1, "is_primary")) && IsOne(CellAt(email, j2, "is_primary"))
      && CellAt(cons, i1, "cons_id") == CellAt(email, j1, "cons_id")
      && CellAt(cons, i2, "cons_id") == CellAt(email, j2, "cons_id")
      ==> EmailJoinCell(cons, email, i1, j1, "cons_email_id") != EmailJoinCell(cons, email, i2, j2, "cons_email_id")
    ensures forall k1, k2 ::
      0 <= k1 < |sub.rows| && 0 <= k2 < |sub.rows| && k1 != k2
      && IsOne(CellAt(sub, k1, "chapter_id")) && IsOne(CellAt(sub, k2, "chapter_id"))
      ==> CellAt(sub, k1, "cons_email_id") != CellAt(sub, k2, "cons_email_id")
  {
    var subs, primaries, joined, all := Stages(cons, email, sub);
    forall j1, j2 | 0 <= j1 < |email.rows| && 0 <= j2 < |email.rows| && j1 != j2
      && IsOne(CellAt(email, j1, "is_primary")) && IsOne(CellAt(email, j2, "is_primary"))
      ensures CellAt(email, j1, "cons_id") != CellAt(email, j2, "cons_id")
    {
      if CellAt(email, j1, "cons_id") == CellAt(email, j2, "cons_id") {
        RepeatedPrimary(cons, email, sub, j1, j2);
      }
    }
    forall i1, j1, i2, j2 |
      0 <= i1 < |cons.rows| && 0 <= i2 < |cons.rows| && i1 != i2 && 0 <= j1 < |email.rows| && 0 <= j2 < |email.rows|
      && IsOne(CellAt(email, j1, "is_primary")) && IsOne(CellAt(email, j2, "is_primary"))
      && CellAt(cons, i1, "cons_id") == CellAt(email, j1, "cons_id")
      && CellAt(cons, i2, "cons_id") == CellAt(email, j2, "cons_id")
      ensures EmailJoinCell(cons, email, i1, j1, "cons_email_id") != EmailJoinCell(cons, email, i2, j2, "cons_email_id")
    {
      if EmailJoinCell(cons, email, i1, j1, "cons_email_id") == EmailJoinCell(cons, email, i2, j2, "cons_email_id") {
        SharedEmailId(cons, email, sub, i1, j1, i2, j2);
      }
    }
    forall k1, k2 | 0 <= k1 < |sub.rows| && 0 <= k2 < |sub.rows| && k1 != k2
      && IsOne(CellAt(sub, k1, "chapter_id")) && IsOne(CellAt(sub, k2, "chapter_id"))
      ensures CellAt(sub, k1, "cons_email_id") != CellAt(sub, k2, "cons_email_id")
    {
      if CellAt(sub, k1, "cons_email_id") == CellAt(sub, k2, "cons_email_id") {
        RepeatedSubscription(cons, email, sub, k1, k2);
      }
    }
  }
}
