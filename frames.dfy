/** The data-frame operations the pipeline uses, in the semantics pandas gives them:
    boolean-mask selection, `merge(..., validate="one_to_one", suffixes=("", s))`,
    `rename(columns=...)`, whole-column assignment, and selection of a list of columns. */
module Frames {
  import opened Wrappers
  import opened Seqs
  import opened Values

  type Row = seq<Value>

  /** A data frame: column labels, and rows whose cells line up with the labels by position. */
  datatype Table = Table(columns: seq<string>, rows: seq<Row>)

  /** The side of a merge whose keys repeat; `Both` when neither side is unique. */
  datatype Side = Left | Right | Both

  /** Why a frame operation stops the run. */
  datatype FrameError =
    | MissingColumn(name: string)            // KeyError: no column with that label
    | NotOneToOne(side: Side, key: string)   // MergeError: merge keys not unique on that side (or both)
    | DuplicateColumns                       // the step would give two columns the same label

  /** Labels are distinct and every row has exactly one cell per label. */
  predicate WellFormed(t: Table) {
    Distinct(t.columns) && forall r :: r in t.rows ==> |r| == |t.columns|
  }

  /** The cell of `row` under label `c`. */
  function Cell(t: Table, row: Row, c: string): Value
    requires |row| == |t.columns| && c in t.columns
  {
    row[IndexOf(t.columns, c)]
  }

  /** The cell of the `i`-th row under label `c`. */
  function CellAt(t: Table, i: nat, c: string): Value
    requires WellFormed(t) && i < |t.rows| && c in t.columns
  {
    assert t.rows[i] in t.rows;
    Cell(t, t.rows[i], c)
  }

  /** Every row has a cell at position `k`. */
  predicate Wide(rows: seq<Row>, k: nat) {
    forall r :: r in rows ==> k < |r|
  }

  predicate UniqueAt(rows: seq<Row>, k: nat)
    requires Wide(rows, k)
  {
    forall i, j :: 0 <= i < j < |rows| ==> rows[i][k] != rows[j][k]
  }

  /** No two rows share a value in column `c` (pandas' `is_unique` on that column). */
  predicate UniqueOn(t: Table, c: string)
    requires WellFormed(t) && c in t.columns
  {
    UniqueAt(t.rows, IndexOf(t.columns, c))
  }

  /** Two different rows sharing a value in column `c` leave a table not unique on `c`. */
  lemma SharedCell(t: Table, c: string, a1: nat, a2: nat)
    requires WellFormed(t) && c in t.columns && a1 < |t.rows| && a2 < |t.rows| && a1 != a2
    requires CellAt(t, a1, c) == CellAt(t, a2, c)
    ensures !UniqueOn(t, c)
  {
    var k := IndexOf(t.columns, c);
    if a1 < a2 {
      assert t.rows[a1][k] == t.rows[a2][k];
    } else {
      assert t.rows[a2][k] == t.rows[a1][k];
    }
  }

  // ---------------------------------------------------------------------------------------
  // Selection: t[t[c] == 1]

  /** The rows whose cell in column `c` equals one, in their original order. */
  function Where(t: Table, c: string): (r: Result<Table, FrameError>)
    requires WellFormed(t)
    ensures r.Failure? <==> c !in t.columns
    ensures r.Failure? ==> r.error == MissingColumn(c)
    ensures r.Success? ==> WellFormed(r.value) && r.value.columns == t.columns
    ensures r.Success? ==> forall x :: x in r.value.rows <==> x in t.rows && IsOne(Cell(t, x, c))
    ensures r.Success? ==> r.value.rows == Filter(OneAt(IndexOf(t.columns, c)), t.rows)
  {
    if c !in t.columns then Failure(MissingColumn(c))
    else Success(Table(t.columns, Filter(OneAt(IndexOf(t.columns, c)), t.rows)))
  }

  /** The row test of `Where`: the cell at position `k` equals one. */
  function OneAt(k: nat): Row -> bool {
    (x: Row) => k < |x| && IsOne(x[k])
  }

  // ---------------------------------------------------------------------------------------
  // Merge: inner join on one key column, validated one-to-one

  /** The label a right-hand column gets: suffixed when the left side has the same label. */
  function RightLabel(lcols: seq<string>, c: string, suffix: string): string {
    if c in lcols then c + suffix else c
  }

  /** Labels of a merge: the left's as they are, then the right's without the key. */
  function MergedLabels(l: Table, r: Table, key: string, suffix: string): (labels: seq<string>)
    requires key in r.columns
    ensures |labels| == |l.columns| + |r.columns| - 1
  {
    var rest := RemoveAt(r.columns, IndexOf(r.columns, key));
    l.columns + seq(|rest|, q requires 0 <= q < |rest| => RightLabel(l.columns, rest[q], suffix))
  }

  /** The position of the first row of `rs` whose key cell is `v`. */
  function FindKey(rs: seq<Row>, rk: nat, v: Value): (o: Option<nat>)
    requires Wide(rs, rk)
    ensures o.Some? ==> o.value < |rs| && rs[o.value][rk] == v
    ensures o.None? ==> forall j :: 0 <= j < |rs| ==> rs[j][rk] != v
  {
    if |rs| == 0 then None
    else if rs[0][rk] == v then Some(0)
    else match FindKey(rs[1..], rk, v)
      case Some(j) => Some(j + 1)
      case None => None
  }

  /** The (left row, right row) position pairs an inner join keeps, in left order: every
      pair agrees on the key, and no left row is used twice. */
  function Matches(ls: seq<Row>, rs: seq<Row>, lk: nat, rk: nat): (ps: seq<(nat, nat)>)
    requires Wide(ls, lk) && Wide(rs, rk)
    ensures forall n :: 0 <= n < |ps| ==>
      ps[n].0 < |ls| && ps[n].1 < |rs| && ls[ps[n].0][lk] == rs[ps[n].1][rk]
    ensures forall n, m :: 0 <= n < m < |ps| ==> ps[n].0 < ps[m].0
    decreases |ls|
  {
    if |ls| == 0 then []
    else
      var init := Matches(ls[..|ls| - 1], rs, lk, rk);
      match FindKey(rs, rk, ls[|ls| - 1][lk])
      case None => init
      case Some(j) => init + [(|ls| - 1, j)]
  }

  /** The merged rows: each left row followed by its partner's cells other than the key. */
  function Joined(ls: seq<Row>, rs: seq<Row>, lk: nat, rk: nat): (rows: seq<Row>)
    requires Wide(ls, lk) && Wide(rs, rk)
    ensures |rows| == |Matches(ls, rs, lk, rk)|
  {
    var ps := Matches(ls, rs, lk, rk);
    seq(|ps|, n requires 0 <= n < |ps| => ls[ps[n].0] + RemoveAt(rs[ps[n].1], rk))
  }

  /** `l.merge(r, on=key, validate="one_to_one", suffixes=("", suffix))`. A missing key
      column is a KeyError; the one-to-one check looks at the whole of each side before any
      row is matched, and names the side that repeats a key, or both; only then are the
      labels built. */
  function Merge(l: Table, r: Table, key: string, suffix: string): (m: Result<Table, FrameError>)
    requires WellFormed(l) && WellFormed(r)
    ensures m == Failure(MissingColumn(key)) <==> key !in l.columns || key !in r.columns
    ensures m == Failure(NotOneToOne(Both, key)) <==>
      key in l.columns && key in r.columns && !UniqueOn(l, key) && !UniqueOn(r, key)
    ensures m == Failure(NotOneToOne(Left, key)) <==>
      key in l.columns && key in r.columns && !UniqueOn(l, key) && UniqueOn(r, key)
    ensures m == Failure(NotOneToOne(Right, key)) <==>
      key in l.columns && key in r.columns && UniqueOn(l, key) && !UniqueOn(r, key)
    ensures m.Success? <==>
      key in l.columns && key in r.columns && UniqueOn(l, key) && UniqueOn(r, key)
      && Distinct(MergedLabels(l, r, key, suffix))
    ensures m.Success? ==> WellFormed(m.value) && m.value.columns == MergedLabels(l, r, key, suffix)
    ensures m.Success? ==> key in m.value.columns && UniqueOn(m.value, key)
  {
    if key !in l.columns || key !in r.columns then Failure(MissingColumn(key))
    else
      var lk, rk := IndexOf(l.columns, key), IndexOf(r.columns, key);
      var leftUnique, rightUnique := UniqueAt(l.rows, lk), UniqueAt(r.rows, rk);
      if !leftUnique && !rightUnique then Failure(NotOneToOne(Both, key))
      else if !leftUnique then Failure(NotOneToOne(Left, key))
      else if !rightUnique then Failure(NotOneToOne(Right, key))
      else
        var labels := MergedLabels(l, r, key, suffix);
        if !Distinct(labels) then Failure(DuplicateColumns)
        else
          JoinedShape(l, r, key, suffix);
          Success(Table(labels, Joined(l.rows, r.rows, lk, rk)))
  }

  /** The merged rows fit the merged labels, and keep the left side's unique keys unique. */
  lemma JoinedShape(l: Table, r: Table, key: string, suffix: string)
    requires WellFormed(l) && WellFormed(r) && key in l.columns && key in r.columns
    requires UniqueOn(l, key) && Distinct(MergedLabels(l, r, key, suffix))
    ensures var t := Table(MergedLabels(l, r, key, suffix),
                           Joined(l.rows, r.rows, IndexOf(l.columns, key), IndexOf(r.columns, key)));
      WellFormed(t) && key in t.columns && UniqueOn(t, key)
  {
    var lk, rk := IndexOf(l.columns, key), IndexOf(r.columns, key);
    var labels := MergedLabels(l, r, key, suffix);
    var rows := Joined(l.rows, r.rows, lk, rk);
    assert labels[lk] == key;
    IndexOfDistinct(labels, lk);
    JoinedWidth(l.rows, r.rows, lk, rk, |l.columns|, |r.columns|);
    JoinedUnique(l.rows, r.rows, lk, rk, |l.columns|);
  }

  /** Each joined row has the left width plus the right width less the key. */
  lemma JoinedWidth(ls: seq<Row>, rs: seq<Row>, lk: nat, rk: nat, lw: nat, rw: nat)
    requires Wide(ls, lk) && Wide(rs, rk)
    requires forall x :: x in ls ==> |x| == lw
    requires forall x :: x in rs ==> |x| == rw
    ensures forall x :: x in Joined(ls, rs, lk, rk) ==> |x| == lw + rw - 1
  {
    var ps := Matches(ls, rs, lk, rk);
    var rows := Joined(ls, rs, lk, rk);
    forall x | x in rows
      ensures |x| == lw + rw - 1
    {
      var n :| 0 <= n < |rows| && rows[n] == x;
      assert ls[ps[n].0] in ls && rs[ps[n].1] in rs;
    }
  }

  /** Joined rows carry their left rows' keys in front, so unique left keys stay unique. */
  lemma JoinedUnique(ls: seq<Row>, rs: seq<Row>, lk: nat, rk: nat, lw: nat)
    requires Wide(ls, lk) && Wide(rs, rk) && UniqueAt(ls, lk)
    requires forall x :: x in ls ==> |x| == lw
    ensures Wide(Joined(ls, rs, lk, rk), lk) && UniqueAt(Joined(ls, rs, lk, rk), lk)
  {
    var ps := Matches(ls, rs, lk, rk);
    var rows := Joined(ls, rs, lk, rk);
    forall x | x in rows
      ensures lk < |x|
    {
      var n :| 0 <= n < |rows| && rows[n] == x;
      assert ls[ps[n].0] in ls;
    }
    forall n, m | 0 <= n < m < |rows|
      ensures rows[n][lk] != rows[m][lk]
    {
      assert ls[ps[n].0] in ls && ls[ps[m].0] in ls;
      assert rows[n][lk] == ls[ps[n].0][lk];
      assert rows[m][lk] == ls[ps[m].0][lk];
    }
  }

  /** A successful merge is the merged labels over the joined rows. */
  lemma MergeValue(l: Table, r: Table, key: string, suffix: string)
    requires WellFormed(l) && WellFormed(r) && Merge(l, r, key, suffix).Success?
    ensures key in l.columns && key in r.columns
    ensures Merge(l, r, key, suffix).value ==
      Table(MergedLabels(l, r, key, suffix), Joined(l.rows, r.rows, IndexOf(l.columns, key), IndexOf(r.columns, key)))
  {
  }

  /** Every merged row is a matched pair: its left row's cells come first, unchanged. */
  lemma MergeLeftCell(l: Table, r: Table, key: string, suffix: string, n: nat, c: string)
    requires WellFormed(l) && WellFormed(r) && Merge(l, r, key, suffix).Success?
    requires n < |Merge(l, r, key, suffix).value.rows| && c in l.columns
    ensures var m := Merge(l, r, key, suffix).value;
      var ps := Matches(l.rows, r.rows, IndexOf(l.columns, key), IndexOf(r.columns, key));
      n < |ps| && c in m.columns && Cell(m, m.rows[n], c) == Cell(l, l.rows[ps[n].0], c)
  {
    MergeValue(l, r, key, suffix);
    var m := Merge(l, r, key, suffix).value;
    JoinedLeftCell(l, r, key, suffix, m, n, c);
  }

  lemma JoinedLeftCell(l: Table, r: Table, key: string, suffix: string, m: Table, n: nat, c: string)
    requires WellFormed(l) && WellFormed(r) && key in l.columns && key in r.columns && WellFormed(m)
    requires m == Table(MergedLabels(l, r, key, suffix), Joined(l.rows, r.rows, IndexOf(l.columns, key), IndexOf(r.columns, key)))
    requires n < |m.rows| && c in l.columns
    ensures var ps := Matches(l.rows, r.rows, IndexOf(l.columns, key), IndexOf(r.columns, key));
      n < |ps| && c in m.columns && Cell(m, m.rows[n], c) == Cell(l, l.rows[ps[n].0], c)
  {
    var ps := Matches(l.rows, r.rows, IndexOf(l.columns, key), IndexOf(r.columns, key));
    var q := IndexOf(l.columns, c);
    assert m.columns[q] == c;
    IndexOfDistinct(m.columns, q);
    assert l.rows[ps[n].0] in l.rows;
  }

  /** ... and then its right row's cells other than the key, under the label the right side
      had, suffixed when the left side has that label too (the left keeps the plain one). */
  lemma MergeRightCell(l: Table, r: Table, key: string, suffix: string, n: nat, c: string)
    requires WellFormed(l) && WellFormed(r) && Merge(l, r, key, suffix).Success?
    requires n < |Merge(l, r, key, suffix).value.rows| && c in r.columns && c != key
    ensures var m := Merge(l, r, key, suffix).value;
      var ps := Matches(l.rows, r.rows, IndexOf(l.columns, key), IndexOf(r.columns, key));
      var name := if c in l.columns then c + suffix else c;
      n < |ps| && name in m.columns && Cell(m, m.rows[n], name) == Cell(r, r.rows[ps[n].1], c)
  {
    MergeValue(l, r, key, suffix);
    var m := Merge(l, r, key, suffix).value;
    JoinedRightCell(l, r, key, suffix, m, n, c);
  }

  lemma JoinedRightCell(l: Table, r: Table, key: string, suffix: string, m: Table, n: nat, c: string)
    requires WellFormed(l) && WellFormed(r) && key in l.columns && key in r.columns && WellFormed(m)
    requires m == Table(MergedLabels(l, r, key, suffix), Joined(l.rows, r.rows, IndexOf(l.columns, key), IndexOf(r.columns, key)))
    requires n < |m.rows| && c in r.columns && c != key
    ensures var ps := Matches(l.rows, r.rows, IndexOf(l.columns, key), IndexOf(r.columns, key));
      n < |ps| && RightLabel(l.columns, c, suffix) in m.columns
      && Cell(m, m.rows[n], RightLabel(l.columns, c, suffix)) == Cell(r, r.rows[ps[n].1], c)
  {
    var lk, rk := IndexOf(l.columns, key), IndexOf(r.columns, key);
    var ps := Matches(l.rows, r.rows, lk, rk);
    var t := IndexOf(r.columns, c);
    var p := |l.columns| + (if t < rk then t else t - 1);
    var name := RightLabel(l.columns, c, suffix);
    assert name in m.columns && IndexOf(m.columns, name) == p by {
      RightLabelIndex(l, r, key, suffix, c);
    }
    var rows := Joined(l.rows, r.rows, lk, rk);
    assert n < |ps| && p < |rows[n]| && rows[n][p] == r.rows[ps[n].1][t] by {
      JoinedRightAt(l.rows, r.rows, lk, rk, n, |l.columns|, |r.columns|, t, p);
    }
    assert m.rows == rows;
    assert r.rows[ps[n].1] in r.rows;
  }

  /** In the `n`-th joined row, the right partner's cell `t` (not the key) sits after the
      left row, one place earlier when it came after the key. */
  lemma JoinedRightAt(ls: seq<Row>, rs: seq<Row>, lk: nat, rk: nat, n: nat, lw: nat, rw: nat, t: nat, p: nat)
    requires Wide(ls, lk) && Wide(rs, rk) && n < |Joined(ls, rs, lk, rk)|
    requires (forall x :: x in ls ==> |x| == lw) && (forall x :: x in rs ==> |x| == rw)
    requires t < rw && t != rk && p == lw + (if t < rk then t else t - 1)
    ensures n < |Matches(ls, rs, lk, rk)| && p < |Joined(ls, rs, lk, rk)[n]|
    ensures Joined(ls, rs, lk, rk)[n][p] == rs[Matches(ls, rs, lk, rk)[n].1][t]
  {
    var ps := Matches(ls, rs, lk, rk);
    JoinedAt(ls, rs, lk, rk, n);
    var lrow, rrow := ls[ps[n].0], rs[ps[n].1];
    assert lrow in ls && rrow in rs;
    AfterRemoved(lrow, rrow, rk, t);
  }

  /** With distinct merged labels, a right-hand column's label is found where the column
      landed. */
  lemma RightLabelIndex(l: Table, r: Table, key: string, suffix: string, c: string)
    requires WellFormed(r) && key in r.columns && c in r.columns && c != key
    requires Distinct(MergedLabels(l, r, key, suffix))
    ensures var t, rk := IndexOf(r.columns, c), IndexOf(r.columns, key);
      var q := if t < rk then t else t - 1;
      t != rk && RightLabel(l.columns, c, suffix) in MergedLabels(l, r, key, suffix)
      && IndexOf(MergedLabels(l, r, key, suffix), RightLabel(l.columns, c, suffix)) == |l.columns| + q
  {
    var t, rk := IndexOf(r.columns, c), IndexOf(r.columns, key);
    var q := if t < rk then t else t - 1;
    MergedLabelAt(l, r, key, suffix, c);
    IndexOfDistinct(MergedLabels(l, r, key, suffix), |l.columns| + q);
  }

  /** The `n`-th joined row is the `n`-th matched left row followed by its right partner
      without the key cell. */
  lemma JoinedAt(ls: seq<Row>, rs: seq<Row>, lk: nat, rk: nat, n: nat)
    requires Wide(ls, lk) && Wide(rs, rk) && n < |Joined(ls, rs, lk, rk)|
    ensures var ps := Matches(ls, rs, lk, rk);
      n < |ps| && Joined(ls, rs, lk, rk)[n] == ls[ps[n].0] + RemoveAt(rs[ps[n].1], rk)
  {
  }

  /** After a prefix `a`, the cells of `b` with position `k` removed sit `|a|` places on,
      one place earlier when they came after `k`. */
  lemma AfterRemoved<T>(a: seq<T>, b: seq<T>, k: nat, t: nat)
    requires k < |b| && t < |b| && t != k
    ensures var q := if t < k then t else t - 1;
      |a| + q < |a + RemoveAt(b, k)| && (a + RemoveAt(b, k))[|a| + q] == b[t]
  {
  }

  /** Where a right-hand column lands among the merged labels. */
  lemma MergedLabelAt(l: Table, r: Table, key: string, suffix: string, c: string)
    requires WellFormed(r) && key in r.columns && c in r.columns && c != key
    ensures var t, rk := IndexOf(r.columns, c), IndexOf(r.columns, key);
      var q := if t < rk then t else t - 1;
      t != rk && |l.columns| + q < |MergedLabels(l, r, key, suffix)|
      && MergedLabels(l, r, key, suffix)[|l.columns| + q] == RightLabel(l.columns, c, suffix)
  {
    var t, rk := IndexOf(r.columns, c), IndexOf(r.columns, key);
    var q := if t < rk then t else t - 1;
    var rest := RemoveAt(r.columns, rk);
    assert rest[q] == c;
    var tail := seq(|rest|, q requires 0 <= q < |rest| => RightLabel(l.columns, rest[q], suffix));
    assert MergedLabels(l, r, key, suffix) == l.columns + tail;
    assert tail[q] == RightLabel(l.columns, c, suffix);
  }

  /** Inner-join completeness: when the right side's keys are unique, every left row and
      right row that agree on the key are paired. */
  lemma {:induction false} MatchesComplete(ls: seq<Row>, rs: seq<Row>, lk: nat, rk: nat, i: nat, j: nat)
    requires Wide(ls, lk) && Wide(rs, rk) && UniqueAt(rs, rk)
    requires i < |ls| && j < |rs| && ls[i][lk] == rs[j][rk]
    ensures (i, j) in Matches(ls, rs, lk, rk)
    decreases |ls|
  {
    var init := ls[..|ls| - 1];
    if i < |ls| - 1 {
      assert init[i] == ls[i];
      MatchesComplete(init, rs, lk, rk, i, j);
    } else {
      var o := FindKey(rs, rk, ls[i][lk]);
      assert o.Some? && o.value == j;
    }
  }

  /** A matched pair of rows agree on the key; and any two rows that agree on the key are
      matched. */
  lemma MergePairs(l: Table, r: Table, key: string, suffix: string, i: nat, j: nat)
    requires WellFormed(l) && WellFormed(r) && Merge(l, r, key, suffix).Success?
    requires i < |l.rows| && j < |r.rows|
    ensures var ps := Matches(l.rows, r.rows, IndexOf(l.columns, key), IndexOf(r.columns, key));
      (i, j) in ps <==> Cell(l, l.rows[i], key) == Cell(r, r.rows[j], key)
  {
    var lk, rk := IndexOf(l.columns, key), IndexOf(r.columns, key);
    assert l.rows[i] in l.rows && r.rows[j] in r.rows;
    if Cell(l, l.rows[i], key) == Cell(r, r.rows[j], key) {
      MatchesComplete(l.rows, r.rows, lk, rk, i, j);
    }
  }

  /** The (left row, right row) positions a merge on `key` pairs, in output order. */
  function Pairs(l: Table, r: Table, key: string): seq<(nat, nat)>
    requires WellFormed(l) && WellFormed(r) && key in l.columns && key in r.columns
  {
    Matches(l.rows, r.rows, IndexOf(l.columns, key), IndexOf(r.columns, key))
  }

  /** The positions of the rows `Where(t, c)` keeps. */
  ghost function Picked(t: Table, c: string): seq<nat>
    requires WellFormed(t) && c in t.columns
  {
    Positions(OneAt(IndexOf(t.columns, c)), t.rows)
  }

  /** Every selected row is a row of `t` whose cell in `c` is one; selected rows keep `t`'s
      order. */
  lemma WhereOrigin(t: Table, c: string, x: nat)
    requires WellFormed(t) && c in t.columns && x < |Where(t, c).value.rows|
    ensures x < |Picked(t, c)| && Picked(t, c)[x] < |t.rows| && Increasing(Picked(t, c))
    ensures var j := Picked(t, c)[x];
      Where(t, c).value.rows[x] == t.rows[j] && t.rows[j] in t.rows && IsOne(Cell(t, t.rows[j], c))
  {
    var k := IndexOf(t.columns, c);
    FilterReadsPositions(OneAt(k), t.rows);
    var j := Picked(t, c)[x];
    assert Where(t, c).value.rows[x] in Where(t, c).value.rows;
  }

  /** Every row of `t` whose cell in `c` is one is selected. */
  lemma WhereReach(t: Table, c: string, j: nat) returns (x: nat)
    requires WellFormed(t) && c in t.columns && j < |t.rows| && IsOne(Cell(t, t.rows[j], c))
    ensures x < |Where(t, c).value.rows| && x < |Picked(t, c)| && Picked(t, c)[x] == j
    ensures Where(t, c).value.rows[x] == t.rows[j]
  {
    var k := IndexOf(t.columns, c);
    assert t.rows[j] in t.rows;
    FilterReadsPositions(OneAt(k), t.rows);
    assert OneAt(k)(t.rows[j]);
    PositionsExact(OneAt(k), t.rows, j);
    x :| 0 <= x < |Picked(t, c)| && Picked(t, c)[x] == j;
    assert Where(t, c).value.rows == Filter(OneAt(k), t.rows);
    assert |Picked(t, c)| == |Filter(OneAt(k), t.rows)|;
  }

  /** Where a row of `l.merge(t[t[flag] == 1], on=key)` came from: the left row and the
      selected right row the merge paired, with the right row's position in `r` itself.
      Every left label reads the left row; every right label the left side lacks reads
      the right row. */
  lemma SelectedMergeRow(l: Table, r: Table, flag: string, key: string, suffix: string, a: nat)
    returns (i: nat, j: nat)
    requires WellFormed(l) && WellFormed(r) && flag in r.columns
    requires Merge(l, Where(r, flag).value, key, suffix).Success?
    requires a < |Merge(l, Where(r, flag).value, key, suffix).value.rows|
    ensures key in l.columns && key in r.columns
    ensures var ps := Pairs(l, Where(r, flag).value, key);
      a < |ps| && i == ps[a].0 && ps[a].1 < |Picked(r, flag)| && j == Picked(r, flag)[ps[a].1]
    ensures i < |l.rows| && j < |r.rows| && l.rows[i] in l.rows && r.rows[j] in r.rows
    ensures IsOne(Cell(r, r.rows[j], flag)) && Cell(l, l.rows[i], key) == Cell(r, r.rows[j], key)
    ensures var m := Merge(l, Where(r, flag).value, key, suffix).value;
      forall c :: c in l.columns ==> c in m.columns && Cell(m, m.rows[a], c) == Cell(l, l.rows[i], c)
    ensures var m := Merge(l, Where(r, flag).value, key, suffix).value;
      forall c :: c in r.columns && c !in l.columns ==>
        c in m.columns && Cell(m, m.rows[a], c) == Cell(r, r.rows[j], c)
  {
    var s := Where(r, flag).value;
    var m := Merge(l, s, key, suffix).value;
    MergeValue(l, s, key, suffix);
    var ps := Pairs(l, s, key);
    var x := ps[a].1;
    i := ps[a].0;
    WhereOrigin(r, flag, x);
    j := Picked(r, flag)[x];
    assert s.rows[x] == r.rows[j];
    assert l.rows[i] in l.rows;
    forall c | c in l.columns
      ensures c in m.columns && Cell(m, m.rows[a], c) == Cell(l, l.rows[i], c)
    {
      JoinedLeftCell(l, s, key, suffix, m, a, c);
    }
    forall c | c in r.columns && c !in l.columns
      ensures c in m.columns && Cell(m, m.rows[a], c) == Cell(r, r.rows[j], c)
    {
      JoinedRightCell(l, s, key, suffix, m, a, c);
    }
  }

  /** When no passing row of `r` holds `v` under `key`, no selected row does. */
  lemma SelectedAvoid(r: Table, flag: string, key: string, v: Value)
    requires WellFormed(r) && flag in r.columns && key in r.columns
    requires forall j :: 0 <= j < |r.rows| && IsOne(CellAt(r, j, flag)) ==> CellAt(r, j, key) != v
    ensures forall x :: 0 <= x < |Where(r, flag).value.rows| ==> CellAt(Where(r, flag).value, x, key) != v
  {
    var s := Where(r, flag).value;
    forall x | 0 <= x < |s.rows|
      ensures CellAt(s, x, key) != v
    {
      WhereOrigin(r, flag, x);
      var j := Picked(r, flag)[x];
      assert CellAt(r, j, key) == CellAt(s, x, key);
    }
  }

  /** Conversely, a left row and a selected right row that agree on the key make a row of
      `l.merge(r[r[flag] == 1], on=key)`. */
  lemma SelectedMergeReach(l: Table, r: Table, flag: string, key: string, suffix: string, i: nat, j: nat)
    returns (a: nat)
    requires WellFormed(l) && WellFormed(r) && flag in r.columns && key in l.columns && key in r.columns
    requires Merge(l, Where(r, flag).value, key, suffix).Success?
    requires i < |l.rows| && j < |r.rows| && r.rows[j] in r.rows && l.rows[i] in l.rows
    requires IsOne(Cell(r, r.rows[j], flag)) && Cell(l, l.rows[i], key) == Cell(r, r.rows[j], key)
    ensures a < |Merge(l, Where(r, flag).value, key, suffix).value.rows|
    ensures var ps := Pairs(l, Where(r, flag).value, key);
      a < |ps| && ps[a].0 == i && ps[a].1 < |Picked(r, flag)| && Picked(r, flag)[ps[a].1] == j
  {
    var s := Where(r, flag).value;
    var x := WhereReach(r, flag, j);
    MergePairs(l, s, key, suffix, i, x);
    var ps := Pairs(l, s, key);
    a :| 0 <= a < |ps| && ps[a] == (i, x);
    MergeValue(l, s, key, suffix);
  }

  /** Two different rows of `r` that both pass the selection and share a key leave the
      selection not unique on that key. */
  lemma SelectedRepeat(r: Table, flag: string, key: string, j1: nat, j2: nat)
    requires WellFormed(r) && flag in r.columns && key in r.columns
    requires j1 < |r.rows| && j2 < |r.rows| && j1 != j2 && r.rows[j1] in r.rows && r.rows[j2] in r.rows
    requires IsOne(Cell(r, r.rows[j1], flag)) && IsOne(Cell(r, r.rows[j2], flag))
    requires Cell(r, r.rows[j1], key) == Cell(r, r.rows[j2], key)
    ensures !UniqueOn(Where(r, flag).value, key)
  {
    var s := Where(r, flag).value;
    var x1 := WhereReach(r, flag, j1);
    var x2 := WhereReach(r, flag, j2);
    var k := IndexOf(r.columns, key);
    if x1 < x2 {
      assert s.rows[x1][k] == s.rows[x2][k];
    } else {
      assert s.rows[x2][k] == s.rows[x1][k];
    }
  }

  /** A row appended to `t` that fails the selection leaves the selection as it was. */
  lemma WhereIgnoresFailing(t: Table, c: string, row: Row)
    requires WellFormed(t) && |row| == |t.columns|
    requires c in t.columns ==> !IsOne(row[IndexOf(t.columns, c)])
    ensures WellFormed(Table(t.columns, t.rows + [row]))
    ensures Where(Table(t.columns, t.rows + [row]), c) == Where(t, c)
  {
    var t' := Table(t.columns, t.rows + [row]);
    if c in t.columns {
      var k := IndexOf(t.columns, c);
      assert !OneAt(k)(row);
      assert t'.rows[..|t'.rows| - 1] == t.rows;
      assert Filter(OneAt(k), t'.rows) == Filter(OneAt(k), t.rows);
    }
  }

  /** A left row appended to `l` whose key is new on the left and absent on the right
      leaves the merge as it was, success or failure: the inner join drops it. */
  lemma MergeIgnoresUnmatchedLeft(l: Table, r: Table, key: string, suffix: string, row: Row)
    requires WellFormed(l) && WellFormed(r) && |row| == |l.columns|
    requires key in l.columns && key in r.columns ==>
      (forall i :: 0 <= i < |l.rows| ==> CellAt(l, i, key) != row[IndexOf(l.columns, key)])
      && (forall j :: 0 <= j < |r.rows| ==> CellAt(r, j, key) != row[IndexOf(l.columns, key)])
    ensures WellFormed(Table(l.columns, l.rows + [row]))
    ensures Merge(Table(l.columns, l.rows + [row]), r, key, suffix) == Merge(l, r, key, suffix)
  {
    var l' := Table(l.columns, l.rows + [row]);
    if key in l.columns && key in r.columns {
      var lk, rk := IndexOf(l.columns, key), IndexOf(r.columns, key);
      forall i | 0 <= i < |l.rows|
        ensures l.rows[i][lk] != row[lk]
      {
        assert CellAt(l, i, key) != row[lk];
      }
      forall j | 0 <= j < |r.rows|
        ensures r.rows[j][rk] != row[lk]
      {
        assert CellAt(r, j, key) != row[lk];
      }
      UniqueAtExtended(l.rows, lk, row);
      MatchesIgnoresUnmatched(l.rows, r.rows, lk, rk, row);
    }
  }

  /** Appending a row with a new key keeps a uniqueness verdict as it was. */
  lemma UniqueAtExtended(rows: seq<Row>, k: nat, row: Row)
    requires Wide(rows, k) && k < |row|
    requires forall i :: 0 <= i < |rows| ==> rows[i][k] != row[k]
    ensures Wide(rows + [row], k)
    ensures UniqueAt(rows + [row], k) <==> UniqueAt(rows, k)
  {
    var rows' := rows + [row];
    if UniqueAt(rows, k) {
      forall i, j | 0 <= i < j < |rows'|
        ensures rows'[i][k] != rows'[j][k]
      {
        if j == |rows| {
          assert rows'[i] == rows[i];
        }
      }
    } else {
      var i, j :| 0 <= i < j < |rows| && rows[i][k] == rows[j][k];
      assert rows'[i][k] == rows'[j][k];
    }
  }

  /** A left row whose key no right row has is paired with nothing, and the rows before
      it are paired as they were. */
  lemma MatchesIgnoresUnmatched(ls: seq<Row>, rs: seq<Row>, lk: nat, rk: nat, row: Row)
    requires Wide(ls, lk) && Wide(rs, rk) && lk < |row|
    requires forall j :: 0 <= j < |rs| ==> rs[j][rk] != row[lk]
    ensures Wide(ls + [row], lk)
    ensures Matches(ls + [row], rs, lk, rk) == Matches(ls, rs, lk, rk)
    ensures Joined(ls + [row], rs, lk, rk) == Joined(ls, rs, lk, rk)
  {
    var ls' := ls + [row];
    assert ls'[..|ls'| - 1] == ls;
    assert FindKey(rs, rk, row[lk]).None?;
    var ps := Matches(ls, rs, lk, rk);
    assert Matches(ls', rs, lk, rk) == ps;
    forall n | 0 <= n < |ps|
      ensures Joined(ls', rs, lk, rk)[n] == Joined(ls, rs, lk, rk)[n]
    {
      assert ls'[ps[n].0] == ls[ps[n].0];
    }
  }

  /** Whether label `c` ends with `suffix`. */
  predicate EndsWith(c: string, suffix: string) {
    |suffix| <= |c| && c[|c| - |suffix|..] == suffix
  }

  /** A merged label that the left side lacks and that does not end with the suffix is a
      right-hand label other than the key, kept as it was. */
  lemma MergedLabelFromRight(l: Table, r: Table, key: string, suffix: string, c: string)
    requires WellFormed(r) && key in r.columns && c in MergedLabels(l, r, key, suffix)
    requires c !in l.columns && !EndsWith(c, suffix)
    ensures c in r.columns && c != key
  {
    var rk := IndexOf(r.columns, key);
    var rest := RemoveAt(r.columns, rk);
    var tail := seq(|rest|, q requires 0 <= q < |rest| => RightLabel(l.columns, rest[q], suffix));
    assert MergedLabels(l, r, key, suffix) == l.columns + tail;
    var q :| 0 <= q < |tail| && tail[q] == c;
    var e := rest[q];
    if e in l.columns {
      assert false;
    }
    var t := if q < rk then q else q + 1;
    assert e == r.columns[t] && t != rk;
  }

  // ---------------------------------------------------------------------------------------
  // Renaming columns

  /** The label `c` gets under `mapping`; labels the mapping does not name stay. */
  function Relabel(c: string, mapping: map<string, string>): string {
    if c in mapping then mapping[c] else c
  }

  function Relabelled(cols: seq<string>, mapping: map<string, string>): seq<string> {
    seq(|cols|, q requires 0 <= q < |cols| => Relabel(cols[q], mapping))
  }

  /** `t.rename(columns=mapping)`: every label is looked up once; the cells do not move. */
  function Rename(t: Table, mapping: map<string, string>): (r: Result<Table, FrameError>)
    requires WellFormed(t)
    ensures r.Success? <==> Distinct(Relabelled(t.columns, mapping))
    ensures r.Failure? ==> r.error == DuplicateColumns
    ensures r.Success? ==> WellFormed(r.value) && r.value.rows == t.rows
    ensures r.Success? ==> r.value.columns == Relabelled(t.columns, mapping)
    ensures r.Success? ==> forall c :: c in t.columns ==>
      Relabel(c, mapping) in r.value.columns && IndexOf(r.value.columns, Relabel(c, mapping)) == IndexOf(t.columns, c)
  {
    var labels := Relabelled(t.columns, mapping);
    if !Distinct(labels) then Failure(DuplicateColumns)
    else
      assert forall c :: c in t.columns ==> labels[IndexOf(t.columns, c)] == Relabel(c, mapping);
      assert forall q :: 0 <= q < |labels| ==> IndexOf(labels, labels[q]) == q;
      Success(Table(labels, t.rows))
  }

  /** After a rename a cell is found under its column's new label. */
  lemma RenameCell(t: Table, mapping: map<string, string>, i: nat, c: string)
    requires WellFormed(t) && Rename(t, mapping).Success? && i < |t.rows| && c in t.columns
    ensures var r := Rename(t, mapping).value;
      i < |r.rows| && Relabel(c, mapping) in r.columns
      && Cell(r, r.rows[i], Relabel(c, mapping)) == Cell(t, t.rows[i], c)
  {
    assert t.rows[i] in t.rows;
  }

  // ---------------------------------------------------------------------------------------
  // Whole-column assignment: t[c] = f(t[c])

  /** Replaces every cell of column `c` by `f` of it (`t[c] = t[c].fillna(...)`,
      `t[c] = t[c].astype(bool)`); reading the column first fails if it is missing. */
  function Apply(t: Table, c: string, f: Value -> Value): (r: Result<Table, FrameError>)
    requires WellFormed(t)
    ensures r.Failure? <==> c !in t.columns
    ensures r.Failure? ==> r.error == MissingColumn(c)
    ensures r.Success? ==> WellFormed(r.value) && r.value.columns == t.columns && |r.value.rows| == |t.rows|
    ensures r.Success? ==> forall i, d :: 0 <= i < |t.rows| && d in t.columns ==>
      Cell(r.value, r.value.rows[i], d) == if d == c then f(Cell(t, t.rows[i], c)) else Cell(t, t.rows[i], d)
  {
    if c !in t.columns then Failure(MissingColumn(c))
    else
      var k := IndexOf(t.columns, c);
      assert forall i :: 0 <= i < |t.rows| ==> t.rows[i] in t.rows;
      var rows := seq(|t.rows|, i requires 0 <= i < |t.rows| => t.rows[i][k := f(t.rows[i][k])]);
      assert forall d :: d in t.columns && d != c ==> IndexOf(t.columns, d) != k;
      Success(Table(t.columns, rows))
  }

  // ---------------------------------------------------------------------------------------
  // Column selection: t[names]

  /** The first label of `names` that `cols` lacks. */
  function FirstMissing(names: seq<string>, cols: seq<string>): (o: Option<string>)
    ensures o.None? <==> forall c :: c in names ==> c in cols
    ensures o.Some? ==> o.value in names && o.value !in cols
  {
    if |names| == 0 then None
    else if names[0] !in cols then Some(names[0])
    else FirstMissing(names[1..], cols)
  }

  /** `t[names]`: exactly the columns `names`, in that order; a KeyError if one is missing. */
  function Project(t: Table, names: seq<string>): (r: Result<Table, FrameError>)
    requires WellFormed(t)
    ensures r.Success? <==> Distinct(names) && forall c :: c in names ==> c in t.columns
    ensures r.Failure? ==> (r.error.MissingColumn? <==> exists c :: c in names && c !in t.columns)
    ensures r.Failure? && r.error.MissingColumn? ==> r.error.name in names && r.error.name !in t.columns
    ensures r.Failure? && !r.error.MissingColumn? ==> r.error == DuplicateColumns
    ensures r.Success? ==> WellFormed(r.value) && r.value.columns == names && |r.value.rows| == |t.rows|
    ensures r.Success? ==> forall i, q :: 0 <= i < |t.rows| && 0 <= q < |names| ==>
      r.value.rows[i][q] == Cell(t, t.rows[i], names[q])
  {
    match FirstMissing(names, t.columns)
    case Some(c) => Failure(MissingColumn(c))
    case None =>
      if !Distinct(names) then Failure(DuplicateColumns)
      else
        assert forall i :: 0 <= i < |t.rows| ==> t.rows[i] in t.rows;
        var rows := seq(|t.rows|, i requires 0 <= i < |t.rows| =>
          seq(|names|, q requires 0 <= q < |names| => Cell(t, t.rows[i], names[q])));
        Success(Table(names, rows))
  }
}
