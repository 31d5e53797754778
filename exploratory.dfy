/** Column discovery for the key exploration: `get_id_like_columns` keeps the column names
    in which `re.search("id$|_id", name)` finds a match. */
module Exploratory {
  import opened Wrappers
  import opened Seqs

  /** `w` occurs in `col` starting at position `k`. */
  predicate InfixAt(col: string, w: string, k: nat) {
    k + |w| <= |col| && col[k..k + |w|] == w
  }

  /** What the pattern asks for, read directly: the name ends in "id" or contains "_id". */
  predicate IdLike(col: string) {
    (|col| >= 2 && col[|col| - 2..] == "id") || exists k: nat :: k < |col| && InfixAt(col, "_id", k)
  }

  /** The regular expression tried at position `k`: the first alternative `id$` (the two
      letters, then the end of the name), else the second `_id`. The end of the match. */
  function MatchAt(col: string, k: nat): (r: Option<nat>)
    requires k <= |col|
    ensures r.Some? ==> k < r.value <= |col|
    ensures r.Some? ==>
      (r.value == k + 2 == |col| && col[k..] == "id") || (r.value == k + 3 && col[k..r.value] == "_id")
  {
    if k + 2 == |col| && col[k..] == "id" then Some(k + 2)
    else if k + 3 <= |col| && col[k..k + 3] == "_id" then Some(k + 3)
    else None
  }

  /** The scan `re.search` makes from position `k` on: the leftmost start where the pattern
      matches, with the end of that match. */
  function SearchFrom(col: string, k: nat): (r: Option<(nat, nat)>)
    requires k <= |col|
    ensures r.Some? ==> k <= r.value.0 <= |col| && MatchAt(col, r.value.0) == Some(r.value.1)
    ensures r.Some? ==> forall j :: k <= j < r.value.0 ==> MatchAt(col, j).None?
    decreases |col| - k
  {
    match MatchAt(col, k)
    case Some(e) => Some((k, e))
    case None => if k == |col| then None else SearchFrom(col, k + 1)
  }

  /** `re.search("id$|_id", col)`: `None`, or the span of the leftmost match. */
  function Search(col: string): (r: Option<(nat, nat)>)
    ensures r.Some? ==> r.value.0 < r.value.1 <= |col|
    ensures r.Some? ==> col[r.value.0..r.value.1] == "id" || col[r.value.0..r.value.1] == "_id"
    ensures r.Some? ==> forall j :: 0 <= j < r.value.0 ==> MatchAt(col, j).None?
    ensures r.Some? && col[r.value.0..r.value.1] == "id" ==> r.value.1 == |col|
  {
    SearchFrom(col, 0)
  }

  /** A match anywhere from `k` on is found by the scan from `k`. */
  lemma {:induction false} SearchFromComplete(col: string, k: nat, j: nat)
    requires k <= j <= |col| && MatchAt(col, j).Some?
    ensures SearchFrom(col, k).Some?
    decreases j - k
  {
    if k < j && MatchAt(col, k).None? {
      SearchFromComplete(col, k + 1, j);
    }
  }

  /** The regular expression finds a match exactly when the name ends in "id" or contains
      "_id". */
  lemma SearchIdLike(col: string)
    ensures Search(col).Some? <==> IdLike(col)
  {
    if Search(col).Some? {
      var s := Search(col).value.0;
      if s + 2 == |col| && col[s..] == "id" {
        assert col[|col| - 2..] == "id";
      } else {
        assert InfixAt(col, "_id", s);
      }
    }
    if IdLike(col) {
      if |col| >= 2 && col[|col| - 2..] == "id" {
        assert MatchAt(col, |col| - 2).Some?;
        SearchFromComplete(col, 0, |col| - 2);
      } else {
        var k: nat :| k < |col| && InfixAt(col, "_id", k);
        assert MatchAt(col, k).Some?;
        SearchFromComplete(col, 0, k);
      }
    }
  }

  /** `get_id_like_columns(cols)`: the names the search accepts, collected one by one in
      their order, every occurrence tested on its own. */
  method GetIdLikeColumns(cols: seq<string>) returns (candidates: seq<string>)
    ensures candidates == Filter(IdLike, cols)
  {
    candidates := [];
    for i := 0 to |cols|
      invariant candidates == Filter(IdLike, cols[..i])
    {
      var col := cols[i];
      SearchIdLike(col);
      if Search(col).Some? {
        candidates := candidates + [col];
      }
      assert cols[..i + 1][..i] == cols[..i];
    }
    assert cols[..|cols|] == cols;
  }
}
