/** mysql/client.go: cutting a table into key ranges of `limit` rows. */
module Paging {
  import opened Common

  /** A table, given by the values of its key column in the order of its ID column. The query orders by ID and
      compares the key, whatever column the key is. */
  type Table = seq<int>

  function Above(rows: Table, start: int): (r: Table)
    ensures |r| <= |rows|
  {
    if rows == [] then []
    else Above(rows[..|rows| - 1], start) + if rows[|rows| - 1] > start then [rows[|rows| - 1]] else []
  }

  /** The rows of the interval that is open at `low` and closed at `high`. */
  function Between(rows: Table, low: int, high: int): Table {
    if rows == [] then []
    else Between(rows[..|rows| - 1], low, high) + if low < rows[|rows| - 1] <= high then [rows[|rows| - 1]] else []
  }

  function Least(a: nat, b: nat): nat {
    if a <= b then a else b
  }

  function Page(rows: Table, start: int, limit: nat): Table {
    Above(rows, start)[..Least(limit, |Above(rows, start)|)]
  }

  function Max(s: seq<int>): (m: int)
    requires s != []
    ensures m in s && forall k | k in s :: k <= m
  {
    if |s| == 1 then s[0]
    else
      var rest := Max(s[..|s| - 1]);
      assert s == s[..|s| - 1] + [s[|s| - 1]];
      if rest >= s[|s| - 1] then rest else s[|s| - 1]
  }

  /** SELECT MAX(key) FROM (SELECT key FROM table WHERE key > start ORDER BY ID LIMIT limit); NULL becomes None. */
  function PageMax(rows: Table, start: int, limit: nat): Option<int> {
    if Page(rows, start, limit) == [] then None else Some(Max(Page(rows, start, limit)))
  }

  lemma {:induction false} AboveIn(rows: Table, start: int, k: int)
    ensures k in Above(rows, start) <==> k in rows && k > start
  {
    if rows != [] {
      AboveIn(rows[..|rows| - 1], start, k);
      assert rows == rows[..|rows| - 1] + [rows[|rows| - 1]];
    }
  }

  lemma AboveSnoc(s: Table, k: int, start: int)
    ensures Above(s + [k], start) == Above(s, start) + if k > start then [k] else []
  {
    assert (s + [k])[..|s|] == s;
  }

  lemma BetweenSnoc(s: Table, k: int, low: int, high: int)
    ensures Between(s + [k], low, high) == Between(s, low, high) + if low < k <= high then [k] else []
  {
    assert (s + [k])[..|s|] == s;
  }

  /** The cut at `mid` splits what lies above `low`. */
  lemma {:induction false} AboveSplits(rows: Table, low: int, mid: int)
    requires low <= mid
    ensures |Above(rows, low)| == |Between(rows, low, mid)| + |Above(rows, mid)|
    ensures Above(rows, mid) == Above(Above(rows, low), mid)
  {
    if rows != [] {
      var front, last := rows[..|rows| - 1], rows[|rows| - 1];
      AboveSplits(front, low, mid);
      AboveSnoc(Above(front, low), last, mid);
      assert Above(rows, low) == Above(front, low) || Above(rows, low) == Above(front, low) + [last];
    }
  }

  lemma PageMaxIsAbove(rows: Table, start: int, limit: nat)
    ensures PageMax(rows, start, limit).Some? ==> PageMax(rows, start, limit).value in Above(rows, start)
    ensures PageMax(rows, start, limit).Some? ==> start < PageMax(rows, start, limit).value
    ensures PageMax(rows, start, limit).Some? ==>
              |Above(rows, PageMax(rows, start, limit).value)| < |Above(rows, start)|
    ensures limit > 0 ==> (PageMax(rows, start, limit).None? <==> Above(rows, start) == [])
  {
    if PageMax(rows, start, limit).Some? {
      var m := PageMax(rows, start, limit).value;
      AboveIn(rows, start, m);
      AboveSplits(rows, start, m);
      BetweenIn(rows, start, m, m);
    }
  }

  lemma {:induction false} BetweenIn(rows: Table, low: int, high: int, k: int)
    ensures k in Between(rows, low, high) <==> k in rows && low < k <= high
  {
    if rows != [] {
      BetweenIn(rows[..|rows| - 1], low, high, k);
      assert rows == rows[..|rows| - 1] + [rows[|rows| - 1]];
    }
  }

  /** The whole list of cuts. */
  function Cuts(rows: Table, start: int, limit: nat): (cuts: seq<int>)
    ensures cuts != [] && cuts[0] == start
    decreases |Above(rows, start)|
  {
    PageMaxIsAbove(rows, start, limit);
    match PageMax(rows, start, limit)
    case None => [start]
    case Some(m) => [start] + Cuts(rows, m, limit)
  }

  lemma CutsStep(rows: Table, start: int, limit: nat)
    ensures var next := PageMax(rows, start, limit);
            && (next.None? ==> Cuts(rows, start, limit) == [start])
            && (next.Some? ==> Cuts(rows, start, limit) == [start] + Cuts(rows, next.value, limit)
                               && Cuts(rows, next.value, limit) == [next.value] + Cuts(rows, next.value, limit)[1..])
  {
  }

  /** GetNextPage; `failing` is the number of the query that ends in an error, if one does, and a negative limit is
      an error of its own. */
  method GetNextPage(rows: Table, startId: int, limit: int, failing: Option<nat>) returns (list: Option<seq<int>>)
    ensures limit >= 0 && (failing.None? || failing.value >= |Cuts(rows, startId, limit)|) ==> list == Some(Cuts(rows, startId, limit))
    ensures limit < 0 || (failing.Some? && failing.value < |Cuts(rows, startId, limit)|) ==> list == None
  {
    hide Cuts, PageMax, Above;
    var pages := [startId];
    if limit >= 0 {
      assert [startId] + Cuts(rows, startId, limit)[1..] == Cuts(rows, startId, limit);
    }
    var maxId := startId;
    var count := 0;
    while true
      invariant |pages| == count + 1 && (failing.Some? ==> count <= failing.value)
      invariant limit >= 0 ==> pages + Cuts(rows, maxId, limit)[1..] == Cuts(rows, startId, limit)
      decreases |Above(rows, maxId)|
    {
      if limit < 0 || failing == Some(count) {
        return None;
      }
      var r := PageMax(rows, maxId, limit);
      count := count + 1;
      PageMaxIsAbove(rows, maxId, limit);
      CutsStep(rows, maxId, limit);
      if r.None? {
        break;
      }
      maxId := r.value;
      pages := pages + [maxId];
    }
    assert pages == Cuts(rows, startId, limit);
    list := Some(pages);
  }

  ghost predicate Increasing(s: seq<int>) {
    forall i, j | 0 <= i < j < |s| :: s[i] < s[j]
  }

  /** The intervals between neighbouring cuts that hold `k`. */
  ghost predicate Within(cuts: seq<int>, i: nat, k: int) {
    i + 1 < |cuts| && cuts[i] < k <= cuts[i + 1]
  }

  lemma {:induction false} CutsIncrease(rows: Table, start: int, limit: nat)
    ensures Increasing(Cuts(rows, start, limit)) && forall c | c in Cuts(rows, start, limit) :: c == start || c in rows
    decreases |Above(rows, start)|
  {
    hide PageMax;
    PageMaxIsAbove(rows, start, limit);
    if PageMax(rows, start, limit).Some? {
      var m := PageMax(rows, start, limit).value;
      CutsIncrease(rows, m, limit);
      AboveIn(rows, start, m);
      var rest := Cuts(rows, m, limit);
      assert forall i | 0 < i < |rest| :: rest[0] < rest[i];
    }
  }

  lemma {:induction false} CutsCover(rows: Table, start: int, limit: nat, k: int) returns (i: nat)
    requires limit > 0 && k in rows && k > start
    ensures Within(Cuts(rows, start, limit), i, k)
    decreases |Above(rows, start)|
  {
    hide PageMax;
    PageMaxIsAbove(rows, start, limit);
    AboveIn(rows, start, k);
    var m := PageMax(rows, start, limit).value;
    CutsStep(rows, start, limit);
    i := 0;
    if k > m {
      var j := CutsCover(rows, m, limit, k);
      i := j + 1;
    }
  }

  /** Whatever the order of the rows, an interval holds at least `limit` rows, or all that are left. */
  lemma AtLeastLimit(rows: Table, start: int, limit: nat, i: nat)
    requires limit > 0 && i < |Cuts(rows, start, limit)| - 1
    ensures var cuts := Cuts(rows, start, limit);
            |Between(rows, cuts[i], cuts[i + 1])| >= Least(limit, |Above(rows, cuts[i])|) > 0
    decreases i
  {
    hide PageMax;
    CutsStep(rows, start, limit);
    var m := PageMax(rows, start, limit).value;
    if i > 0 {
      AtLeastLimit(rows, m, limit, i - 1);
    } else {
      PageFits(rows, start, limit);
    }
  }

  lemma {:induction false} BetweenAppend(s: Table, t: Table, low: int, high: int)
    ensures Between(s + t, low, high) == Between(s, low, high) + Between(t, low, high)
    decreases |t|
  {
    if t == [] {
      assert s + t == s;
    } else {
      BetweenAppend(s, t[..|t| - 1], low, high);
      assert (s + t)[..|s + t| - 1] == s + t[..|t| - 1];
    }
  }

  lemma {:induction false} BetweenAll(s: Table, low: int, high: int)
    requires forall i | 0 <= i < |s| :: low < s[i] <= high
    ensures Between(s, low, high) == s
  {
    if s != [] {
      BetweenAll(s[..|s| - 1], low, high);
    }
  }

  lemma {:induction false} BetweenOfAbove(rows: Table, low: int, high: int)
    ensures Between(rows, low, high) == Between(Above(rows, low), low, high)
  {
    if rows != [] {
      var front, last := rows[..|rows| - 1], rows[|rows| - 1];
      BetweenOfAbove(front, low, high);
      BetweenSnoc(Above(front, low), last, low, high);
      assert Above(rows, low) == Above(front, low) || Above(rows, low) == Above(front, low) + [last];
    }
  }

  /** The whole page lies in the interval it ends. */
  lemma PageFits(rows: Table, start: int, limit: nat)
    requires PageMax(rows, start, limit).Some?
    ensures |Between(rows, start, PageMax(rows, start, limit).value)| >= Least(limit, |Above(rows, start)|) > 0
  {
    var all, m := Above(rows, start), PageMax(rows, start, limit).value;
    var page, rest := Page(rows, start, limit), all[Least(limit, |all|)..];
    assert all == page + rest;
    forall i | 0 <= i < |page| ensures start < page[i] <= m {
      AboveIn(rows, start, page[i]);
      assert page[i] == all[i];
    }
    BetweenOfAbove(rows, start, m);
    BetweenAppend(page, rest, start, m);
    BetweenAll(page, start, m);
  }

  /** Every key above the start lies in exactly one interval. */
  lemma OneInterval(rows: Table, start: int, limit: nat, k: int) returns (i: nat)
    requires limit > 0 && k in rows && k > start
    ensures Within(Cuts(rows, start, limit), i, k)
    ensures forall j: nat | Within(Cuts(rows, start, limit), j, k) :: j == i
  {
    hide Cuts;
    var cuts := Cuts(rows, start, limit);
    CutsIncrease(rows, start, limit);
    i := CutsCover(rows, start, limit, k);
    assert forall j: nat | Within(cuts, j, k) :: j == i;
  }

  lemma {:induction false} AboveIncreasing(rows: Table, start: int)
    requires Increasing(rows)
    ensures Increasing(Above(rows, start))
  {
    if rows != [] {
      AboveIncreasing(rows[..|rows| - 1], start);
      var front := Above(rows[..|rows| - 1], start);
      forall i | 0 <= i < |front| ensures front[i] < rows[|rows| - 1] {
        AboveIn(rows[..|rows| - 1], start, front[i]);
      }
    }
  }

  lemma {:induction false} AbovePrefix(s: Table, n: nat)
    requires Increasing(s) && n < |s|
    ensures Above(s, s[n]) == s[n + 1..]
    decreases |s|
  {
    var front := s[..|s| - 1];
    if n == |s| - 1 {
      if Above(s, s[n]) != [] {
        AboveIn(s, s[n], Above(s, s[n])[0]);
        assert false;
      }
    } else {
      AbovePrefix(front, n);
    }
  }

  /** When the key grows with the ID, as it does when it is the ID, every interval but the last holds exactly
      `limit` rows, and the last one the remainder. */
  lemma ExactPages(rows: Table, start: int, limit: nat, i: nat)
    requires limit > 0 && Increasing(rows) && i < |Cuts(rows, start, limit)| - 1
    ensures var cuts := Cuts(rows, start, limit);
            && |Between(rows, cuts[i], cuts[i + 1])| == Least(limit, |Above(rows, cuts[i])|)
            && (i + 1 < |cuts| - 1 ==> |Between(rows, cuts[i], cuts[i + 1])| == limit)
            && (i + 1 == |cuts| - 1 ==> Above(rows, cuts[i + 1]) == [])
    decreases i
  {
    var cuts := Cuts(rows, start, limit);
    PageMaxIsAbove(rows, start, limit);
    var m := PageMax(rows, start, limit).value;
    if i > 0 {
      ExactPages(rows, m, limit, i - 1);
    } else {
      ExactPage(rows, start, limit);
      PageMaxIsAbove(rows, m, limit);
    }
  }

  lemma ExactPage(rows: Table, start: int, limit: nat)
    requires Increasing(rows) && PageMax(rows, start, limit).Some?
    ensures var m := PageMax(rows, start, limit).value;
            && |Between(rows, start, m)| == Least(limit, |Above(rows, start)|)
            && |Above(rows, m)| == |Above(rows, start)| - Least(limit, |Above(rows, start)|)
  {
    var all, m := Above(rows, start), PageMax(rows, start, limit).value;
    var n := Least(limit, |all|);
    AboveIncreasing(rows, start);
    assert m == all[n - 1] by {
      assert all[..n][n - 1] == all[n - 1];
      assert forall k | k in all[..n] :: k <= all[n - 1];
    }
    AbovePrefix(all, n - 1);
    AboveIn(rows, start, m);
    AboveSplits(rows, start, m);
  }

  lemma {:induction false} AboveAppend(s: Table, t: Table, start: int)
    ensures Above(s + t, start) == Above(s, start) + Above(t, start)
    decreases |t|
  {
    if t == [] {
      assert s + t == s;
    } else {
      AboveAppend(s, t[..|t| - 1], start);
      assert (s + t)[..|s + t| - 1] == s + t[..|t| - 1];
    }
  }

  /** A page of one row that comes from before a smaller one leaves both in its interval. */
  lemma CrowdedPage(rows: Table, i: nat, j: nat)
    requires Distinct(rows) && i < j < |rows| && rows[i] > rows[j]
    ensures var start := rows[j] - 1;
            PageMax(rows, start, 1).Some? && |Between(rows, start, PageMax(rows, start, 1).value)| >= 2
  {
    var start, front, back := rows[j] - 1, rows[..j], rows[j..];
    assert rows == front + back;
    AboveAppend(front, back, start);
    assert front[i] == rows[i];
    AboveIn(front, start, rows[i]);
    var first := Above(front, start)[0];
    AboveIn(front, start, first);
    assert first != rows[j] by {
      var f :| 0 <= f < |front| && front[f] == first;
      assert rows[f] == first;
    }
    assert Page(rows, start, 1) == [first];
    var inside := Between(rows, start, first);
    assert first in rows by { assert first in front; }
    BetweenIn(rows, start, first, first);
    BetweenIn(rows, start, first, rows[j]);
    var a :| 0 <= a < |inside| && inside[a] == first;
    var b :| 0 <= b < |inside| && inside[b] == rows[j];
    assert a != b;
  }

  ghost predicate Exact(rows: Table, start: int, limit: nat) {
    PageMax(rows, start, limit).Some? ==>
      |Between(rows, start, PageMax(rows, start, limit).value)| == Least(limit, |Above(rows, start)|)
  }

  /** The pages of a table are exact, from every start and for every limit, if and only if its keys grow with its IDs. */
  lemma ExactPagesIff(rows: Table)
    requires Distinct(rows)
    ensures (forall start, limit: nat | limit > 0 :: Exact(rows, start, limit)) <==> Increasing(rows)
  {
    if Increasing(rows) {
      forall start, limit: nat | limit > 0 ensures Exact(rows, start, limit) {
        if PageMax(rows, start, limit).Some? {
          ExactPage(rows, start, limit);
        }
      }
    } else {
      var i, j :| 0 <= i < j < |rows| && rows[i] >= rows[j];
      CrowdedPage(rows, i, j);
      assert !Exact(rows, rows[j] - 1, 1);
    }
  }
}
