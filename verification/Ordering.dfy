/** The order of Go strings, and lists sorted by a name. */
module Ordering {
  import opened Common
  import opened Bytes

  /** The order of Go strings: byte by byte, a prefix first. */
  predicate AtMost(a: bytes, b: bytes) {
    a == [] || (b != [] && (a[0] < b[0] || (a[0] == b[0] && AtMost(a[1..], b[1..]))))
  }

  /** The strings agree up to position `k`, where `a` has the smaller byte. */
  ghost predicate DiffersAt(a: bytes, b: bytes, k: nat) {
    k < |a| && k < |b| && a[..k] == b[..k] && a[k] < b[k]
  }

  /** A string comes before another one when it is a prefix of it, or has the smaller byte where they first differ. */
  lemma {:induction false} AtMostIff(a: bytes, b: bytes)
    ensures AtMost(a, b) <==> a <= b || exists k: nat :: DiffersAt(a, b, k)
  {
    if a != [] && b != [] {
      var c, d := a[1..], b[1..];
      AtMostIff(c, d);
      if a[0] < b[0] {
        assert DiffersAt(a, b, 0);
      } else if a[0] == b[0] {
        assert a == [a[0]] + c && b == [b[0]] + d;
        assert a <= b <==> c <= d;
        forall k: nat ensures DiffersAt(c, d, k) <==> DiffersAt(a, b, k + 1) {
          if k < |c| && k < |d| {
            assert a[..k + 1] == [a[0]] + c[..k] && b[..k + 1] == [b[0]] + d[..k];
            assert a[..k + 1][1..] == c[..k] && b[..k + 1][1..] == d[..k];
          }
        }
        if k: nat :| DiffersAt(a, b, k) {
          assert k > 0 && DiffersAt(c, d, k - 1);
        }
      }
    }
  }

  lemma {:induction false} AtMostIsTotal(a: bytes, b: bytes)
    ensures AtMost(a, b) || AtMost(b, a)
    ensures AtMost(a, b) && AtMost(b, a) ==> a == b
  {
    if a != [] && b != [] {
      AtMostIsTotal(a[1..], b[1..]);
      assert a == [a[0]] + a[1..] && b == [b[0]] + b[1..];
    }
  }

  lemma {:induction false} AtMostIsTransitive(a: bytes, b: bytes, c: bytes)
    requires AtMost(a, b) && AtMost(b, c)
    ensures AtMost(a, c)
  {
    if a != [] && a[0] == b[0] == c[0] {
      AtMostIsTransitive(a[1..], b[1..], c[1..]);
    }
  }

  ghost predicate DescendingBy<T>(s: seq<T>, name: T -> bytes) {
    forall i, j | 0 <= i < j < |s| :: AtMost(name(s[j]), name(s[i]))
  }

  /** A name leads to one record, however often the record is repeated. */
  ghost predicate NamesTell<T>(s: seq<T>, name: T -> bytes) {
    forall i, j | 0 <= i < j < |s| && name(s[i]) == name(s[j]) :: s[i] == s[j]
  }

  /** `sorted` is a possible outcome of sorting `list` by descending name. */
  ghost predicate SortOf<T>(sorted: seq<T>, list: seq<T>, name: T -> bytes) {
    multiset(sorted) == multiset(list) && DescendingBy(sorted, name)
  }

  /** An unstable sort by name has only one possible outcome when the names tell the records apart. */
  lemma {:induction false} SortByNameIsUnique<T>(s: seq<T>, t: seq<T>, name: T -> bytes)
    requires DescendingBy(s, name) && DescendingBy(t, name) && NamesTell(s, name)
    requires multiset(s) == multiset(t)
    ensures s == t
    decreases |s|
  {
    hide AtMost, DescendingBy, NamesTell;
    assert |s| == |multiset(s)| == |multiset(t)| == |t|;
    if s != [] {
      FirstByNameAgrees(s, t, name);
      FirstApart(s);
      FirstApart(t);
      RestSorted(s, name);
      RestSorted(t, name);
      SortByNameIsUnique(s[1..], t[1..], name);
      assert s == [s[0]] + s[1..] && t == [t[0]] + t[1..];
    }
  }

  lemma RestSorted<T>(s: seq<T>, name: T -> bytes)
    requires s != []
    ensures DescendingBy(s, name) ==> DescendingBy(s[1..], name)
    ensures NamesTell(s, name) ==> NamesTell(s[1..], name)
  {
    hide AtMost;
  }

  lemma FirstByNameAgrees<T>(s: seq<T>, t: seq<T>, name: T -> bytes)
    requires DescendingBy(s, name) && DescendingBy(t, name) && NamesTell(s, name)
    requires multiset(s) == multiset(t) && s != [] && t != []
    ensures s[0] == t[0]
  {
    hide AtMost;
    assert s[0] in multiset(s) && t[0] in multiset(t);
    var i :| 0 <= i < |t| && t[i] == s[0];
    var j :| 0 <= j < |s| && s[j] == t[0];
    AtMostIsTotal(name(s[0]), name(s[0]));
    AtMostIsTotal(name(t[0]), name(t[0]));
    assert AtMost(name(t[i]), name(t[0])) && AtMost(name(s[j]), name(s[0]));
    AtMostIsTotal(name(s[0]), name(t[0]));
    assert name(s[0]) == name(s[j]);
  }

  /** A permutation names the same records. */
  lemma NamesTellPermuted<T>(s: seq<T>, t: seq<T>, name: T -> bytes)
    requires multiset(s) == multiset(t) && NamesTell(s, name)
    ensures NamesTell(t, name)
  {
    forall i, j | 0 <= i < j < |t| && name(t[i]) == name(t[j]) ensures t[i] == t[j] {
      assert t[i] in multiset(s) && t[j] in multiset(s);
      var a :| 0 <= a < |s| && s[a] == t[i];
      var b :| 0 <= b < |s| && s[b] == t[j];
      assert a == b || a < b || b < a;
    }
  }

  function NamesOf<T>(s: seq<T>, name: T -> bytes): seq<bytes> {
    seq(|s|, i requires 0 <= i < |s| => name(s[i]))
  }

  lemma NamesTakeOut<T>(s: seq<T>, name: T -> bytes, i: nat)
    requires i < |s|
    ensures multiset(NamesOf(s, name)) == multiset(NamesOf(s[..i] + s[i + 1..], name)) + multiset{name(s[i])}
  {
    var front, back := NamesOf(s[..i], name), NamesOf(s[i + 1..], name);
    assert NamesOf(s, name) == front + [name(s[i])] + back;
    assert NamesOf(s[..i] + s[i + 1..], name) == front + back;
  }

  lemma {:induction false} NamesOfPermutation<T>(s: seq<T>, t: seq<T>, name: T -> bytes)
    requires multiset(s) == multiset(t)
    ensures multiset(NamesOf(s, name)) == multiset(NamesOf(t, name))
    decreases |s|
  {
    hide NamesOf;
    assert |s| == |multiset(s)| == |multiset(t)| == |t|;
    if s == [] {
      assert t == s;
    } else {
      assert s[0] in multiset(t);
      var i :| 0 <= i < |t| && t[i] == s[0];
      TakeOut(s, 0);
      TakeOut(t, i);
      NamesTakeOut(s, name, 0);
      NamesTakeOut(t, name, i);
      NamesOfPermutation(s[..0] + s[1..], t[..i] + t[i + 1..], name);
    }
  }

  /** All outcomes of a sort by name have the same names in the same places. */
  lemma SortsNameAlike<T>(s: seq<T>, t: seq<T>, name: T -> bytes)
    requires multiset(s) == multiset(t) && DescendingBy(s, name) && DescendingBy(t, name)
    ensures |s| == |t| && forall i | 0 <= i < |s| :: name(s[i]) == name(t[i])
  {
    hide AtMost;
    var same := (n: bytes) => n;
    var ns, nt := NamesOf(s, name), NamesOf(t, name);
    NamesOfPermutation(s, t, name);
    assert DescendingBy(ns, same) && DescendingBy(nt, same) && NamesTell(ns, same);
    SortByNameIsUnique(ns, nt, same);
    forall i | 0 <= i < |s| ensures name(s[i]) == name(t[i]) {
      assert ns[i] == nt[i];
    }
  }

  lemma {:induction false} SomeSort<T>(list: seq<T>, name: T -> bytes) returns (sorted: seq<T>)
    ensures SortOf(sorted, list, name)
    decreases |list|
  {
    hide AtMost, SortOf;
    if list == [] {
      sorted := [];
      assert SortOf(sorted, list, name) by { NothingSorted(list, name); }
    } else {
      var m := HasGreatest(list, name);
      var rest := SomeSort(list[..m] + list[m + 1..], name);
      GreatestFirst(list, name, m, rest);
      sorted := [list[m]] + rest;
    }
  }

  lemma NothingSorted<T>(list: seq<T>, name: T -> bytes)
    requires list == []
    ensures SortOf([], list, name)
  {
  }

  lemma GreatestFirst<T>(list: seq<T>, name: T -> bytes, m: nat, rest: seq<T>)
    requires Greatest(list, name, m) && SortOf(rest, list[..m] + list[m + 1..], name)
    ensures SortOf([list[m]] + rest, list, name)
  {
    hide AtMost;
    var without := list[..m] + list[m + 1..];
    PutBack(list, m);
    forall j | 0 <= j < |rest| ensures AtMost(name(rest[j]), name(list[m])) {
      assert rest[j] in multiset(without);
      assert rest[j] in multiset(list);
      var k :| 0 <= k < |list| && list[k] == rest[j];
    }
  }

  lemma PutBack<T>(list: seq<T>, m: nat)
    requires m < |list|
    ensures multiset(list) == multiset{list[m]} + multiset(list[..m] + list[m + 1..])
  {
    assert list == list[..m] + [list[m]] + list[m + 1..];
  }

  lemma SwapKeepsMultiset<T>(s: seq<T>, i: nat, j: nat)
    requires i < |s| && j < |s| && i != j
    ensures multiset(s[i := s[j]][j := s[i]]) == multiset(s)
  {
    StoreCounts(s, i, s[j]);
    StoreCounts(s[i := s[j]], j, s[i]);
    assert s[i] in multiset(s);
  }

  lemma StoreCounts<T>(s: seq<T>, i: nat, x: T)
    requires i < |s|
    ensures multiset(s[i := x]) == multiset(s) - multiset{s[i]} + multiset{x}
  {
  }

  /** An unstable sort by name has only one possible outcome exactly when the names tell the records apart. */
  lemma SortIsUniqueIff<T(!new)>(list: seq<T>, name: T -> bytes)
    ensures (forall p, q | SortOf(p, list, name) && SortOf(q, list, name) :: p == q) <==> NamesTell(list, name)
  {
    hide AtMost;
    if NamesTell(list, name) {
      forall p, q | SortOf(p, list, name) && SortOf(q, list, name) ensures p == q {
        NamesTellPermuted(list, p, name);
        SortByNameIsUnique(p, q, name);
      }
    } else {
      var p, q := TwoSorts(list, name);
      assert SortOf(p, list, name) && SortOf(q, list, name) && p != q;
    }
  }

  lemma TwoSorts<T(!new)>(list: seq<T>, name: T -> bytes) returns (p: seq<T>, q: seq<T>)
    requires !NamesTell(list, name)
    ensures SortOf(p, list, name) && SortOf(q, list, name) && p != q
  {
    hide AtMost;
    p := SomeSort(list, name);
    if NamesTell(p, name) {
      NamesTellPermuted(p, list, name);
    }
    var i, j :| 0 <= i < j < |p| && name(p[i]) == name(p[j]) && p[i] != p[j];
    q := p[i := p[j]][j := p[i]];
    SwapNamesakes(p, list, name, i, j);
  }

  /** Records of one name may change places in a sort. */
  lemma SwapNamesakes<T>(p: seq<T>, list: seq<T>, name: T -> bytes, i: nat, j: nat)
    requires SortOf(p, list, name) && i < |p| && j < |p| && i != j && name(p[i]) == name(p[j])
    ensures SortOf(p[i := p[j]][j := p[i]], list, name)
  {
    hide AtMost;
    var q := p[i := p[j]][j := p[i]];
    SwapKeepsMultiset(p, i, j);
    forall a, b | 0 <= a < b < |q| ensures AtMost(name(q[b]), name(q[a])) {
      assert name(q[a]) == name(p[a]) && name(q[b]) == name(p[b]);
    }
  }

  method Swap<T>(a: array<T>, i: nat, j: nat)
    requires i < a.Length && j < a.Length
    modifies a
    ensures multiset(a[..]) == multiset(old(a[..]))
    ensures a[i] == old(a[j]) && a[j] == old(a[i])
    ensures forall k | 0 <= k < a.Length && k != i && k != j :: a[k] == old(a[k])
  {
    a[i], a[j] := a[j], a[i];
  }

  ghost predicate Greatest<T>(s: seq<T>, name: T -> bytes, m: nat) {
    m < |s| && forall k | 0 <= k < |s| :: AtMost(name(s[k]), name(s[m]))
  }

  lemma {:induction false} HasGreatest<T>(s: seq<T>, name: T -> bytes) returns (m: nat)
    requires s != []
    ensures Greatest(s, name, m)
  {
    hide AtMost;
    m := 0;
    AtMostIsTotal(name(s[0]), name(s[0]));
    if |s| > 1 {
      var n := HasGreatest(s[1..], name);
      AtMostIsTotal(name(s[0]), name(s[n + 1]));
      m := if AtMost(name(s[0]), name(s[n + 1])) then n + 1 else 0;
      forall k | 0 <= k < |s| ensures AtMost(name(s[k]), name(s[m])) {
        if k > 0 {
          assert AtMost(name(s[1..][k - 1]), name(s[1..][n]));
          if m == 0 {
            AtMostIsTransitive(name(s[k]), name(s[n + 1]), name(s[0]));
          }
        }
      }
    }
  }

  method PickGreatest<T>(a: array<T>, name: T -> bytes, i: nat) returns (m: nat)
    requires i < a.Length
    ensures i <= m < a.Length && forall k | i <= k < a.Length :: AtMost(name(a[k]), name(a[m]))
  {
    hide AtMost;
    ghost var n := HasGreatest(a[i..], name);
    forall k | i <= k < a.Length ensures AtMost(name(a[k]), name(a[i + n])) {
      assert AtMost(name(a[i..][k - i]), name(a[i..][n]));
    }
    m :| i <= m < a.Length && forall k | i <= k < a.Length :: AtMost(name(a[k]), name(a[m]));
  }

  /** sort.Slice by descending name: unstable, so records with equal names may end in any order. */
  method SortSlice<T>(a: array<T>, name: T -> bytes)
    modifies a
    ensures multiset(a[..]) == multiset(old(a[..])) && DescendingBy(a[..], name)
  {
    hide AtMost;
    for i := 0 to a.Length
      invariant multiset(a[..]) == multiset(old(a[..]))
      invariant forall j, k | 0 <= j < i && j < k < a.Length :: AtMost(name(a[k]), name(a[j]))
    {
      var m := PickGreatest(a, name, i);
      ghost var before := a[..];
      Swap(a, i, m);
      forall j, k | 0 <= j <= i && j < k < a.Length ensures AtMost(name(a[k]), name(a[j])) {
        var was := if k == m then i else if k == i then m else k;
        assert a[k] == before[was];
        assert a[j] == before[if j == i then m else j];
      }
    }
  }

  /** sort.Slice with a comparison that is no order: any permutation. */
  method Permute<T>(a: array<T>)
    modifies a
    ensures multiset(a[..]) == multiset(old(a[..]))
  {
    for i := 0 to a.Length
      invariant multiset(a[..]) == multiset(old(a[..]))
    {
      var m :| i <= m < a.Length;
      Swap(a, i, m);
    }
  }
}
