/** What the models share: an optional value, the three ways a Go call can end, and facts about lists and maps. */
module Common {

  datatype Option<+T> = None | Some(value: T)

  /** How a Go function that returns `(T, error)` ends: with a value, with an error, or in a panic
      (a slice or allocation whose bounds the run-time system rejects). */
  datatype Outcome<+T> = Success(value: T) | Failed | Panicked

  /** A list without repetitions. */
  ghost predicate Distinct<T>(s: seq<T>) {
    forall i, j | 0 <= i < j < |s| :: s[i] != s[j]
  }

  /** `order` lists every key of `m` once: one of the orders in which Go may range over a map. */
  ghost predicate Enumerates<K, V>(order: seq<K>, m: map<K, V>) {
    Distinct(order) && (forall k | k in order :: k in m) && (forall k | k in m :: k in order)
  }

  /** `m` overwritten, in order, with the entries that `from` has for `keys`. */
  function Overwrite<K, V>(m: map<K, V>, keys: seq<K>, from: map<K, V>): map<K, V>
    requires forall k | k in keys :: k in from
    decreases |keys|
  {
    if keys == [] then m else Overwrite(m[keys[0] := from[keys[0]]], keys[1..], from)
  }

  lemma {:induction false} OverwriteAt<K(!new), V>(m: map<K, V>, keys: seq<K>, from: map<K, V>, k: K)
    requires forall x | x in keys :: x in from
    ensures k in Overwrite(m, keys, from) <==> k in m || k in keys
    ensures k in keys ==> Overwrite(m, keys, from)[k] == from[k]
    ensures k !in keys && k in m ==> Overwrite(m, keys, from)[k] == m[k]
    decreases |keys|
  {
    if keys != [] {
      OverwriteAt(m[keys[0] := from[keys[0]]], keys[1..], from, k);
      assert k in keys <==> k == keys[0] || k in keys[1..];
    }
  }

  /** Copying a map entry by entry, in whatever order its keys come, rebuilds the map. */
  lemma OverwriteAll<K(!new), V>(order: seq<K>, from: map<K, V>)
    requires Enumerates(order, from)
    ensures Overwrite(map[], order, from) == from
  {
    forall k ensures k in Overwrite(map[], order, from) <==> k in from
             ensures k in from ==> Overwrite(map[], order, from)[k] == from[k]
    {
      OverwriteAt(map[], order, from, k);
    }
  }

  function Flatten<T>(parts: seq<seq<T>>): seq<T> {
    if parts == [] then [] else parts[0] + Flatten(parts[1..])
  }

  lemma {:induction false} FlattenSnoc<T>(parts: seq<seq<T>>, part: seq<T>)
    ensures Flatten(parts + [part]) == Flatten(parts) + part
  {
    if parts == [] {
      assert Flatten([part]) == part + Flatten([]);
    } else {
      assert (parts + [part])[1..] == parts[1..] + [part];
      FlattenSnoc(parts[1..], part);
    }
  }

  // ---------------------------------------------------------------------------
  // How often a list holds an element
  // ---------------------------------------------------------------------------

  lemma FirstApart<T>(s: seq<T>)
    requires s != []
    ensures multiset(s[1..]) == multiset(s) - multiset{s[0]}
  {
    assert s == [s[0]] + s[1..];
  }

  lemma TakeOut<T>(s: seq<T>, i: nat)
    requires i < |s|
    ensures multiset(s[..i] + s[i + 1..]) == multiset(s) - multiset{s[i]}
  {
    assert s == s[..i] + [s[i]] + s[i + 1..];
  }

  lemma TwiceCounted<T>(s: seq<T>, i: nat, j: nat)
    requires i < j < |s| && s[i] == s[j]
    ensures multiset(s)[s[i]] >= 2
  {
    assert s == s[..j] + [s[j]] + s[j + 1..];
    assert s[i] == s[..j][i] && s[i] in s[..j];
    assert s[i] in multiset(s[..j]);
  }

  lemma {:induction false} OnceWhenDistinct<T>(s: seq<T>, x: T)
    requires Distinct(s)
    ensures multiset(s)[x] <= 1
  {
    if s != [] {
      assert s == [s[0]] + s[1..];
      OnceWhenDistinct(s[1..], x);
      if s[0] == x {
        assert forall k | 0 <= k < |s[1..]| :: s[1..][k] == s[k + 1] != s[0];
        assert x !in s[1..];
      }
    }
  }

  lemma DistinctIffCounts<T(!new)>(s: seq<T>)
    ensures Distinct(s) <==> forall x :: multiset(s)[x] <= 1
  {
    if Distinct(s) {
      forall x ensures multiset(s)[x] <= 1 {
        OnceWhenDistinct(s, x);
      }
    } else {
      var i, j :| 0 <= i < j < |s| && s[i] == s[j];
      TwiceCounted(s, i, j);
    }
  }
}
