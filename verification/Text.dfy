/** `strings.Index`, `strings.Split` and `strings.Join`, and when the last two undo each other. */
module Text {

  predicate OccursAt(s: string, sep: string, i: nat) {
    i + |sep| <= |s| && s[i..i + |sep|] == sep
  }

  ghost predicate Contains(s: string, sep: string) {
    exists i: nat :: OccursAt(s, sep, i)
  }

  /** No proper prefix of `sep` is also a suffix of it, so occurrences of `sep` never overlap. */
  ghost predicate Borderless(sep: string) {
    |sep| > 0 && forall k | 0 < k < |sep| :: sep[k..] != sep[..|sep| - k]
  }

  /** The first position at or after `from` where `sep` occurs, or -1. */
  function IndexFrom(s: string, sep: string, from: nat): (i: int)
    requires from <= |s|
    ensures i == -1 || (from <= i && OccursAt(s, sep, i))
    ensures forall j: nat | from <= j && (i == -1 || j < i) :: !OccursAt(s, sep, j)
    decreases |s| - from
  {
    if OccursAt(s, sep, from) then from
    else if from == |s| then -1
    else IndexFrom(s, sep, from + 1)
  }

  function Split(s: string, sep: string): (parts: seq<string>)
    requires |sep| > 0
    ensures |parts| >= 1
    decreases |s|
  {
    var i := IndexFrom(s, sep, 0);
    if i == -1 then [s] else [s[..i]] + Split(s[i + |sep|..], sep)
  }

  function Join(parts: seq<string>, sep: string): string {
    if parts == [] then ""
    else if |parts| == 1 then parts[0]
    else parts[0] + sep + Join(parts[1..], sep)
  }

  /** The pieces of a split never contain the separator. */
  lemma {:induction false} SplitIsClean(s: string, sep: string)
    requires |sep| > 0
    ensures forall p | p in Split(s, sep) :: !Contains(p, sep)
    decreases |s|
  {
    var i := IndexFrom(s, sep, 0);
    if i != -1 {
      SplitIsClean(s[i + |sep|..], sep);
      forall j: nat ensures !OccursAt(s[..i], sep, j) {
        if OccursAt(s[..i], sep, j) {
          assert s[j..j + |sep|] == s[..i][j..j + |sep|];
          assert OccursAt(s, sep, j);
        }
      }
    }
  }

  lemma {:induction false} JoinOfSplit(s: string, sep: string)
    requires |sep| > 0
    ensures Join(Split(s, sep), sep) == s
    decreases |s|
  {
    var i := IndexFrom(s, sep, 0);
    if i != -1 {
      JoinOfSplit(s[i + |sep|..], sep);
      assert s == s[..i] + s[i..i + |sep|] + s[i + |sep|..];
      assert Split(s, sep)[1..] == Split(s[i + |sep|..], sep);
    }
  }

  /** An occurrence that starts inside `p` and runs into the separator after it gives that separator a border. */
  lemma OverlapIsBorder(p: string, sep: string, rest: string, j: nat)
    requires j < |p| < j + |sep| && OccursAt(p + sep + rest, sep, j)
    ensures sep[|p| - j..] == sep[..|sep| - (|p| - j)]
  {
    var s := p + sep + rest;
    assert sep[|p| - j..] == s[|p|..j + |sep|] == sep[..|sep| - (|p| - j)];
  }

  /** The first occurrence of a borderless separator after a clean piece is where it was put. */
  lemma FirstOccurrence(p: string, sep: string, rest: string)
    requires Borderless(sep) && !Contains(p, sep)
    ensures IndexFrom(p + sep + rest, sep, 0) == |p|
  {
    var s := p + sep + rest;
    assert OccursAt(s, sep, |p|);
    forall j: nat | j < |p| ensures !OccursAt(s, sep, j) {
      if j + |sep| <= |p| {
        assert p[j..j + |sep|] == s[j..j + |sep|];
        assert !OccursAt(p, sep, j);
      } else if OccursAt(s, sep, j) {
        OverlapIsBorder(p, sep, rest, j);
        assert false;
      }
    }
  }

  /** A clean piece comes off a text at the separator behind it. */
  lemma SplitHead(p: string, sep: string, rest: string)
    requires Borderless(sep) && !Contains(p, sep)
    ensures Split(p + sep + rest, sep) == [p] + Split(rest, sep)
  {
    var s := p + sep + rest;
    FirstOccurrence(p, sep, rest);
    assert s[..|p|] == p && s[|p| + |sep|..] == rest;
  }

  lemma SplitClean(p: string, sep: string)
    requires |sep| > 0 && !Contains(p, sep)
    ensures Split(p, sep) == [p]
  {
    assert IndexFrom(p, sep, 0) == -1;
  }

  lemma {:induction false} SplitOfJoin(parts: seq<string>, sep: string)
    requires Borderless(sep) && parts != []
    requires forall p | p in parts :: !Contains(p, sep)
    ensures Split(Join(parts, sep), sep) == parts
    decreases |parts|
  {
    assert !Contains(parts[0], sep);
    if |parts| == 1 {
      SplitClean(parts[0], sep);
    } else {
      SplitOfJoin(parts[1..], sep);
      SplitHead(parts[0], sep, Join(parts[1..], sep));
    }
  }

  /** One step of a split. */
  lemma SplitStep(s: string, sep: string) returns (found: bool, head: string, tail: string)
    requires |sep| > 0
    ensures found <==> Contains(s, sep)
    ensures found ==> s == head + sep + tail && !Contains(head, sep) && Split(s, sep) == [head] + Split(tail, sep)
    ensures !found ==> Split(s, sep) == [s]
  {
    var k := IndexFrom(s, sep, 0);
    found, head, tail := k != -1, s, "";
    if found {
      head, tail := s[..k], s[k + |sep|..];
      assert OccursAt(s, sep, k);
      SplitIsClean(s, sep);
      assert head in Split(s, sep);
    }
  }
}
