/** rocketmq/client/model.go: reading the offset table of a reset request, in the gson and in the fastjson form. */
module OffsetTable {
  import opened Common
  import opened Text
  import opened Decimal

  /** What unmarshalling a queue's text leaves, and whether it succeeded. */
  datatype Unmarshalled<Q> = Unmarshalled(queue: Q, ok: bool)

  type Parser<!Q> = string -> Unmarshalled<Q>

  // ---------------------------------------------------------------------------
  // The two parsers
  // ---------------------------------------------------------------------------

  /** One piece of the gson form: the first still carries the two opening brackets, the last the closing ones. */
  function GsonEntry<Q>(v: string, first: bool, last: bool, parse: Parser<Q>): Outcome<(Q, int)> {
    var kv := Split(v, "},");
    if |kv| < 2 || (last && |kv[1]| < 2) then Panicked
    else
      var number := ParseInt(if last then kv[1][..|kv[1]| - 2] else kv[1]);
      if !number.Number? then Failed
      else if first && |kv[0]| < 2 then Panicked
      else
        var key := parse((if first then kv[0][2..] else kv[0]) + "}");
        if key.ok then Success((key.queue, number.value)) else Failed
  }

  function GsonFrom<Q>(pieces: seq<string>, first: bool, table: map<Q, int>, parse: Parser<Q>): Outcome<map<Q, int>>
    decreases |pieces|
  {
    if pieces == [] then Success(table)
    else match GsonEntry(pieces[0], first, |pieces| == 1, parse)
      case Success(entry) => GsonFrom(pieces[1..], false, table[entry.0 := entry.1], parse)
      case Failed => Failed
      case Panicked => Panicked
  }

  function Gson<Q>(offsetStr: string, parse: Parser<Q>): Outcome<map<Q, int>> {
    if |offsetStr| <= 2 then Success(map[]) else GsonFrom(Split(offsetStr, "],["), true, map[], parse)
  }

  /** parseGsonFormat on the text of the offset table; Failed stands for the nil table of its error returns. */
  method ParseGsonFormat<Q(==)>(offsetStr: string, parse: Parser<Q>) returns (r: Outcome<map<Q, int>>)
    ensures r == Gson(offsetStr, parse)
  {
    var offsetTable: map<Q, int> := map[];
    if |offsetStr| <= 2 {
      return Success(offsetTable);
    }
    var pieces := Split(offsetStr, "],[");
    for index := 0 to |pieces|
      invariant Gson(offsetStr, parse) == GsonFrom(pieces[index..], index == 0, offsetTable, parse)
    {
      assert pieces[index..][0] == pieces[index] && pieces[index..][1..] == pieces[index + 1..];
      var kvArray := Split(pieces[index], "},");
      if |kvArray| < 2 {
        return Panicked;
      }
      var vstr := kvArray[1];
      if index == |pieces| - 1 {
        if |vstr| < 2 {
          return Panicked;
        }
        vstr := vstr[..|vstr| - 2];
      }
      var offset := ParseInt(vstr);
      if !offset.Number? {
        return Failed;
      }
      var kstr := kvArray[0];
      if index == 0 {
        if |kstr| < 2 {
          return Panicked;
        }
        kstr := kstr[2..];
      }
      var key := parse(kstr + "}");
      if !key.ok {
        return Failed;
      }
      offsetTable := offsetTable[key.queue := offset.value];
    }
    return Success(offsetTable);
  }

  /** One piece of the fastjson form; errors of the two conversions are ignored. */
  function FastEntry<Q>(v: string, parse: Parser<Q>): Outcome<(Q, int)> {
    var tuple := Split(v, "}:");
    if |tuple| < 2 then Panicked else Success((parse("{" + tuple[0] + "}").queue, Atoi(tuple[1])))
  }

  function FastFrom<Q>(pieces: seq<string>, table: map<Q, int>, parse: Parser<Q>): Outcome<map<Q, int>>
    decreases |pieces|
  {
    if pieces == [] then Success(table)
    else match FastEntry(pieces[0], parse)
      case Success(entry) => FastFrom(pieces[1..], table[entry.0 := entry.1], parse)
      case Failed => Failed
      case Panicked => Panicked
  }

  function Fast<Q>(offsetStr: string, parse: Parser<Q>): Outcome<map<Q, int>> {
    if |offsetStr| <= 2 then Success(map[]) else FastFrom(Split(offsetStr[2..|offsetStr| - 1], ",{"), map[], parse)
  }

  /** parseFastJsonFormat on the text of the offset table. */
  method ParseFastJsonFormat<Q(==)>(offsetStr: string, parse: Parser<Q>) returns (r: Outcome<map<Q, int>>)
    ensures r == Fast(offsetStr, parse)
  {
    var offsetTable: map<Q, int> := map[];
    if |offsetStr| <= 2 {
      return Success(offsetTable);
    }
    var trimStr := offsetStr[2..|offsetStr| - 1];
    var pieces := Split(trimStr, ",{");
    for index := 0 to |pieces|
      invariant Fast(offsetStr, parse) == FastFrom(pieces[index..], offsetTable, parse)
    {
      assert pieces[index..][0] == pieces[index] && pieces[index..][1..] == pieces[index + 1..];
      var tuple := Split(pieces[index], "}:");
      if |tuple| < 2 {
        return Panicked;
      }
      var queue := parse("{" + tuple[0] + "}").queue;
      offsetTable := offsetTable[queue := Atoi(tuple[1])];
    }
    return Success(offsetTable);
  }

  // ---------------------------------------------------------------------------
  // The two renderings
  // ---------------------------------------------------------------------------

  /** The rendered entries of a table whose keys are listed by `order`: `open`, the text of the queue without its
      braces, `middle`, the offset, `close`. */
  function Entries<Q>(order: seq<Q>, table: map<Q, int>, text: Q -> string,
                      open: string, middle: string, close: string): (r: seq<string>)
    requires forall q | q in order :: q in table
    ensures |r| == |order|
  {
    seq(|order|, i requires 0 <= i < |order| => open + text(order[i]) + middle + FormatInt(table[order[i]]) + close)
  }

  function GsonText<Q>(order: seq<Q>, table: map<Q, int>, text: Q -> string): string
    requires forall q | q in order :: q in table
  {
    "[" + Join(Entries(order, table, text, "[{", "},", "]"), ",") + "]"
  }

  function FastText<Q>(order: seq<Q>, table: map<Q, int>, text: Q -> string): string
    requires forall q | q in order :: q in table
  {
    "{" + Join(Entries(order, table, text, "{", "}:", ""), ",") + "}"
  }

  /** The offsets are 64-bit numbers, and unmarshalling the text of a queue gives the queue back. */
  ghost predicate Faithful<Q(!new)>(table: map<Q, int>, text: Q -> string, parse: Parser<Q>) {
    forall q | q in table :: IsInt64(table[q]) && parse("{" + text(q) + "}") == Unmarshalled(q, true)
  }

  /** What holds of JSON objects: none continues the text of another one. */
  ghost predicate PrefixFree<Q(!new)>(parse: Parser<Q>) {
    forall a: string, b: string :: !(parse("{" + a + "}").ok && parse("{" + a + "}" + b + "}").ok)
  }

  /** What holds of encoding/json: an object cut short at a brace is not valid, and such a text is refused before any
      field is set, so it leaves the queue as it was created. (A valid object with a field of the wrong type fails too,
      but may leave other fields set; nothing is asked of those.) */
  ghost predicate TruncationsLeave<Q(!new)>(parse: Parser<Q>, zero: Q) {
    forall a: string, b: string ::
      parse("{" + a + "}" + b + "}").ok && !parse("{" + a + "}").ok ==> parse("{" + a + "}").queue == zero
  }

  // ---------------------------------------------------------------------------
  // Where separators can and cannot occur
  // ---------------------------------------------------------------------------

  lemma AcrossTheSeam(a: string, b: string, sep: string, j: nat)
    requires j < |a| < j + |sep| && OccursAt(a + b, sep, j)
    ensures b != "" && b[0] in sep[1..] && a[|a| - 1] in sep[..|sep| - 1]
  {
    var s := (a + b)[j..j + |sep|];
    assert s[|a| - j] == b[0] && s[|a| - 1 - j] == a[|a| - 1];
    assert sep[1..][|a| - j - 1] == b[0] && sep[..|sep| - 1][|a| - 1 - j] == a[|a| - 1];
  }

  lemma OccursInFront(a: string, b: string, sep: string, j: nat)
    requires j + |sep| <= |a|
    ensures OccursAt(a + b, sep, j) <==> OccursAt(a, sep, j)
  {
    assert (a + b)[j..j + |sep|] == a[j..j + |sep|];
  }

  lemma OccursBehind(a: string, b: string, sep: string, j: nat)
    requires j >= |a|
    ensures OccursAt(a + b, sep, j) <==> OccursAt(b, sep, j - |a|)
  {
    assert j + |sep| <= |a + b| ==> (a + b)[j..j + |sep|] == b[j - |a|..j - |a| + |sep|];
  }

  /** Two clean texts stay clean side by side when the separator cannot run across the seam. */
  lemma AdjoinClean(a: string, b: string, sep: string)
    requires |sep| > 0 && !Contains(a, sep) && !Contains(b, sep)
    requires a == "" || b == "" || b[0] !in sep[1..] || a[|a| - 1] !in sep[..|sep| - 1]
    ensures !Contains(a + b, sep)
  {
    if j: nat :| OccursAt(a + b, sep, j) {
      if j + |sep| <= |a| {
        OccursInFront(a, b, sep, j);
      } else if j >= |a| {
        OccursBehind(a, b, sep, j);
      } else {
        AcrossTheSeam(a, b, sep, j);
      }
    }
  }

  lemma OccurrenceHas(s: string, sep: string, i: nat)
    requires Contains(s, sep) && i < |sep|
    ensures sep[i] in s
  {
    var j: nat :| OccursAt(s, sep, j);
    assert s[j..j + |sep|][i] == s[j + i];
  }

  lemma CleanWithout(s: string, sep: string, i: nat)
    requires i < |sep| && sep[i] !in s
    ensures !Contains(s, sep)
  {
    if Contains(s, sep) {
      OccurrenceHas(s, sep, i);
    }
  }

  lemma FirstCharacterOnce(sep: string)
    requires |sep| > 0 && forall k | 0 < k < |sep| :: sep[k] != sep[0]
    ensures Borderless(sep)
  {
    forall k | 0 < k < |sep| ensures sep[k..] != sep[..|sep| - k] {
      assert sep[k..][0] != sep[..|sep| - k][0];
    }
  }

  lemma FormatIsPlain(n: int)
    ensures forall c | c in FormatInt(n) :: Digit(c) || c == '-'
    ensures FormatInt(n) != ""
  {
  }

  /** A clean key and a clean offset come apart again at the separator between them. */
  lemma SplitPair(k: string, sep: string, v: string)
    requires Borderless(sep) && !Contains(k, sep) && !Contains(v, sep)
    ensures Split(k + sep + v, sep) == [k, v]
  {
    SplitOfJoin([k, v], sep);
    assert Join([k, v], sep) == k + sep + Join([v], sep) by {
      assert [k, v][1..] == [v];
    }
  }

  /** Texts around every piece can be counted to the separator instead. */
  lemma {:induction false} JoinBracketed(parts: seq<string>, bracketed: seq<string>, sep: string, open: string, close: string)
    requires parts != [] && |bracketed| == |parts|
    requires forall i | 0 <= i < |parts| :: bracketed[i] == open + parts[i] + close
    ensures Join(bracketed, sep) == open + Join(parts, close + sep + open) + close
  {
    if |parts| > 1 {
      JoinBracketed(parts[1..], bracketed[1..], sep, open, close);
      var rest := Join(parts[1..], close + sep + open);
      assert open + parts[0] + close + sep + (open + rest + close) == open + (parts[0] + (close + sep + open) + rest) + close;
    }
  }

  // ---------------------------------------------------------------------------
  // Decoding what was rendered
  // ---------------------------------------------------------------------------

  ghost predicate Separated<Q(!new)>(table: map<Q, int>, text: Q -> string, sep: string) {
    forall q | q in table :: !Contains(text(q), sep)
  }

  ghost predicate AllSeparated<Q>(order: seq<Q>, text: Q -> string, sep: string, other: string) {
    forall q | q in order :: !Contains(text(q), sep) && !Contains(text(q), other)
  }

  /** One piece of the gson form, as the split leaves it. */
  function GsonPiece(t: string, n: int, first: bool, last: bool): string {
    (if first then "[[" else "") + ("{" + t + "}," + FormatInt(n)) + (if last then "]]" else "")
  }

  lemma GsonPieceIsClean(t: string, n: int, first: bool, last: bool)
    requires !Contains(t, "],[")
    ensures !Contains(GsonPiece(t, n, first, last), "],[")
  {
    hide Contains, FormatInt;
    var open, close := (if first then "[[" else "") + "{", if last then "]]" else "";
    var v := FormatInt(n) + close;
    FormatIsPlain(n);
    CleanWithout(open, "],[", 0);
    CleanWithout(v, "],[", 1);
    CleanWithout("},", "],[", 0);
    assert "],["[1..] == ",[" && "],["[..2] == "],";
    assert v[0] == FormatInt(n)[0] && FormatInt(n)[0] in FormatInt(n);
    assert v[0] !in ",[";
    AdjoinClean(open, t, "],[");
    AdjoinClean(open + t, "},", "],[");
    AdjoinClean(open + t + "},", v, "],[");
    assert GsonPiece(t, n, first, last) == open + t + "}," + v;
  }

  lemma GsonPieceSplits(t: string, n: int, first: bool, last: bool)
    requires !Contains(t, "},")
    ensures Split(GsonPiece(t, n, first, last), "},") ==
            [(if first then "[[" else "") + "{" + t, FormatInt(n) + if last then "]]" else ""]
  {
    hide Contains, FormatInt, Split;
    var open, close := (if first then "[[" else "") + "{", if last then "]]" else "";
    var v := FormatInt(n) + close;
    FormatIsPlain(n);
    CleanWithout(open, "},", 0);
    CleanWithout(v, "},", 0);
    assert "},"[..1] == "}";
    AdjoinClean(open, t, "},");
    FirstCharacterOnce("},");
    SplitPair(open + t, "},", v);
    assert GsonPiece(t, n, first, last) == open + t + "}," + v;
  }

  lemma GsonEntryReadsBack<Q>(t: string, n: int, first: bool, last: bool, q: Q, parse: Parser<Q>)
    requires !Contains(t, "},") && IsInt64(n) && parse("{" + t + "}") == Unmarshalled(q, true)
    ensures GsonEntry(GsonPiece(t, n, first, last), first, last, parse) == Success((q, n))
  {
    hide GsonPiece, Split, ParseInt, FormatInt;
    GsonPieceSplits(t, n, first, last);
    ParseOfFormat(n);
    var k, v := (if first then "[[" else "") + "{" + t, FormatInt(n) + if last then "]]" else "";
    assert (if last then v[..|v| - 2] else v) == FormatInt(n);
    assert (if first then k[2..] else k) == "{" + t;
  }

  /** The gson form without its outermost brackets opened up: the entries between "],[". */
  lemma GsonTextJoins<Q>(order: seq<Q>, table: map<Q, int>, text: Q -> string)
    requires order != [] && forall q | q in order :: q in table
    ensures GsonText(order, table, text) == "[[" + Join(Entries(order, table, text, "{", "},", ""), "],[") + "]]"
  {
    hide Contains, FormatInt, Join;
    var inner := Entries(order, table, text, "{", "},", "");
    var outer := Entries(order, table, text, "[{", "},", "]");
    forall j | 0 <= j < |inner| ensures outer[j] == "[" + inner[j] + "]" {
      Bracketed("{" + text(order[j]) + "},", FormatInt(table[order[j]]));
      assert "[" + "{" == "[{";
    }
    JoinBracketed(inner, outer, ",", "[", "]");
    assert "]" + "," + "[" == "],[";
    Doubled(Join(inner, "],["));
  }

  lemma Bracketed(k: string, v: string)
    ensures "[" + (k + v + "") + "]" == ("[" + k) + v + "]"
  {
  }

  lemma Doubled(s: string)
    ensures "[" + ("[" + s + "]") + "]" == "[[" + s + "]]"
  {
  }

  /** The entries of the gson form from some entry on, with the closing brackets. */
  function GsonTail<Q>(order: seq<Q>, table: map<Q, int>, text: Q -> string): string
    requires forall q | q in order :: q in table
  {
    Join(Entries(order, table, text, "{", "},", ""), "],[") + "]]"
  }

  lemma GsonTailStep<Q>(order: seq<Q>, table: map<Q, int>, text: Q -> string, first: bool)
    requires order != [] && forall q | q in order :: q in table
    ensures var piece, open := GsonPiece(text(order[0]), table[order[0]], first, |order| == 1), if first then "[[" else "";
            open + GsonTail(order, table, text) == if |order| == 1 then piece else piece + "],[" + GsonTail(order[1..], table, text)
  {
    hide FormatInt, Join;
    var entry, open := "{" + text(order[0]) + "}," + FormatInt(table[order[0]]), if first then "[[" else "";
    var entries := Entries(order, table, text, "{", "},", "");
    assert entries[0] == entry + "" == entry;
    JoinStep(entries, "],[");
    if |order| > 1 {
      assert entries[1..] == Entries(order[1..], table, text, "{", "},", "");
      Regrouped(open, entry, "],[", Join(entries[1..], "],["), "]]");
    }
  }

  lemma JoinStep(parts: seq<string>, sep: string)
    requires parts != []
    ensures Join(parts, sep) == if |parts| == 1 then parts[0] else parts[0] + sep + Join(parts[1..], sep)
  {
  }

  lemma Regrouped(a: string, b: string, c: string, d: string, e: string)
    ensures a + ((b + c + d) + e) == (a + b + "") + c + (d + e)
  {
  }

  lemma NoEarlyCut(open: string, rest: string, outer: string, j: nat)
    requires |outer| > 0 && !Contains(open, outer) && OccursAt(open + rest, outer, j)
    requires open == "" || open[|open| - 1] !in outer[..|outer| - 1]
    ensures j >= |open|
  {
    if j < |open| {
      if j + |outer| <= |open| {
        OccursInFront(open, rest, outer, j);
      } else {
        AcrossTheSeam(open, rest, outer, j);
      }
    }
  }

  lemma OccursInside(open: string, t: string, rest: string, sep: string, i: nat)
    requires OccursAt(t, sep, i)
    ensures OccursAt(open + t + rest, sep, |open| + i)
  {
    var all := open + t + rest;
    assert all[|open| + i..|open| + i + |sep|] == t[i..i + |sep|];
  }

  /** The first piece of a text: it holds all of `open`, and ends within a key that holds the outer separator. */
  lemma FirstPiece(open: string, t: string, rest: string, outer: string) returns (p: nat)
    requires |outer| > 0 && !Contains(open, outer) && (open == "" || open[|open| - 1] !in outer[..|outer| - 1])
    ensures var all := open + t + rest; p <= |all| && Split(all, outer)[0] == all[..p]
    ensures |open| <= p && (Contains(t, outer) ==> p <= |open| + |t|)
  {
    var all := open + t + rest;
    var j := IndexFrom(all, outer, 0);
    p := if j == -1 then |all| else j;
    assert all[..|all|] == all;
    if j != -1 {
      assert open + (t + rest) == all;
      NoEarlyCut(open, t + rest, outer, j);
    }
    if i: nat :| OccursAt(t, outer, i) {
      OccursInside(open, t, rest, outer, i);
    }
  }

  lemma NotInOpen(open: string, rest: string, sep: string, k: nat)
    requires |sep| > 0 && sep[0] !in open && OccursAt(open + rest, sep, k)
    ensures k >= |open|
  {
    assert (open + rest)[k] == (open + rest)[k..k + |sep|][0] == sep[0];
  }

  lemma WithinKey(open: string, t: string, rest: string, sep: string, k: nat)
    requires |open| <= k && k + |sep| <= |open| + |t| && OccursAt(open + t + rest, sep, k)
    ensures OccursAt(t, sep, k - |open|) && (open + t + rest)[..k] == open + t[..k - |open|]
  {
    assert (open + t + rest)[k..k + |sep|] == t[k - |open|..k - |open| + |sep|];
  }

  /** Where a piece is cut that ends within the key, or whose key holds the inner separator: within the key. */
  lemma CutWithin(open: string, t: string, rest: string, p: nat, sep: string)
    requires |sep| == 2 && sep[0] !in open && |open| <= p <= |open + t + rest|
    requires p <= |open| + |t| || Contains(t, sep)
    ensures var piece := (open + t + rest)[..p];
            var k := IndexFrom(piece, sep, 0);
            k != -1 ==> |open| <= k && k + 2 <= |open| + |t| && OccursAt(t, sep, k - |open|) && piece[..k] == open + t[..k - |open|]
  {
    hide OccursAt, IndexFrom;
    var k := IndexFrom((open + t + rest)[..p], sep, 0);
    if k != -1 {
      CutBefore(open, t, rest, p, sep, k);
      CutAt(open, t, rest, p, sep, k);
    }
  }

  lemma CutAt(open: string, t: string, rest: string, p: nat, sep: string, k: nat)
    requires |sep| == 2 && sep[0] !in open && p <= |open + t + rest|
    requires OccursAt((open + t + rest)[..p], sep, k) && k + |sep| <= |open| + |t|
    ensures |open| <= k && OccursAt(t, sep, k - |open|) && (open + t + rest)[..p][..k] == open + t[..k - |open|]
  {
    hide OccursAt;
    var all := open + t + rest;
    assert all == all[..p] + all[p..] && all == open + (t + rest);
    Fits(all[..p], sep, k);
    OccursInFront(all[..p], all[p..], sep, k);
    NotInOpen(open, t + rest, sep, k);
    WithinKey(open, t, rest, sep, k);
    assert all[..p][..k] == all[..k];
  }

  lemma CutBefore(open: string, t: string, rest: string, p: nat, sep: string, k: nat)
    requires |open| <= p <= |open + t + rest| && (p <= |open| + |t| || Contains(t, sep))
    requires k == IndexFrom((open + t + rest)[..p], sep, 0)
    ensures k + |sep| <= |open| + |t|
  {
    hide OccursAt;
    var all := open + t + rest;
    var piece, behind := all[..p], all[p..];
    assert all == piece + behind;
    Fits(piece, sep, k);
    if p > |open| + |t| {
      var i: nat :| OccursAt(t, sep, i);
      OccursInside(open, t, rest, sep, i);
      Fits(t, sep, i);
      OccursInFront(piece, behind, sep, |open| + i);
    }
  }

  lemma Fits(s: string, sep: string, i: nat)
    requires OccursAt(s, sep, i)
    ensures i + |sep| <= |s|
  {
  }

  /** A key that holds a separator makes the gson parser stop: with an error, or with a panic. */
  lemma GsonStops<Q(!new)>(t: string, first: bool, last: bool, rest: string, q: Q, parse: Parser<Q>)
    requires PrefixFree(parse) && parse("{" + t + "}") == Unmarshalled(q, true)
    requires Contains(t, "],[") || Contains(t, "},")
    ensures !GsonEntry(Split((if first then "[[{" else "{") + t + rest, "],[")[0], first, last, parse).Success?
  {
    hide ParseInt, Contains, PrefixFree, Split, GsonEntry, OccursAt;
    var open := if first then "[[{" else "{";
    CleanWithout(open, "],[", 0);
    assert "],["[..2] == "],";
    var p := FirstPiece(open, t, rest, "],[");
    CutWithin(open, t, rest, p, "},");
    var piece := (open + t + rest)[..p];
    var k := IndexFrom(piece, "},", 0);
    if k != -1 {
      ContinuedKey(t, "},", k - |open|, parse);
      GsonKeyFails(piece, first, last, t[..k - |open|], parse);
    } else {
      GsonKeyFails(piece, first, last, "", parse);
    }
  }

  /** Without the separator there is no offset; with it, what stands before it has to be an object. */
  lemma GsonKeyFails<Q>(piece: string, first: bool, last: bool, a: string, parse: Parser<Q>)
    requires var k := IndexFrom(piece, "},", 0);
             k != -1 ==> piece[..k] == (if first then "[[{" else "{") + a && !parse("{" + a + "}").ok
    ensures !GsonEntry(piece, first, last, parse).Success?
  {
    hide ParseInt;
    assert ("[[{" + a)[2..] == "{" + a;
  }

  /** A key cut short at a brace is no object, because the key is one. */
  lemma ContinuedKey<Q(!new)>(t: string, sep: string, i: nat, parse: Parser<Q>)
    requires PrefixFree(parse) && parse("{" + t + "}").ok && |sep| == 2 && sep[0] == '}' && OccursAt(t, sep, i)
    ensures !parse("{" + t[..i] + "}").ok
  {
    assert t[i] == t[i..i + 2][0];
    assert t == t[..i] + "}" + t[i + 1..];
    assert "{" + t + "}" == "{" + t[..i] + "}" + t[i + 1..] + "}";
  }

  /** From any entry on: clean texts are read back, and an unclean one ends the parse. */
  lemma {:induction false} GsonTailReads<Q(!new)>(order: seq<Q>, table: map<Q, int>, text: Q -> string, parse: Parser<Q>,
                                                  first: bool, m: map<Q, int>)
    requires order != [] && (forall q | q in order :: q in table) && Faithful(table, text, parse)
    ensures var r := GsonFrom(Split((if first then "[[" else "") + GsonTail(order, table, text), "],["), first, m, parse);
            && (AllSeparated(order, text, "],[", "},") ==> r == Success(Overwrite(m, order, table)))
            && (PrefixFree(parse) && !AllSeparated(order, text, "],[", "},") ==> !r.Success?)
    decreases |order|
  {
    hide GsonEntry, Split, FormatInt, Contains, GsonTail, Entries, PrefixFree;
    var q, last := order[0], |order| == 1;
    assert q in table;
    var t, n := text(q), table[q];
    var piece := GsonPiece(t, n, first, last);
    GsonTailStep(order, table, text, first);
    FirstCharacterOnce("],[");
    assert forall x :: x in order <==> x == q || x in order[1..];
    if !Contains(t, "],[") && !Contains(t, "},") {
      GsonPieceIsClean(t, n, first, last);
      GsonEntryReadsBack(t, n, first, last, q, parse);
      if last {
        SplitClean(piece, "],[");
      } else {
        var tail := GsonTail(order[1..], table, text);
        SplitHead(piece, "],[", tail);
        GsonTailReads(order[1..], table, text, parse, false, m[q := n]);
        assert "" + tail == tail && ([piece] + Split(tail, "],["))[1..] == Split(tail, "],[");
      }
    } else {
      GsonStopsHere(order, table, text, parse, first, m);
    }
  }

  lemma GsonStopsHere<Q(!new)>(order: seq<Q>, table: map<Q, int>, text: Q -> string, parse: Parser<Q>, first: bool, m: map<Q, int>)
    requires order != [] && (forall q | q in order :: q in table) && Faithful(table, text, parse)
    requires Contains(text(order[0]), "],[") || Contains(text(order[0]), "},")
    ensures !AllSeparated(order, text, "],[", "},")
    ensures PrefixFree(parse) ==>
              !GsonFrom(Split((if first then "[[" else "") + GsonTail(order, table, text), "],["), first, m, parse).Success?
  {
    hide GsonEntry, Split, FormatInt, Contains, GsonTail, Entries, PrefixFree, GsonPiece;
    var q, last := order[0], |order| == 1;
    assert q in order && q in table;
    var t, n := text(q), table[q];
    GsonTailStep(order, table, text, first);
    var all, open := (if first then "[[" else "") + GsonTail(order, table, text), if first then "[[{" else "{";
    var behind := PieceOpens(t, n, first, last);
    var rest := if last then behind else behind + "],[" + GsonTail(order[1..], table, text);
    assert all == open + t + rest;
    if PrefixFree(parse) {
      GsonStops(t, first, |Split(all, "],[")| == 1, rest, q, parse);
    }
  }

  lemma PieceOpens(t: string, n: int, first: bool, last: bool) returns (behind: string)
    ensures GsonPiece(t, n, first, last) == (if first then "[[{" else "{") + t + behind
  {
    hide FormatInt;
    behind := "}," + FormatInt(n) + if last then "]]" else "";
  }

  lemma GsonWhole<Q(!new)>(order: seq<Q>, table: map<Q, int>, text: Q -> string, parse: Parser<Q>)
    requires Enumerates(order, table) && Faithful(table, text, parse)
    ensures AllSeparated(order, text, "],[", "},") ==> Gson(GsonText(order, table, text), parse) == Success(table)
    ensures PrefixFree(parse) && !AllSeparated(order, text, "],[", "},") ==> !Gson(GsonText(order, table, text), parse).Success?
  {
    hide Split, GsonFrom, Faithful, Contains, PrefixFree, GsonTail;
    if order == [] {
      assert GsonText(order, table, text) == "[]";
      assert table == map[];
    } else {
      GsonTailReads(order, table, text, parse, true, map[]);
      GsonTextIsTail(order, table, text);
      OverwriteAll(order, table);
      LongerThanBrackets(order, table, text);
    }
  }

  lemma GsonTextIsTail<Q>(order: seq<Q>, table: map<Q, int>, text: Q -> string)
    requires order != [] && forall q | q in order :: q in table
    ensures GsonText(order, table, text) == "[[" + GsonTail(order, table, text)
  {
    hide Join, Entries;
    GsonTextJoins(order, table, text);
  }

  /** The gson form of a table, its entries in any order, decodes to the table. */
  lemma GsonRoundTrip<Q(!new)>(order: seq<Q>, table: map<Q, int>, text: Q -> string, parse: Parser<Q>)
    requires Enumerates(order, table) && Faithful(table, text, parse)
    requires Separated(table, text, "],[") && Separated(table, text, "},")
    ensures Gson(GsonText(order, table, text), parse) == Success(table)
  {
    GsonWhole(order, table, text, parse);
  }

  /** For every table and order, with a parser of objects none of which continues another: the gson form decodes to the
      table exactly when no queue text contains "],[" or "},", and otherwise to no table at all. */
  lemma GsonReadsBackIff<Q(!new)>(order: seq<Q>, table: map<Q, int>, text: Q -> string, parse: Parser<Q>)
    requires Enumerates(order, table) && Faithful(table, text, parse) && PrefixFree(parse)
    ensures Gson(GsonText(order, table, text), parse) == Success(table) <==> Separated(table, text, "],[") && Separated(table, text, "},")
    ensures Gson(GsonText(order, table, text), parse).Success? ==> Gson(GsonText(order, table, text), parse) == Success(table)
  {
    hide Gson, GsonText, Faithful, PrefixFree, Contains;
    GsonWhole(order, table, text, parse);
  }

  lemma LongerThanBrackets<Q>(order: seq<Q>, table: map<Q, int>, text: Q -> string)
    requires order != [] && forall q | q in order :: q in table
    ensures |GsonText(order, table, text)| > 2 && |FastText(order, table, text)| > 2
  {
    hide FormatInt;
    FirstInJoin(Entries(order, table, text, "[{", "},", "]"), ",");
    FirstInJoin(Entries(order, table, text, "{", "}:", ""), ",");
  }

  lemma FirstInJoin(parts: seq<string>, sep: string)
    requires parts != []
    ensures |Join(parts, sep)| >= |parts[0]|
  {
  }

  lemma FastPieceIsClean(t: string, n: int)
    requires !Contains(t, ",{")
    ensures !Contains(t + "}:" + FormatInt(n), ",{")
  {
    hide Contains, FormatInt;
    var v := FormatInt(n);
    FormatIsPlain(n);
    CleanWithout(v, ",{", 0);
    CleanWithout("}:", ",{", 0);
    assert ",{"[1..] == "{";
    AdjoinClean(t, "}:", ",{");
    AdjoinClean(t + "}:", v, ",{");
  }

  lemma FastPieceSplits(t: string, n: int)
    requires !Contains(t, "}:")
    ensures Split(t + "}:" + FormatInt(n), "}:") == [t, FormatInt(n)]
  {
    hide Contains, FormatInt, Split;
    FormatIsPlain(n);
    CleanWithout(FormatInt(n), "}:", 0);
    FirstCharacterOnce("}:");
    SplitPair(t, "}:", FormatInt(n));
  }

  lemma FastEntryReadsBack<Q>(t: string, n: int, q: Q, parse: Parser<Q>)
    requires !Contains(t, "}:") && IsInt64(n) && parse("{" + t + "}") == Unmarshalled(q, true)
    ensures FastEntry(t + "}:" + FormatInt(n), parse) == Success((q, n))
  {
    hide Split, Atoi, FormatInt;
    FastPieceSplits(t, n);
    ParseOfFormat(n);
  }

  /** The fastjson form without its ends: the entries between ",{". */
  lemma FastTextJoins<Q>(order: seq<Q>, table: map<Q, int>, text: Q -> string)
    requires order != [] && forall q | q in order :: q in table
    ensures var s := FastText(order, table, text);
            |s| > 2 && s[2..|s| - 1] == Join(Entries(order, table, text, "", "}:", ""), ",{")
  {
    hide FormatInt, Join;
    var inner := Entries(order, table, text, "", "}:", "");
    var outer := Entries(order, table, text, "{", "}:", "");
    forall j | 0 <= j < |inner| ensures outer[j] == "{" + inner[j] + "" {
      Braced(text(order[j]) + "}:", FormatInt(table[order[j]]));
    }
    JoinBracketed(inner, outer, ",", "{", "");
    assert "" + "," + "{" == ",{";
    LongerThanBrackets(order, table, text);
    var s := FastText(order, table, text);
    assert s == "{" + ("{" + Join(inner, ",{") + "") + "}";
  }

  lemma Braced(k: string, v: string)
    ensures "{" + ("" + k + v + "") + "" == "{" + k + v + ""
  {
  }

  function FastTail<Q>(order: seq<Q>, table: map<Q, int>, text: Q -> string): string
    requires forall q | q in order :: q in table
  {
    Join(Entries(order, table, text, "", "}:", ""), ",{")
  }

  function FastPiece(t: string, n: int): string {
    t + "}:" + FormatInt(n)
  }

  lemma FastTailStep<Q>(order: seq<Q>, table: map<Q, int>, text: Q -> string)
    requires order != [] && forall q | q in order :: q in table
    ensures var piece := FastPiece(text(order[0]), table[order[0]]);
            FastTail(order, table, text) == if |order| == 1 then piece else piece + ",{" + FastTail(order[1..], table, text)
  {
    hide FormatInt, Join;
    var entries := Entries(order, table, text, "", "}:", "");
    assert entries[0] == FastPiece(text(order[0]), table[order[0]]);
    JoinStep(entries, ",{");
    if |order| > 1 {
      assert entries[1..] == Entries(order[1..], table, text, "", "}:", "");
    }
  }

  /** A key that holds a separator makes the fastjson parser panic, or store an offset for the empty queue. */
  lemma FastMisreads<Q(!new)>(t: string, rest: string, q: Q, zero: Q, parse: Parser<Q>)
    requires PrefixFree(parse) && TruncationsLeave(parse, zero) && parse("{" + t + "}") == Unmarshalled(q, true)
    requires Contains(t, ",{") || Contains(t, "}:")
    ensures var e := FastEntry(Split(t + rest, ",{")[0], parse); e.Panicked? || (e.Success? && e.value.0 == zero)
  {
    hide Atoi, Contains, PrefixFree, TruncationsLeave;
    assert "" + t + rest == t + rest;
    CleanWithout("", ",{", 0);
    var p := FirstPiece("", t, rest, ",{");
    CutWithin("", t, rest, p, "}:");
    var piece := (t + rest)[..p];
    var k := IndexFrom(piece, "}:", 0);
    if k != -1 {
      ContinuedKey(t, "}:", k, parse);
      TruncatedKey(t, "}:", k, zero, parse);
      assert Split(piece, "}:")[0] == t[..k];
    }
  }

  lemma TruncatedKey<Q(!new)>(t: string, sep: string, i: nat, zero: Q, parse: Parser<Q>)
    requires |sep| == 2 && sep[0] == '}' && OccursAt(t, sep, i)
    requires TruncationsLeave(parse, zero) && parse("{" + t + "}").ok && !parse("{" + t[..i] + "}").ok
    ensures parse("{" + t[..i] + "}").queue == zero
  {
    assert t[i] == t[i..i + 2][0];
    assert t == t[..i] + "}" + t[i + 1..];
    assert "{" + t + "}" == "{" + t[..i] + "}" + t[i + 1..] + "}";
  }

  lemma {:induction false} FastKeeps<Q>(pieces: seq<string>, table: map<Q, int>, parse: Parser<Q>)
    ensures FastFrom(pieces, table, parse).Success? ==> table.Keys <= FastFrom(pieces, table, parse).value.Keys
    decreases |pieces|
  {
    hide FastEntry;
    if pieces != [] && FastEntry(pieces[0], parse).Success? {
      var e := FastEntry(pieces[0], parse).value;
      FastKeeps(pieces[1..], table[e.0 := e.1], parse);
    }
  }

  lemma {:induction false} FastTailReads<Q(!new)>(order: seq<Q>, table: map<Q, int>, text: Q -> string, parse: Parser<Q>,
                                                  zero: Q, m: map<Q, int>)
    requires order != [] && (forall q | q in order :: q in table) && Faithful(table, text, parse)
    ensures var r := FastFrom(Split(FastTail(order, table, text), ",{"), m, parse);
            && (AllSeparated(order, text, ",{", "}:") ==> r == Success(Overwrite(m, order, table)))
            && (PrefixFree(parse) && TruncationsLeave(parse, zero) && !AllSeparated(order, text, ",{", "}:") ==>
                  r.Success? ==> zero in r.value)
    decreases |order|
  {
    hide FastEntry, Split, FormatInt, Contains, FastTail, Entries, PrefixFree, TruncationsLeave;
    var q, last := order[0], |order| == 1;
    assert q in table;
    var t, n := text(q), table[q];
    var piece := FastPiece(t, n);
    FastTailStep(order, table, text);
    FirstCharacterOnce(",{");
    assert forall x :: x in order <==> x == q || x in order[1..];
    if !Contains(t, ",{") && !Contains(t, "}:") {
      FastPieceIsClean(t, n);
      FastEntryReadsBack(t, n, q, parse);
      if last {
        SplitClean(piece, ",{");
      } else {
        var tail := FastTail(order[1..], table, text);
        SplitHead(piece, ",{", tail);
        FastTailReads(order[1..], table, text, parse, zero, m[q := n]);
        assert ([piece] + Split(tail, ",{"))[1..] == Split(tail, ",{");
      }
    } else {
      FastMisreadsHere(order, table, text, parse, zero, m);
    }
  }

  lemma FastMisreadsHere<Q(!new)>(order: seq<Q>, table: map<Q, int>, text: Q -> string, parse: Parser<Q>, zero: Q, m: map<Q, int>)
    requires order != [] && (forall q | q in order :: q in table) && Faithful(table, text, parse)
    requires Contains(text(order[0]), ",{") || Contains(text(order[0]), "}:")
    ensures !AllSeparated(order, text, ",{", "}:")
    ensures PrefixFree(parse) && TruncationsLeave(parse, zero) ==>
              var r := FastFrom(Split(FastTail(order, table, text), ",{"), m, parse); r.Success? ==> zero in r.value
  {
    hide FastEntry, Split, FormatInt, Contains, FastTail, Entries, PrefixFree, TruncationsLeave;
    var q, last := order[0], |order| == 1;
    assert q in order && q in table;
    var t, n := text(q), table[q];
    FastTailStep(order, table, text);
    var all := FastTail(order, table, text);
    var rest := "}:" + FormatInt(n) + if last then "" else ",{" + FastTail(order[1..], table, text);
    assert all == t + rest;
    if PrefixFree(parse) && TruncationsLeave(parse, zero) {
      FastMisreads(t, rest, q, zero, parse);
      var pieces := Split(all, ",{");
      if FastEntry(pieces[0], parse).Success? {
        var e := FastEntry(pieces[0], parse).value;
        FastKeeps(pieces[1..], m[e.0 := e.1], parse);
      }
    }
  }

  lemma FastWhole<Q(!new)>(order: seq<Q>, table: map<Q, int>, text: Q -> string, parse: Parser<Q>, zero: Q)
    requires Enumerates(order, table) && Faithful(table, text, parse)
    ensures AllSeparated(order, text, ",{", "}:") ==> Fast(FastText(order, table, text), parse) == Success(table)
    ensures PrefixFree(parse) && TruncationsLeave(parse, zero) && !AllSeparated(order, text, ",{", "}:") ==>
              var r := Fast(FastText(order, table, text), parse); r.Success? ==> zero in r.value
  {
    hide Split, FastFrom, Faithful, Contains, PrefixFree, TruncationsLeave;
    if order == [] {
      assert FastText(order, table, text) == "{}";
      assert table == map[];
    } else {
      FastTailReads(order, table, text, parse, zero, map[]);
      FastTextJoins(order, table, text);
      OverwriteAll(order, table);
    }
  }

  /** The fastjson form of a table, its entries in any order, decodes to the table. */
  lemma FastRoundTrip<Q(!new)>(order: seq<Q>, table: map<Q, int>, text: Q -> string, parse: Parser<Q>)
    requires Enumerates(order, table) && Faithful(table, text, parse)
    requires Separated(table, text, ",{") && Separated(table, text, "}:")
    ensures Fast(FastText(order, table, text), parse) == Success(table)
  {
    FastWhole(order, table, text, parse, parse("").queue);
  }

  /** For every table and order, with such a parser, and when the empty queue is no key of the table: the fastjson form
      decodes to the table exactly when no queue text contains ",{" or "}:". */
  lemma FastReadsBackIff<Q(!new)>(order: seq<Q>, table: map<Q, int>, text: Q -> string, parse: Parser<Q>, zero: Q)
    requires Enumerates(order, table) && Faithful(table, text, parse)
    requires PrefixFree(parse) && TruncationsLeave(parse, zero) && zero !in table
    ensures Fast(FastText(order, table, text), parse) == Success(table) <==> Separated(table, text, ",{") && Separated(table, text, "}:")
  {
    hide Fast, FastText, Faithful, PrefixFree, TruncationsLeave, Contains;
    FastWhole(order, table, text, parse, zero);
  }

  /** ResetOffsetBody.Decode: a body that is valid JSON is taken for the gson form. */
  method Decode<Q(==)>(validJson: bool, offsetStr: string, parse: Parser<Q>) returns (r: Outcome<map<Q, int>>)
    ensures r == if validJson then Gson(offsetStr, parse) else Fast(offsetStr, parse)
  {
    if validJson {
      r := ParseGsonFormat(offsetStr, parse);
    } else {
      r := ParseFastJsonFormat(offsetStr, parse);
    }
  }

  /** Both forms of one table decode to the same map, the original, in whatever order they list it and although each
      parser has a JSON library of its own. */
  lemma BothFormsAgree<Q(!new)>(gson: seq<Q>, fast: seq<Q>, table: map<Q, int>, text: Q -> string, parse: Parser<Q>, other: Parser<Q>)
    requires Enumerates(gson, table) && Enumerates(fast, table) && Faithful(table, text, parse) && Faithful(table, text, other)
    requires forall sep | sep in ["],[", "},", ",{", "}:"] :: Separated(table, text, sep)
    ensures Gson(GsonText(gson, table, text), parse) == Fast(FastText(fast, table, text), other) == Success(table)
  {
    hide Gson, Fast, GsonText, FastText, Separated, Faithful, Enumerates;
    assert "],[" in ["],[", "},", ",{", "}:"] && "}," in ["],[", "},", ",{", "}:"];
    assert ",{" in ["],[", "},", ",{", "}:"] && "}:" in ["],[", "},", ",{", "}:"];
    GsonRoundTrip(gson, table, text, parse);
    FastRoundTrip(fast, table, text, other);
  }

  // ---------------------------------------------------------------------------
  // With any parser
  // ---------------------------------------------------------------------------

  /** A text with "}," in it, read as the only entry by any parser: what follows the separator is read as the offset,
      whatever the offset was. */
  lemma SeparatorInText<Q(!new)>(t: string, n: int, parse: Parser<Q>)
    requires Contains(t, "},") && !Contains(t, "],[")
    ensures |Split(t, "},")| > 1
    ensures var key, offset := Split(t, "},")[0], Split(t, "},")[1];
            Gson(GsonPiece(t, n, true, true), parse) ==
            if |offset| < 2 then Panicked
            else if !ParseInt(offset[..|offset| - 2]).Number? || !parse("{" + key + "}").ok then Failed
            else Success(map[parse("{" + key + "}").queue := ParseInt(offset[..|offset| - 2]).value])
  {
    hide Split, ParseInt, FormatInt, Contains;
    var s, v := GsonPiece(t, n, true, true), FormatInt(n) + "]]";
    GsonPieceIsClean(t, n, true, true);
    SplitClean(s, "],[");
    var a, b := SplitTwice(t, v);
    assert s == "[[{" + t + "}," + v;
    assert ("[[{" + a)[2..] + "}" == "{" + a + "}";
    assert Gson(s, parse) == GsonFrom([s], true, map[], parse);
    OneEntry(s, parse);
  }

  /** The first two pieces behind the opening brackets are those of the key. */
  lemma SplitTwice(t: string, v: string) returns (a: string, b: string)
    requires Contains(t, "},")
    ensures |Split(t, "},")| > 1 && a == Split(t, "},")[0] && b == Split(t, "},")[1]
    ensures var parts := Split("[[{" + t + "}," + v, "},"); |parts| > 1 && parts[0] == "[[{" + a && parts[1] == b
  {
    hide Contains, Split, OccursAt, IndexFrom;
    var found, head, tail := SplitStep(t, "},");
    a, b := head, Split(tail, "},")[0];
    FirstCharacterOnce("},");
    CleanWithout("[[{", "},", 0);
    AdjoinClean("[[{", a, "},");
    assert "[[{" + t + "}," + v == ("[[{" + a) + "}," + (tail + "}," + v);
    SplitHead("[[{" + a, "},", tail + "}," + v);
    SplitBefore(tail, v);
  }

  lemma SplitBefore(t: string, v: string)
    ensures Split(t + "}," + v, "},")[0] == Split(t, "},")[0]
  {
    hide Contains, Split, OccursAt, IndexFrom;
    var found, head, tail := SplitStep(t, "},");
    FirstCharacterOnce("},");
    if found {
      assert t + "}," + v == head + "}," + (tail + "}," + v);
      SplitHead(head, "},", tail + "}," + v);
    } else {
      SplitHead(t, "},", v);
    }
  }

  /** With any parser that accepts the text itself: it reads back with every offset exactly when it does not contain
      "},", as long as it does not contain "],[" either. */
  lemma GsonTextIff<Q(!new)>(t: string, q: Q, parse: Parser<Q>)
    requires parse("{" + t + "}") == Unmarshalled(q, true) && !Contains(t, "],[")
    ensures (forall n | IsInt64(n) :: Gson(GsonPiece(t, n, true, true), parse) == Success(map[q := n])) <==> !Contains(t, "},")
  {
    hide Split, ParseInt, FormatInt, Contains, GsonPiece, GsonEntry;
    if Contains(t, "},") {
      SeparatorInText(t, 0, parse);
      SeparatorInText(t, 1, parse);
      assert map[q := 0][q] != map[q := 1][q];
    } else {
      forall n | IsInt64(n) ensures Gson(GsonPiece(t, n, true, true), parse) == Success(map[q := n]) {
        var s := GsonPiece(t, n, true, true);
        GsonPieceIsClean(t, n, true, true);
        GsonEntryReadsBack(t, n, true, true, q, parse);
        SplitClean(s, "],[");
        OneEntry(s, parse);
        PieceIsLong(t, n);
      }
    }
  }

  lemma PieceIsLong(t: string, n: int)
    ensures |GsonPiece(t, n, true, true)| > 2
  {
  }

  lemma OneEntry<Q>(s: string, parse: Parser<Q>)
    ensures GsonFrom([s], true, map[], parse) ==
            match GsonEntry(s, true, true, parse)
            case Success(e) => Success(map[e.0 := e.1])
            case Failed => Failed
            case Panicked => Panicked
  {
    hide GsonEntry;
    if GsonEntry(s, true, true, parse).Success? {
      var e := GsonEntry(s, true, true, parse).value;
      var none: map<Q, int> := map[];
      assert none[e.0 := e.1] == map[e.0 := e.1];
      assert [s][1..] == [];
    }
  }

  /** A parser that accepts a text and its continuation can even read back a text with separators. */
  lemma PrefixesMatter(n: int)
    requires IsInt64(n)
    ensures Gson(GsonPiece("A},7],[{A", n, true, true), _ => Unmarshalled(0, true)) == Success(map[0 := n])
  {
    hide Split, ParseInt, FormatInt, Contains;
    var parse: Parser<int> := _ => Unmarshalled(0, true);
    var s, first, second := GsonPiece("A},7],[{A", n, true, true), GsonPiece("A", 7, true, false), GsonPiece("A", n, false, true);
    CleanWithout("A", "],[", 0);
    CleanWithout("A", "},", 0);
    GsonPieceIsClean("A", 7, true, false);
    GsonPieceIsClean("A", n, false, true);
    GsonEntryReadsBack("A", 7, true, false, 0, parse);
    GsonEntryReadsBack("A", n, false, true, 0, parse);
    FirstCharacterOnce("],[");
    assert FormatInt(7) == "7" by { SevenIs7(); }
    assert s == first + "],[" + second;
    SplitHead(first, "],[", second);
    SplitClean(second, "],[");
    assert map[0 := 7][0 := n] == map[0 := n];
    assert GsonFrom([second], false, map[0 := 7], parse) == Success(map[0 := n]);
  }

  lemma SevenIs7()
    ensures FormatInt(7) == "7"
  {
  }
}
