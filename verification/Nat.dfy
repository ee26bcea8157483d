/** weyos/v1/nat.go: the delimited text form of destination NAT records. */
module Nat {
  import opened Common
  import opened Text

  const FIELD_SEP := "<"
  const RECORD_SEP := ">"
  const FIELDS := 8

  datatype DNat = DNat(
    name: string, status: string, protocol: string, lanPort: string,
    lanIp: string, wanIps: string, wanPort: string, wanInterface: string)

  /** Field `i` of the struct, in the order of its declaration. */
  function Field(d: DNat, i: nat): string
    requires i < FIELDS
  {
    match i
    case 0 => d.name
    case 1 => d.status
    case 2 => d.protocol
    case 3 => d.lanPort
    case 4 => d.lanIp
    case 5 => d.wanIps
    case 6 => d.wanPort
    case _ => d.wanInterface
  }

  function WithField(d: DNat, i: nat, s: string): DNat
    requires i < FIELDS
  {
    match i
    case 0 => d.(name := s)
    case 1 => d.(status := s)
    case 2 => d.(protocol := s)
    case 3 => d.(lanPort := s)
    case 4 => d.(lanIp := s)
    case 5 => d.(wanIps := s)
    case 6 => d.(wanPort := s)
    case _ => d.(wanInterface := s)
  }

  /** dnatFieldPos: the position of the struct's field `i` in a record. */
  function FieldPos(i: nat): (p: nat)
    requires i < FIELDS
    ensures p < FIELDS
  {
    [6, 0, 1, 4, 5, 2, 3, 7][i]
  }

  /** The fields in the order of the text form. */
  function ToRecord(d: DNat): (r: seq<string>)
    ensures |r| == FIELDS
  {
    [d.status, d.protocol, d.wanIps, d.wanPort, d.lanPort, d.lanIp, d.name, d.wanInterface]
  }

  function FromRecord(r: seq<string>): DNat
    requires |r| == FIELDS
  {
    DNat(r[6], r[0], r[1], r[4], r[5], r[2], r[3], r[7])
  }

  function Texts(l: seq<DNat>): (ss: seq<string>)
    ensures |ss| == |l|
  {
    if l == [] then [] else Texts(l[..|l| - 1]) + [Join(ToRecord(l[|l| - 1]), FIELD_SEP)]
  }

  function Marshalled(l: seq<DNat>): string {
    Join(Texts(l), RECORD_SEP)
  }

  predicate WellFormed(record: string) {
    |Split(record, FIELD_SEP)| == FIELDS
  }

  function Parsed(records: seq<string>): seq<DNat> {
    if records == [] then []
    else
      var last := records[|records| - 1];
      Parsed(records[..|records| - 1]) + if WellFormed(last) then [FromRecord(Split(last, FIELD_SEP))] else []
  }

  function Unmarshalled(s: string): seq<DNat> {
    Parsed(Split(s, RECORD_SEP))
  }

  function Kept(records: seq<string>): seq<string> {
    if records == [] then []
    else
      var last := records[|records| - 1];
      Kept(records[..|records| - 1]) + if WellFormed(last) then [last] else []
  }

  // ---------------------------------------------------------------------------
  // The code
  // ---------------------------------------------------------------------------

  /** mkDnat: each field goes to its position in the record. */
  method MkDnat(v: DNat) returns (record: string)
    ensures record == Join(ToRecord(v), FIELD_SEP)
  {
    var s: seq<string> := ["", "", "", "", "", "", "", ""];
    for i := 0 to FIELDS
      invariant |s| == FIELDS
      invariant forall j: nat | j < i :: s[FieldPos(j)] == Field(v, j)
    {
      s := s[FieldPos(i) := Field(v, i)];
    }
    assert s == ToRecord(v) by {
      assert s[FieldPos(0)] == v.name && s[FieldPos(1)] == v.status && s[FieldPos(2)] == v.protocol && s[FieldPos(3)] == v.lanPort;
      assert s[FieldPos(4)] == v.lanIp && s[FieldPos(5)] == v.wanIps;
      assert s[FieldPos(6)] == v.wanPort && s[FieldPos(7)] == v.wanInterface;
    }
    return Join(s, FIELD_SEP);
  }

  /** marshal over a slice. */
  method MarshalDnat(v: seq<DNat>) returns (s: string)
    ensures s == Marshalled(v)
  {
    var ss: seq<string> := [];
    for i := 0 to |v|
      invariant ss == Texts(v[..i])
    {
      assert v[..i + 1][..i] == v[..i];
      var record := MkDnat(v[i]);
      ss := ss + [record];
    }
    assert v[..|v|] == v;
    if |ss| == 0 {
      return "";
    }
    return Join(ss, RECORD_SEP);
  }

  /** The inner loop of unmkDnat; `v` is the one value that all records are read into. */
  method ReadFields(field: seq<string>, v: DNat) returns (d: DNat)
    requires |field| == FIELDS
    ensures d == FromRecord(field)
  {
    d := v;
    for i := 0 to FIELDS
      invariant forall j: nat | j < i :: Field(d, j) == field[FieldPos(j)]
    {
      d := WithField(d, i, field[FieldPos(i)]);
    }
    assert d == FromRecord(field) by {
      assert Field(d, 0) == field[FieldPos(0)] && Field(d, 1) == field[FieldPos(1)];
      assert Field(d, 2) == field[FieldPos(2)] && Field(d, 3) == field[FieldPos(3)];
      assert Field(d, 4) == field[FieldPos(4)] && Field(d, 5) == field[FieldPos(5)];
      assert Field(d, 6) == field[FieldPos(6)] && Field(d, 7) == field[FieldPos(7)];
    }
  }

  class NatTable {
    var dNats: seq<DNat>

    constructor ()
      ensures dNats == []
    {
      dNats := [];
    }

    method AddEntry(e: DNat)
      modifies this
      ensures dNats == old(dNats) + [e]
    {
      dNats := dNats + [e];
    }

    /** DNatfrom, that is unmkDnat on a slice: appends what it reads. */
    method DNatFrom(s: string)
      modifies this
      ensures dNats == old(dNats) + Unmarshalled(s)
    {
      var v := DNat("", "", "", "", "", "", "", "");
      var records := Split(s, RECORD_SEP);
      for i := 0 to |records|
        invariant dNats == old(dNats) + Parsed(records[..i])
      {
        assert records[..i + 1][..i] == records[..i];
        var field := Split(records[i], FIELD_SEP);
        if |field| == FIELDS {
          v := ReadFields(field, v);
          dNats := dNats + [v];
        }
      }
      assert records[..|records|] == records;
    }

    /** DNatString without the character set conversion. */
    method DNatString() returns (s: string)
      ensures s == Marshalled(dNats)
    {
      s := MarshalDnat(dNats);
    }
  }

  // ---------------------------------------------------------------------------
  // What survives
  // ---------------------------------------------------------------------------

  ghost predicate CleanField(s: string) {
    !Contains(s, FIELD_SEP) && !Contains(s, RECORD_SEP)
  }

  ghost predicate CleanRecord(d: DNat) {
    forall s | s in ToRecord(d) :: CleanField(s)
  }

  /** The text of one record, spelled out. */
  lemma RecordText(d: DNat)
    ensures Join(ToRecord(d), FIELD_SEP) ==
            d.status + "<" + (d.protocol + "<" + (d.wanIps + "<" + (d.wanPort + "<" +
            (d.lanPort + "<" + (d.lanIp + "<" + (d.name + "<" + d.wanInterface))))))
  {
    hide Join;
    var r := ToRecord(d);
    JoinFrom(r, 7);
    JoinFrom(r, 6);
    JoinFrom(r, 5);
    JoinFrom(r, 4);
    JoinFrom(r, 3);
    JoinFrom(r, 2);
    JoinFrom(r, 1);
    JoinFrom(r, 0);
    assert r[0..] == r;
  }

  lemma JoinFrom(r: seq<string>, i: nat)
    requires i < |r|
    ensures Join(r[i..], FIELD_SEP) == if i + 1 == |r| then r[i] else r[i] + FIELD_SEP + Join(r[i + 1..], FIELD_SEP)
  {
    assert r[i..][1..] == r[i + 1..];
  }

  /** The text of a list: its records with ">" between them. */
  lemma MarshalledSnoc(l: seq<DNat>, d: DNat)
    ensures Marshalled([]) == ""
    ensures Marshalled(l + [d]) == (if l == [] then "" else Marshalled(l) + ">") + Join(ToRecord(d), FIELD_SEP)
  {
    var text := Join(ToRecord(d), FIELD_SEP);
    assert (l + [d])[..|l|] == l;
    JoinSnoc(Texts(l), text, RECORD_SEP);
  }

  lemma {:induction false} JoinSnoc(parts: seq<string>, last: string, sep: string)
    ensures Join(parts + [last], sep) == (if parts == [] then "" else Join(parts, sep) + sep) + last
  {
    if parts == [] {
      assert parts + [last] == [last];
    } else {
      assert (parts + [last])[1..] == parts[1..] + [last];
      JoinSnoc(parts[1..], last, sep);
      if |parts| > 1 {
        assert parts[0] + sep + (Join(parts[1..], sep) + sep + last) == parts[0] + sep + Join(parts[1..], sep) + sep + last;
      }
    }
  }

  lemma RecordInverse(r: seq<string>, d: DNat)
    ensures |r| == FIELDS ==> ToRecord(FromRecord(r)) == r
    ensures FromRecord(ToRecord(d)) == d
  {
  }

  /** A character occurs in a joined text only if it occurs in a piece or in the separator. */
  lemma {:induction false} JoinIsClean(parts: seq<string>, sep: string, c: char)
    requires c !in sep && forall p | p in parts :: c !in p
    ensures c !in Join(parts, sep)
  {
    if |parts| > 1 {
      JoinIsClean(parts[1..], sep, c);
    }
  }

  lemma CleanMeansAbsent(s: string, c: char)
    ensures Contains(s, [c]) <==> c in s
  {
    if c in s {
      var i :| 0 <= i < |s| && s[i] == c;
      assert s[i..i + 1] == [c];
      assert OccursAt(s, [c], i);
    }
    if Contains(s, [c]) {
      var i: nat :| OccursAt(s, [c], i);
      assert s[i..i + 1][0] == c;
    }
  }

  lemma {:induction false} PieceOfJoin(parts: seq<string>, sep: string, i: nat, c: char)
    requires i < |parts| && c in parts[i]
    ensures c in Join(parts, sep)
  {
    if i > 0 {
      PieceOfJoin(parts[1..], sep, i - 1, c);
    }
  }

  /** The text of a clean record is one piece with eight fields. */
  lemma CleanRecordReadsBack(d: DNat)
    requires CleanRecord(d)
    ensures !Contains(Join(ToRecord(d), FIELD_SEP), RECORD_SEP)
    ensures Split(Join(ToRecord(d), FIELD_SEP), FIELD_SEP) == ToRecord(d)
  {
    forall s | s in ToRecord(d) ensures '>' !in s && !Contains(s, FIELD_SEP) {
      assert CleanField(s);
      CleanMeansAbsent(s, '>');
    }
    JoinIsClean(ToRecord(d), FIELD_SEP, '>');
    CleanMeansAbsent(Join(ToRecord(d), FIELD_SEP), '>');
    SplitOfJoin(ToRecord(d), FIELD_SEP);
  }

  lemma {:induction false} ParsedTexts(l: seq<DNat>)
    requires forall d | d in l :: CleanRecord(d)
    ensures Parsed(Texts(l)) == l
    ensures forall t | t in Texts(l) :: !Contains(t, RECORD_SEP)
  {
    if l != [] {
      var front, last := l[..|l| - 1], l[|l| - 1];
      assert l == front + [last];
      assert last in l;
      ParsedTexts(front);
      CleanRecordReadsBack(last);
      RecordInverse([], last);
      assert Texts(l)[..|l| - 1] == Texts(front);
    }
  }

  /** Whatever text is read, the fields that come out contain neither separator. */
  lemma {:induction false} ParsedIsClean(records: seq<string>)
    requires forall r | r in records :: !Contains(r, RECORD_SEP)
    ensures forall d | d in Parsed(records) :: CleanRecord(d)
  {
    if records != [] {
      var front, last := records[..|records| - 1], records[|records| - 1];
      assert records == front + [last];
      ParsedIsClean(front);
      assert last in records;
      if WellFormed(last) {
        PiecesAreClean(last);
        RecordInverse(Split(last, FIELD_SEP), DNat("", "", "", "", "", "", "", ""));
      }
    }
  }

  lemma PiecesAreClean(record: string)
    requires !Contains(record, RECORD_SEP)
    ensures forall f | f in Split(record, FIELD_SEP) :: CleanField(f)
  {
    var fields := Split(record, FIELD_SEP);
    SplitIsClean(record, FIELD_SEP);
    JoinOfSplit(record, FIELD_SEP);
    CleanMeansAbsent(record, '>');
    forall f | f in fields ensures CleanField(f) {
      CleanMeansAbsent(f, '>');
      var i :| 0 <= i < |fields| && fields[i] == f;
      if '>' in f {
        PieceOfJoin(fields, FIELD_SEP, i, '>');
      }
    }
  }

  /** A list of records reads back as it was exactly when none of its fields contains a separator. */
  lemma RoundTripIff(l: seq<DNat>)
    ensures Unmarshalled(Marshalled(l)) == l <==> forall d | d in l :: CleanRecord(d)
  {
    if forall d | d in l :: CleanRecord(d) {
      ParsedTexts(l);
      if l == [] {
        assert IndexFrom("", RECORD_SEP, 0) == -1 && IndexFrom("", FIELD_SEP, 0) == -1;
        assert Split("", RECORD_SEP) == [""] && Split("", FIELD_SEP) == [""];
        assert Parsed([""][..0]) == [];
      } else {
        SplitOfJoin(Texts(l), RECORD_SEP);
      }
    }
    SplitIsClean(Marshalled(l), RECORD_SEP);
    ParsedIsClean(Split(Marshalled(l), RECORD_SEP));
  }

  lemma {:induction false} TextsOfParsed(records: seq<string>)
    ensures Texts(Parsed(records)) == Kept(records)
  {
    if records != [] {
      var front, last := records[..|records| - 1], records[|records| - 1];
      TextsOfParsed(front);
      if WellFormed(last) {
        var fields := Split(last, FIELD_SEP);
        JoinOfSplit(last, FIELD_SEP);
        RecordInverse(fields, DNat("", "", "", "", "", "", "", ""));
        assert Parsed(records)[..|Parsed(front)|] == Parsed(front);
      } else {
        assert Parsed(records) == Parsed(front);
      }
    }
  }

  /** Reading any text and writing it again keeps exactly its records of eight fields, in order. */
  lemma RewriteKeepsWellFormed(s: string)
    ensures Marshalled(Unmarshalled(s)) == Join(Kept(Split(s, RECORD_SEP)), RECORD_SEP)
  {
    TextsOfParsed(Split(s, RECORD_SEP));
  }

  /** Once a text has been rewritten, rewriting it again changes nothing. */
  lemma RewriteTwice(s: string)
    ensures Unmarshalled(Marshalled(Unmarshalled(s))) == Unmarshalled(s)
  {
    SplitIsClean(s, RECORD_SEP);
    ParsedIsClean(Split(s, RECORD_SEP));
    RoundTripIff(Unmarshalled(s));
  }
}
