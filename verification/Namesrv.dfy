/** rocketmq/client/namesrv.go and the route query of route.go: asking the name servers in turn. */
module Namesrv {
  import opened Common

  predicate HasPrefix(s: string, prefix: string) {
    |prefix| <= |s| && s[..|prefix|] == prefix
  }

  function TrimPrefix(s: string, prefix: string): string {
    if HasPrefix(s, prefix) then s[|prefix|..] else s
  }

  /** The address as it is dialled. An address that begins with "https" but not with "https://" keeps its prefix. */
  function Dialled(addr: string): string {
    if HasPrefix(addr, "https") then TrimPrefix(addr, "https://") else TrimPrefix(addr, "http://")
  }

  /** Dialled strips a scheme and nothing else. */
  lemma SchemeIsStripped(host: string)
    ensures Dialled("https://" + host) == host && Dialled("http://" + host) == host
    ensures !HasPrefix(host, "https://") && !HasPrefix(host, "http://") ==> Dialled(host) == host
  {
    var s, t := "https://" + host, "http://" + host;
    assert s[..8] == "https://" && s[..5] == "https" && s[8..] == host;
    assert t[..7] == "http://" && t[4] != 's' && t[7..] == host;
    assert "https"[4] == 's' && t[..5][4] == t[4];
  }

  /** The positions that `k` consecutive requests from `index` read in a list of `n`. */
  function Asked(index: nat, n: nat, k: nat): (positions: seq<nat>)
    requires n > 0
    ensures |positions| == k
    decreases k
  {
    if k == 0 then [] else [index % n] + Asked((index + 1) % n, n, k - 1)
  }

  lemma NextPosition(index: nat, n: nat)
    requires n > 0
    ensures (index + 1) % n == if index % n + 1 == n then 0 else index % n + 1
  {
    var q, r := index / n, index % n;
    assert index == n * q + r;
    if r + 1 == n {
      assert index + 1 == n * (q + 1) + 0;
      Remainder(index + 1, n, q + 1, 0);
    } else {
      assert index + 1 == n * q + (r + 1);
      Remainder(index + 1, n, q, r + 1);
    }
  }

  lemma Multiple(n: nat, p: nat, q: nat)
    requires p < q
    ensures n * q >= n * p + n
  {
    assert n * q == n * p + n * (q - p);
    assert n * (q - p) == n + n * (q - p - 1);
  }

  lemma Remainder(a: nat, n: nat, q: nat, r: nat)
    requires n > 0 && a == n * q + r && r < n
    ensures a % n == r
  {
    var p := a / n;
    assert a == n * p + a % n;
    if q > p {
      Multiple(n, p, q);
    } else if q < p {
      Multiple(n, q, p);
    }
  }

  /** One position after another, starting again at the end. */
  lemma AskedStep(index: nat, n: nat, k: nat)
    requires n > 0 && k > 0
    ensures Asked(index, n, k) == [index % n] + Asked(if index % n + 1 == n then 0 else index % n + 1, n, k - 1)
  {
    NextPosition(index, n);
  }

  lemma AskedStepInside(index: nat, n: nat, k: nat)
    requires index < n && k > 0
    ensures Asked(index, n, k) == [index] + Asked(if index + 1 == n then 0 else index + 1, n, k - 1)
  {
    hide Asked;
    AskedStep(index, n, k);
    assert index % n == index;
  }

  lemma {:induction false} AskedFrom(index: nat, n: nat, k: nat, i: nat)
    requires index < n && i < k <= n
    ensures Asked(index, n, k)[i] == if index + i < n then index + i else index + i - n
    decreases k
  {
    hide Asked;
    AskedStepInside(index, n, k);
    if i > 0 {
      AskedFrom(if index + 1 == n then 0 else index + 1, n, k - 1, i - 1);
    }
  }

  lemma AskedAt(index: nat, n: nat, i: nat)
    requires i < n
    ensures Asked(index, n, n)[i] == if index % n + i < n then index % n + i else index % n + i - n
  {
    hide Asked;
    AskedStep(index, n, n);
    if i > 0 {
      AskedFrom(if index % n + 1 == n then 0 else index % n + 1, n, n - 1, i - 1);
    }
  }

  /** From any index, also one past a list that has shrunk, n requests read each of the n positions once. */
  lemma RotationVisitsEachOnce(index: nat, n: nat)
    requires n > 0
    ensures Distinct(Asked(index, n, n))
    ensures forall p: nat :: p < n <==> p in Asked(index, n, n)
  {
    forall i: nat | i < n ensures Asked(index, n, n)[i] == if index % n + i < n then index % n + i else index % n + i - n {
      AskedAt(index, n, i);
    }
    forall p: nat | p < n ensures p in Asked(index, n, n) {
      var i := if p >= index % n then p - index % n else p + n - index % n;
      assert Asked(index, n, n)[i] == p;
    }
  }

  lemma {:induction false} AskedSnoc(index: nat, n: nat, k: nat)
    requires n > 0
    ensures Asked(index, n, k + 1) == Asked(index, n, k) + [After(index, n, k) % n]
    ensures After(index, n, k + 1) == (After(index, n, k) + 1) % n
    decreases k
  {
    if k > 0 {
      AskedSnoc((index + 1) % n, n, k - 1);
    }
  }

  /** The index after `k` requests. */
  function After(index: nat, n: nat, k: nat): nat
    requires n > 0
    decreases k
  {
    if k == 0 then index else After((index + 1) % n, n, k - 1)
  }

  const RES_SUCCESS := 0
  const RES_TOPIC_NOT_EXIST := 17

  /** An answer; `body` None stands for a nil body. */
  datatype Response = Response(code: int, body: Option<string>)

  datatype RouteQuery<+R> = NoServers | Unreachable | TopicNotExist | BadResponse | Route(route: R)

  /** What the first answer means; `decode` is routeData.decode. */
  function Interpret<R>(r: Response, decode: string -> Option<R>): RouteQuery<R> {
    if r.code == RES_SUCCESS then
      if r.body.None? then BadResponse
      else match decode(r.body.value) case Some(route) => Route(route) case None => BadResponse
    else if r.code == RES_TOPIC_NOT_EXIST then TopicNotExist
    else BadResponse
  }

  /** What an answer means, by its code: 0 is a route, if there is a body and it decodes; 17 says that the topic does not
      exist; everything else is an error. */
  lemma AnswersMean<R>(r: Response, decode: string -> Option<R>)
    ensures forall route :: Interpret(r, decode) == Route(route) <==>
                            r.code == 0 && r.body.Some? && decode(r.body.value) == Some(route)
    ensures Interpret(r, decode) == TopicNotExist <==> r.code == 17
    ensures Interpret(r, decode) == BadResponse <==>
            r.code != 17 && (r.code != 0 || r.body.None? || decode(r.body.value).None?)
  {
  }

  ghost predicate SameServers(srvs: seq<string>, others: seq<string>) {
    forall s :: s in srvs <==> s in others
  }

  /** Lists between which no difference is found name the same servers. */
  ghost predicate TellsServersApart(diff: (seq<string>, seq<string>) -> bool) {
    forall srvs, others | !diff(srvs, others) :: SameServers(srvs, others)
  }

  class NameServers {
    var srvs: seq<string>
    var index: int

    ghost predicate Valid()
      reads this
    {
      index >= 0
    }

    constructor (srvs: seq<string>)
      ensures Valid() && this.srvs == srvs && index == 0
    {
      this.srvs, index := srvs, 0;
    }

    /** getNameServerAddress; an empty list makes it panic. */
    method GetNameServerAddress() returns (addr: Outcome<string>)
      requires Valid()
      modifies this`index
      ensures Valid()
      ensures srvs == [] ==> addr == Panicked && index == old(index)
      ensures srvs != [] ==> addr == Success(Dialled(srvs[old(index) % |srvs|])) && index == (old(index) + 1) % |srvs|
    {
      if srvs == [] {
        return Panicked;
      }
      var chosen := srvs[index % |srvs|];
      var next := index + 1;
      if next < 0 {
        next := -next;
      }
      index := next % |srvs|;
      return Success(Dialled(chosen));
    }

    /** UpdateNameServerAddress: `resolved` is what the resolver finds and `diff` is primitive.Diff, asked about the
        current list and that one. The index stays where it is, even past the end of a shorter list. */
    method UpdateNameServerAddress(resolved: seq<string>, diff: (seq<string>, seq<string>) -> bool)
      requires Valid()
      modifies this`srvs
      ensures Valid()
      ensures srvs == if resolved == [] || !diff(old(srvs), resolved) then old(srvs) else resolved
      ensures old(srvs) != [] ==> srvs != []
      ensures resolved != [] && TellsServersApart(diff) ==> SameServers(srvs, resolved)
    {
      if resolved == [] {
        return;
      }
      var updated := diff(srvs, resolved);
      if !updated {
        return;
      }
      srvs := resolved;
    }

    /** queryTopicRouteInfoFromServer; `answers` says how each attempt would end, None standing for an error. The
        first answer decides, whatever its code; only errors move on, and each server is asked before giving up. */
    method QueryTopicRoute<R>(answers: seq<Option<Response>>, decode: string -> Option<R>)
        returns (result: RouteQuery<R>, asked: seq<string>)
      requires Valid() && |answers| == |srvs|
      modifies this`index
      ensures Valid()
      ensures |asked| <= |srvs| && (srvs == [] ==> result == NoServers)
      ensures srvs != [] ==> asked == Names(srvs, Asked(old(index), |srvs|, |asked|)) && index == After(old(index), |srvs|, |asked|)
      ensures srvs != [] && (forall i | 0 <= i < |answers| :: answers[i].None?) ==>
                multiset(asked) == multiset(AllDialled(srvs)) && result == Unreachable
      ensures srvs != [] && (exists i | 0 <= i < |answers| :: answers[i].Some?) ==>
                && |asked| > 0 && answers[|asked| - 1].Some? && (forall i | 0 <= i < |asked| - 1 :: answers[i].None?)
                && result == Interpret(answers[|asked| - 1].value, decode)
    {
      hide Asked, After, Names, AllDialled, Dialled;
      asked := [];
      NamesOfNone(srvs, old(index));
      if srvs == [] {
        return NoServers, asked;
      }
      var response: Option<Response> := None;
      var i := 0;
      while i < |srvs|
        invariant i <= |srvs| && i == |asked| && index >= 0 && response.None?
        invariant asked == Names(srvs, Asked(old(index), |srvs|, i)) && index == After(old(index), |srvs|, i)
        invariant forall j | 0 <= j < i :: answers[j].None?
      {
        var addr := GetNameServerAddress();
        asked := asked + [addr.value];
        response := answers[i];
        AskedSnoc(old(index), |srvs|, i);
        NamesAppend(srvs, Asked(old(index), |srvs|, i), After(old(index), |srvs|, i) % |srvs|);
        i := i + 1;
        if response.Some? {
          break;
        }
      }
      if response.None? {
        FullRound(srvs, old(index));
        return Unreachable, asked;
      }
      result := Interpret(response.value, decode);
    }
  }

  /** The addresses at some positions. */
  function Names(srvs: seq<string>, positions: seq<nat>): seq<string>
    requires srvs != []
  {
    seq(|positions|, i requires 0 <= i < |positions| => if positions[i] < |srvs| then Dialled(srvs[positions[i]]) else "")
  }

  function AllDialled(srvs: seq<string>): seq<string> {
    seq(|srvs|, i requires 0 <= i < |srvs| => Dialled(srvs[i]))
  }

  /** A full round asks every server of the list once, also when an address is listed several times. */
  lemma FullRound(srvs: seq<string>, index: nat)
    requires srvs != []
    ensures multiset(Names(srvs, Asked(index, |srvs|, |srvs|))) == multiset(AllDialled(srvs))
  {
    hide Dialled, Asked, Names, AllDialled;
    forall i | 0 <= i < |srvs|
      ensures Asked(index, |srvs|, |srvs|)[i] ==
              if index % |srvs| + i < |srvs| then index % |srvs| + i else index % |srvs| + i - |srvs|
    {
      AskedAt(index, |srvs|, i);
    }
    Rotation(srvs, Asked(index, |srvs|, |srvs|), index % |srvs|);
  }

  lemma Rotation(srvs: seq<string>, positions: seq<nat>, p: nat)
    requires srvs != [] && p < |srvs| == |positions|
    requires forall i | 0 <= i < |srvs| :: positions[i] == if p + i < |srvs| then p + i else p + i - |srvs|
    ensures multiset(Names(srvs, positions)) == multiset(AllDialled(srvs))
  {
    hide Dialled;
    var all := AllDialled(srvs);
    assert Names(srvs, positions) == all[p..] + all[..p];
    assert all == all[..p] + all[p..];
  }

  lemma NamesOfNone(srvs: seq<string>, index: nat)
    ensures srvs != [] ==> Names(srvs, Asked(index, |srvs|, 0)) == [] && After(index, |srvs|, 0) == index
  {
  }

  lemma NamesAppend(srvs: seq<string>, positions: seq<nat>, p: nat)
    requires p < |srvs|
    ensures Names(srvs, positions + [p]) == Names(srvs, positions) + [Dialled(srvs[p])]
  {
  }
}
