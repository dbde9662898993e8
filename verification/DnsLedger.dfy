/** The books of the resolver: which requests are in flight and which wait. */
module DnsLedger {
  import opened Prelude

  /** A request; `ns` is the nameserver it is assigned to. */
  datatype Req = Req(handle: nat, transId: nat, ns: Option<nat>)

  datatype Server = Server(id: nat, up: bool)

  datatype Field = Handle | Trans

  const NO_ID: nat := 0xffff
  const MOST_INFLIGHT: nat := 65000

  function Get(r: Req, f: Field): nat {
    if f.Handle? then r.handle else r.transId
  }

  /** The handles, or the transaction ids, on a list. */
  ghost function Of(s: seq<Req>, f: Field): multiset<nat> {
    if s == [] then multiset{} else Of(s[..|s| - 1], f) + multiset{Get(s[|s| - 1], f)}
  }

  /** Those on all lists. */
  ghost function AllOf(heads: seq<seq<Req>>, f: Field): multiset<nat> {
    if heads == [] then multiset{} else AllOf(heads[..|heads| - 1], f) + Of(heads[|heads| - 1], f)
  }

  function Total(heads: seq<seq<Req>>): nat {
    if heads == [] then 0 else Total(heads[..|heads| - 1]) + |heads[|heads| - 1]|
  }

  lemma {:induction false} OfConcat(a: seq<Req>, b: seq<Req>, f: Field)
    ensures Of(a + b, f) == Of(a, f) + Of(b, f)
  {
    if b == [] {
      assert a + b == a;
    } else {
      var n := |b| - 1;
      OfConcat(a, b[..n], f);
      assert (a + b)[..|a + b| - 1] == a + b[..n];
    }
  }

  lemma OfOne(r: Req, f: Field)
    ensures Of([r], f) == multiset{Get(r, f)}
  {
    assert [r][..0] == [];
  }

  lemma {:induction false} OfMembers(s: seq<Req>, f: Field, k: nat)
    ensures k in Of(s, f) <==> exists i :: 0 <= i < |s| && Get(s[i], f) == k
    ensures |Of(s, f)| == |s|
  {
    if s != [] {
      var front := s[..|s| - 1];
      OfMembers(front, f, k);
      if i :| 0 <= i < |front| && Get(front[i], f) == k {
        assert Get(s[i], f) == k;
      }
      if i :| 0 <= i < |s| && Get(s[i], f) == k && i < |front| {
        assert Get(front[i], f) == k;
      }
    }
  }

  lemma {:induction false} AllSplit(heads: seq<seq<Req>>, b: nat, f: Field)
    requires b < |heads|
    ensures AllOf(heads, f) == AllOf(heads[..b], f) + Of(heads[b], f) + AllOf(heads[b + 1..], f)
    ensures Total(heads) == Total(heads[..b]) + |heads[b]| + Total(heads[b + 1..])
    decreases |heads|
  {
    hide Of, AllOf, Total;
    var n := |heads| - 1;
    AllSnoc(heads, n, f);
    assert heads[..n + 1] == heads;
    if b < n {
      AllSplit(heads[..n], b, f);
      assert heads[..n][..b] == heads[..b] && heads[..n][b] == heads[b] && heads[..n][b + 1..] == heads[b + 1..n];
      AllSnoc(heads[b + 1..], n - b - 1, f);
      assert heads[b + 1..][..n - b - 1] == heads[b + 1..n] && heads[b + 1..][..n - b] == heads[b + 1..];
    } else {
      NoRequests([], f);
    }
  }

  lemma AllUpdate(heads: seq<seq<Req>>, b: nat, s: seq<Req>, f: Field)
    requires b < |heads|
    ensures AllOf(heads[b := s], f) + Of(heads[b], f) == AllOf(heads, f) + Of(s, f)
    ensures Total(heads[b := s]) + |heads[b]| == Total(heads) + |s|
  {
    hide Of, AllOf, Total;
    AllSplit(heads, b, f);
    AllSplit(heads[b := s], b, f);
    assert heads[b := s][..b] == heads[..b] && heads[b := s][b + 1..] == heads[b + 1..];
  }

  lemma {:induction false} AllMembers(heads: seq<seq<Req>>, f: Field, k: nat)
    ensures k in AllOf(heads, f) <==> exists b :: 0 <= b < |heads| && k in Of(heads[b], f)
    ensures |AllOf(heads, f)| == Total(heads)
  {
    hide Of;
    if heads != [] {
      var front, last := heads[..|heads| - 1], heads[|heads| - 1];
      AllMembers(front, f, k);
      OfMembers(last, f, k);
      assert k in AllOf(heads, f) <==> k in AllOf(front, f) || k in Of(last, f);
      assert forall b :: 0 <= b < |front| ==> front[b] == heads[b];
      if k in AllOf(front, f) {
        var b :| 0 <= b < |front| && k in Of(front[b], f);
        assert k in Of(heads[b], f);
      }
      if b :| 0 <= b < |heads| && k in Of(heads[b], f) && b < |front| {
        assert k in Of(front[b], f);
      }
    }
  }

  /** evdns_request_insert: at the end of a circular list */
  lemma Appended(heads: seq<seq<Req>>, b: nat, r: Req, f: Field)
    requires b < |heads|
    ensures AllOf(heads[b := heads[b] + [r]], f) == AllOf(heads, f) + multiset{Get(r, f)}
    ensures Total(heads[b := heads[b] + [r]]) == Total(heads) + 1
  {
    hide Of, AllOf, Total;
    AllUpdate(heads, b, heads[b] + [r], f);
    OfConcat(heads[b], [r], f);
    OfOne(r, f);
    Cancel(AllOf(heads[b := heads[b] + [r]], f), AllOf(heads, f) + multiset{Get(r, f)}, Of(heads[b], f));
  }

  function Cut(s: seq<Req>, i: nat): (r: seq<Req>)
    requires i < |s|
    ensures |r| == |s| - 1
  {
    s[..i] + s[i + 1..]
  }

  lemma OfCut(s: seq<Req>, i: nat, f: Field)
    requires i < |s|
    ensures Of(Cut(s, i), f) + multiset{Get(s[i], f)} == Of(s, f)
  {
    hide Of;
    assert s == s[..i] + ([s[i]] + s[i + 1..]);
    OfConcat(s[..i], [s[i]] + s[i + 1..], f);
    OfConcat([s[i]], s[i + 1..], f);
    OfConcat(s[..i], s[i + 1..], f);
    OfOne(s[i], f);
  }

  /** evdns_request_remove */
  lemma Removed(heads: seq<seq<Req>>, b: nat, i: nat, f: Field)
    requires b < |heads| && i < |heads[b]|
    ensures AllOf(heads[b := Cut(heads[b], i)], f) + multiset{Get(heads[b][i], f)} == AllOf(heads, f)
    ensures Total(heads[b := Cut(heads[b], i)]) == Total(heads) - 1
  {
    hide Of, AllOf, Total;
    AllUpdate(heads, b, Cut(heads[b], i), f);
    OfCut(heads[b], i, f);
    Cancel(AllOf(heads[b := Cut(heads[b], i)], f) + multiset{Get(heads[b][i], f)}, AllOf(heads, f), Of(Cut(heads[b], i), f));
  }

  // ----- nameservers -----

  function CountUp(s: seq<Server>): nat {
    if s == [] then 0 else CountUp(s[1..]) + if s[0].up then 1 else 0
  }

  function Turned(s: seq<Server>, k: nat): seq<Server>
    requires k <= |s|
  {
    s[k..] + s[..k]
  }

  lemma {:induction false} CountUpConcat(a: seq<Server>, b: seq<Server>)
    ensures CountUp(a + b) == CountUp(a) + CountUp(b)
  {
    if a == [] {
      assert a + b == b;
    } else {
      assert (a + b)[1..] == a[1..] + b;
      CountUpConcat(a[1..], b);
    }
  }

  lemma TurnedCount(s: seq<Server>, k: nat)
    requires k <= |s|
    ensures CountUp(Turned(s, k)) == CountUp(s)
  {
    assert s == s[..k] + s[k..];
    CountUpConcat(s[..k], s[k..]);
    CountUpConcat(s[k..], s[..k]);
  }

  /** The servers that are up. */
  ghost function UpIds(s: seq<Server>): set<nat> {
    set i | 0 <= i < |s| && s[i].up :: s[i].id
  }

  /** All of them. */
  ghost function Ids(s: seq<Server>): set<nat> {
    set i | 0 <= i < |s| :: s[i].id
  }

  /** Those that nameserver_pick may give out: servers that are up, if there are any. */
  ghost function Eligible(s: seq<Server>): set<nat> {
    if CountUp(s) > 0 then UpIds(s) else Ids(s)
  }

  /** Turning the circle changes none of these. */
  lemma TurnedIds(s: seq<Server>, k: nat)
    requires k <= |s|
    ensures Ids(Turned(s, k)) == Ids(s) && UpIds(Turned(s, k)) == UpIds(s) && CountUp(Turned(s, k)) == CountUp(s)
  {
    TurnedCount(s, k);
    hide CountUp, Ids, UpIds;
    assert s == s[..k] + s[k..];
    IdsConcat(s[..k], s[k..]);
    IdsConcat(s[k..], s[..k]);
  }

  lemma IdsConcat(a: seq<Server>, b: seq<Server>)
    ensures Ids(a + b) == Ids(a) + Ids(b) && UpIds(a + b) == UpIds(a) + UpIds(b)
  {
    var s := a + b;
    forall i | 0 <= i < |a|
      ensures a[i].id in Ids(s) && (a[i].up ==> a[i].id in UpIds(s))
    {
      assert s[i] == a[i];
    }
    forall i | 0 <= i < |b|
      ensures b[i].id in Ids(s) && (b[i].up ==> b[i].id in UpIds(s))
    {
      assert s[|a| + i] == b[i];
    }
  }

  lemma StillThere(s: seq<Server>, at: nat)
    requires at < |s|
    ensures Ids(s[at := s[at].(up := false)]) == Ids(s)
  {
    var now := s[at := s[at].(up := false)];
    forall i | 0 <= i < |s|
      ensures s[i].id in Ids(now) && now[i].id in Ids(s)
    {
      assert now[i].id == s[i].id;
    }
  }

  lemma UpAreAll(s: seq<Server>)
    ensures UpIds(s) <= Ids(s) && Eligible(s) <= Ids(s)
  {
  }

  /** `id` is what nameserver_pick gives out: the first server that is up, which goes to the
      back with those before it; with none up, the second one, which becomes the first. */
  ghost predicate Chosen(was: seq<Server>, now: seq<Server>, id: nat) {
    if CountUp(was) > 0 then Picked(was, now, id) else was != [] && now == Turned(was, 1) && id == now[0].id
  }

  lemma ChosenIsEligible(was: seq<Server>, now: seq<Server>, id: nat)
    requires Chosen(was, now, id)
    ensures id in Eligible(was) && id in Ids(was) && Ids(now) == Ids(was) && UpIds(now) == UpIds(was) && Eligible(now) == Eligible(was)
  {
    hide CountUp;
    if CountUp(was) > 0 {
      var k :| 0 <= k < |was| && was[k].up && was[k].id == id && now == Turned(was, k + 1);
      TurnedIds(was, k + 1);
      assert was[k].id in UpIds(was);
    } else {
      TurnedIds(was, 1);
      assert now[0].id in Ids(now);
    }
  }

  /** The lists have only grown, by requests that go to servers in `to`. */
  ghost predicate GrownBy(was: seq<seq<Req>>, now: seq<seq<Req>>, to: set<nat>) {
    |now| == |was| && forall b :: 0 <= b < |was| ==>
      && was[b] <= now[b]
      && forall i :: |was[b]| <= i < |now[b]| ==> now[b][i].ns.Some? && now[b][i].ns.value in to
  }

  lemma GrownMore(was: seq<seq<Req>>, mid: seq<seq<Req>>, now: seq<seq<Req>>, to: set<nat>, b: nat, r: Req)
    requires GrownBy(was, mid, to) && b < |mid| && now == mid[b := mid[b] + [r]] && r.ns.Some? && r.ns.value in to
    ensures GrownBy(was, now, to)
  {
  }

  lemma HaveServers(s: seq<Server>)
    ensures CountUp(s) > 0 ==> s != []
  {
  }

  /** What becomes of one request when server `id` fails. */
  predicate Moved(was: Req, now: Req, id: nat, unsent: Req -> bool, up: set<nat>) {
    if was.ns == Some(id) && unsent(was) then now.ns.Some? && now.ns.value in up && now == was.(ns := now.ns)
    else now == was
  }

  /** The lists before `b`, and the first `i` requests of list `b`, have been seen to. */
  ghost predicate MovedUpTo(was: seq<seq<Req>>, now: seq<seq<Req>>, id: nat, unsent: Req -> bool, up: set<nat>, b: nat, i: nat) {
    && |now| == |was| && (forall x :: 0 <= x < |was| ==> |now[x]| == |was[x]|)
    && forall x, y :: 0 <= x < |was| && 0 <= y < |was[x]| ==>
      if x < b || (x == b && y < i) then Moved(was[x][y], now[x][y], id, unsent, up) else now[x][y] == was[x][y]
  }

  lemma NoneMoved(was: seq<seq<Req>>, id: nat, unsent: Req -> bool, up: set<nat>)
    ensures MovedUpTo(was, was, id, unsent, up, 0, 0)
  {
  }

  lemma OneMoved(was: seq<seq<Req>>, before: seq<seq<Req>>, now: seq<seq<Req>>, id: nat, unsent: Req -> bool, up: set<nat>,
                 b: nat, i: nat)
    requires MovedUpTo(was, before, id, unsent, up, b, i) && b < |before| == |now| && i < |before[b]| == |now[b]|
    requires now == before[b := before[b][i := now[b][i]]] && Moved(before[b][i], now[b][i], id, unsent, up)
    ensures MovedUpTo(was, now, id, unsent, up, b, i + 1)
  {
  }

  lemma NextList(was: seq<seq<Req>>, now: seq<seq<Req>>, id: nat, unsent: Req -> bool, up: set<nat>, b: nat)
    requires b < |now| && MovedUpTo(was, now, id, unsent, up, b, |now[b]|)
    ensures MovedUpTo(was, now, id, unsent, up, b + 1, 0)
  {
  }

  lemma {:induction false} NoneUp(s: seq<Server>)
    requires forall i :: 0 <= i < |s| ==> !s[i].up
    ensures CountUp(s) == 0
  {
    if s != [] {
      NoneUp(s[1..]);
    }
  }

  // ----- the invariant -----

  /** In the list that its transaction id names, with a real id and one of the nameservers. */
  ghost predicate InPlace(heads: seq<seq<Req>>, ids: set<nat>) {
    forall b, i :: 0 <= b < |heads| && 0 <= i < |heads[b]| ==>
      var r := heads[b][i]; r.transId % |heads| == b && r.transId < NO_ID && r.ns.Some? && r.ns.value in ids
  }

  ghost predicate AtRest(waiting: seq<Req>) {
    forall i :: 0 <= i < |waiting| ==> waiting[i].ns == None
  }

  /** No two requests in flight have the same transaction id. */
  ghost predicate DistinctIds(heads: seq<seq<Req>>) {
    forall k :: AllOf(heads, Trans)[k] <= 1
  }

  /** The random numbers that are drawn, for one transaction_id_pick: in the end
      every one comes up. */
  ghost predicate Fair(draws: seq<nat>) {
    forall k :: 0 <= k < NO_ID ==> k in draws
  }

  class Resolver {
    var heads: seq<seq<Req>>
    var waiting: seq<Req>
    var inflight: int
    var waitingCount: int
    var maxInflight: int
    var servers: seq<Server>  // a circular list, from server_head on
    var good: int

    ghost predicate Valid()
      reads this
    {
      && heads != [] && |heads| == (maxInflight + 4) / 5 && 1 <= maxInflight <= MOST_INFLIGHT
      && inflight == Total(heads) && waitingCount == |waiting|
      && InPlace(heads, Ids(servers)) && AtRest(waiting) && DistinctIds(heads)
      && good == CountUp(servers)
    }

    /** All requests that have been submitted and not finished. */
    ghost function Outstanding(): multiset<nat>
      reads this
    {
      AllOf(heads, Handle) + Of(waiting, Handle)
    }

    /** evdns_base_new, with room for 64 requests in flight */
    constructor ()
      ensures Valid() && Outstanding() == multiset{} && servers == []
    {
      heads := seq(13, _ => []);
      waiting, servers := [], [];
      inflight, waitingCount, maxInflight, good := 0, 0, 64, 0;
      new;
      NoRequests(heads, Handle);
      NoRequests(heads, Trans);
    }

    /** nameserver_pick: the first server that is up, from server_head on; with all
        of them down, the next one. */
    method NameserverPick() returns (ns: Option<nat>)
      requires good == CountUp(servers)
      modifies `servers
      ensures good == CountUp(servers) && (ns.None? <==> old(servers) == [])
      ensures |servers| == |old(servers)| && (ns.None? ==> servers == old(servers))
      ensures ns.Some? ==> Chosen(old(servers), servers, ns.value)
      ensures Ids(servers) == old(Ids(servers)) && UpIds(servers) == old(UpIds(servers))
      ensures Eligible(servers) == old(Eligible(servers))
      ensures ns.Some? ==> ns.value in Eligible(servers) && ns.value in Ids(servers)
    {
      hide CountUp;
      if servers == [] { return None; }
      ghost var was := servers;
      if good == 0 {
        TurnedCount(was, 1);
        assert servers[1..] + [servers[0]] == Turned(was, 1);
        servers := servers[1..] + [servers[0]];
        ChosenIsEligible(was, servers, servers[0].id);
        return Some(servers[0].id);
      }
      ghost var k := 0;
      assert was == Turned(was, 0);
      while true
        invariant 0 <= k < |was| && servers == Turned(was, k)
        invariant forall i :: 0 <= i < k ==> !was[i].up
        decreases |was| - k
      {
        assert servers[0] == was[k];
        assert k + 1 < |was| ==> servers[1..] + [servers[0]] == Turned(was, k + 1);
        assert k + 1 == |was| ==> servers[1..] + [servers[0]] == Turned(was, 0) == was;
        if servers[0].up {
          ns := Some(servers[0].id);
          servers := servers[1..] + [servers[0]];
          assert servers == Turned(was, k + 1);
          TurnedCount(was, k + 1);
          assert Picked(was, servers, was[k].id);
          ChosenIsEligible(was, servers, was[k].id);
          return;
        }
        // A whole turn without a server that is up contradicts the count of good ones.
        if k + 1 == |was| {
          NoneUp(was);
        }
        servers := servers[1..] + [servers[0]];
        k := k + 1;
      }
    }

    /** request_find_from_trans_id: looks in one list only, and misses nothing. */
    method FindFromTransId(id: nat) returns (found: Option<Req>)
      requires heads != [] && InPlace(heads, Ids(servers))
      ensures found.Some? <==> id in AllOf(heads, Trans)
      ensures found.Some? ==> found.value.transId == id && exists b :: 0 <= b < |heads| && found.value in heads[b]
    {
      hide Of, AllOf, InPlace;
      var list := heads[id % |heads|];
      for i := 0 to |list|
        invariant forall j :: 0 <= j < i ==> list[j].transId != id
      {
        if list[i].transId == id {
          HasId(heads, id, id % |heads|, i);
          return Some(list[i]);
        }
      }
      LacksId(heads, id, Ids(servers));
      return None;
    }

    /** transaction_id_pick */
    method TransactionIdPick(draws: seq<nat>) returns (id: nat)
      requires heads != [] && InPlace(heads, Ids(servers)) && Total(heads) < NO_ID && Fair(draws)
      ensures id < NO_ID && id !in AllOf(heads, Trans)
    {
      hide Of, AllOf, InPlace, Total;
      ghost var free := SomeFree(heads);
      assert free in draws;
      for i := 0 to |draws|
        invariant free !in draws[..i]
      {
        id := draws[i];
        if id < NO_ID {
          var found := FindFromTransId(id);
          if found == None { return; }
        }
      }
      assert false;
    }

    /** The first half of request_submit: into the list of its id, and counted. */
    method ToInflight(r: Req)
      requires heads != [] && InPlace(heads, Ids(servers)) && DistinctIds(heads) && inflight == Total(heads)
      requires r.ns.Some? && r.ns.value in Ids(servers) && r.transId < NO_ID && r.transId !in AllOf(heads, Trans)
      modifies `heads, `inflight
      ensures var b := r.transId % old(|heads|); heads == old(heads)[b := old(heads)[b] + [r]]
      ensures |heads| == old(|heads|) && InPlace(heads, Ids(servers)) && DistinctIds(heads)
      ensures inflight == Total(heads) == old(inflight) + 1
      ensures AllOf(heads, Handle) == old(AllOf(heads, Handle)) + multiset{r.handle}
    {
      hide Of, AllOf, Total, Ids;
      var b := r.transId % |heads|;
      Appended(heads, b, r, Handle);
      Appended(heads, b, r, Trans);
      heads := heads[b := heads[b] + [r]];
      inflight := inflight + 1;
    }

    /** evdns_requests_pump_waiting_queue: requests move from the front of the queue
        while there is room and there are nameservers, and none is lost. */
    method Pump(draws: nat -> seq<nat>)
      requires Valid() && forall i :: Fair(draws(i))
      modifies this
      ensures Valid() && Outstanding() == old(Outstanding()) && maxInflight == old(maxInflight)
      ensures inflight >= old(inflight)
      ensures inflight >= maxInflight || waiting == [] || servers == []
      ensures (servers == []) == (old(servers) == []) && GrownBy(old(heads), heads, old(Eligible(servers)))
      ensures old(waitingCount) - waitingCount >= 0 && waiting == old(waiting)[old(waitingCount) - waitingCount..]
    {
      hide Of, AllOf, Total, InPlace, DistinctIds, CountUp, Eligible, Ids, Chosen, UpIds;
      var moved := 0;
      assert waiting == old(waiting)[0..];
      while inflight < maxInflight && waitingCount != 0
        invariant Valid() && Outstanding() == old(Outstanding()) && maxInflight == old(maxInflight)
        invariant inflight == old(inflight) + moved && (servers == []) == (old(servers) == [])
        invariant 0 <= moved <= |old(waiting)| && waiting == old(waiting)[moved..]
        invariant Eligible(servers) == old(Eligible(servers)) && GrownBy(old(heads), heads, Eligible(servers))
        decreases waitingCount
      {
        var ns := NameserverPick();
        if ns == None { return; }
        var req := waiting[0];
        OfCut(waiting, 0, Handle);
        assert Cut(waiting, 0) == waiting[1..];
        waiting := waiting[1..];
        waitingCount := waitingCount - 1;
        var id := TransactionIdPick(draws(moved));
        ghost var was := heads;
        ToInflight(req.(ns := ns, transId := id));
        GrownMore(old(heads), was, heads, Eligible(servers), id % |was|, req.(ns := ns, transId := id));
        moved := moved + 1;
      }
    }

    /** request_new and request_submit: in flight if there is room and a nameserver,
        and waiting otherwise. */
    method Submit(handle: nat, draws: seq<nat>)
      requires Valid() && Fair(draws)
      modifies this
      ensures Valid() && Outstanding() == old(Outstanding()) + multiset{handle} && maxInflight == old(maxInflight)
      ensures if old(inflight) < maxInflight && old(servers) != []
        then
          && inflight == old(inflight) + 1 && waiting == old(waiting)
          && exists b, r :: 0 <= b < |heads| && heads == old(heads)[b := old(heads)[b] + [r]] && r.handle == handle &&
               r.ns.Some? && Chosen(old(servers), servers, r.ns.value)
        else heads == old(heads) && waitingCount == old(waitingCount) + 1 && waiting[..|waiting| - 1] == old(waiting)
      ensures (servers == []) == (old(servers) == [])
    {
      hide Of, AllOf, Total, InPlace, DistinctIds, CountUp, Eligible, Ids, Chosen, UpIds;
      var issuingNow := inflight < maxInflight;
      var id, ns := NO_ID, None;
      if issuingNow {
        id := TransactionIdPick(draws);
        ns := NameserverPick();
      }
      var req := Req(handle, id, ns);
      if req.ns.Some? {
        ToInflight(req);
      } else {
        OfConcat(waiting, [req], Handle);
        OfOne(req, Handle);
        waiting := waiting + [req];
        waitingCount := waitingCount + 1;
      }
    }

    /** evdns_cancel_request, and the end of a request that was answered or given up:
        the nameserver of the request tells the list it is in. */
    method Finish(req: Req, draws: nat -> seq<nat>)
      requires Valid() && (forall i :: Fair(draws(i)))
      requires req in waiting || exists b :: 0 <= b < |heads| && req in heads[b]
      modifies this
      ensures Valid() && Outstanding() + multiset{req.handle} == old(Outstanding()) && maxInflight == old(maxInflight)
      ensures inflight >= maxInflight || waiting == [] || servers == []
      ensures (servers == []) == (old(servers) == [])
    {
      hide Of, AllOf, Total, DistinctIds, CountUp;
      if req.ns.Some? {
        var b := req.transId % |heads|;
        var i := IndexOf(heads[b], req);
        Removed(heads, b, i, Handle);
        Removed(heads, b, i, Trans);
        FewerIds(heads, heads[b := Cut(heads[b], i)], heads[b][i].transId);
        heads := heads[b := Cut(heads[b], i)];
        inflight := inflight - 1;
      } else {
        var i := IndexOf(waiting, req);
        OfCut(waiting, i, Handle);
        waiting := Cut(waiting, i);
        waitingCount := waitingCount - 1;
      }
      Pump(draws);
    }

    /** evdns_base_set_max_requests_inflight: every request in flight goes to the list
        that its id names now. */
    method SetMaxInflight(max: int)
      requires Valid() && max <= MOST_INFLIGHT
      modifies `heads, `maxInflight
      ensures Valid() && maxInflight == (if max < 1 then 1 else max)
      ensures AllOf(heads, Handle) == old(AllOf(heads, Handle)) && AllOf(heads, Trans) == old(AllOf(heads, Trans))
    {
      hide Of, AllOf, Total, CountUp;
      var maxinflight := if max < 1 then 1 else max;
      var n := (maxinflight + 4) / 5;
      heads := Redistribute(heads, n, Ids(servers));
      maxInflight := maxinflight;
    }

    /** evdns_base_clear_nameservers_and_suspend: all requests in flight are put in
        front of those that wait. */
    method Suspend()
      requires Valid()
      modifies this
      ensures Valid() && Outstanding() == old(Outstanding()) && maxInflight == old(maxInflight) && servers == []
      ensures old(servers) == [] ==> waiting == old(waiting) && heads == old(heads)
      ensures old(servers) != [] ==>
        inflight == 0 && |waiting| == old(inflight) + old(waitingCount) && waiting[old(inflight)..] == old(waiting)
      ensures old(servers) != [] ==> forall b, i :: 0 <= b < old(|heads|) && 0 <= i < old(|heads[b]|) ==>
        PutBack(old(heads), b, i, waiting)
    {
      hide Of, AllOf, Total, InPlace, Behind, Laid, PutBack;
      if servers == [] { return; }
      servers, good := [], 0;
      ghost var all, total, was := Outstanding(), Total(heads), waiting;
      NothingBefore(was);
      LaidNone(heads, was);
      for i := 0 to |heads|
        invariant |heads| == |old(heads)| && (forall b :: 0 <= b < i ==> heads[b] == [])
        invariant Outstanding() == all && Total(heads) + |waiting| == total + |was|
        invariant AtRest(waiting) && waitingCount == |waiting| && Behind(was, waiting)
        invariant (forall b :: i <= b < |heads| ==> heads[b] == old(heads)[b]) && waiting == Laid(old(heads)[..i]) + was
        modifies `heads, `waiting, `waitingCount
      {
        var list := heads[i];
        AllUpdate(heads, i, [], Handle);
        NoneOf(Handle);
        Regroup(AllOf(heads[i := []], Handle), Of(list, Handle), AllOf(heads, Handle), Of(waiting, Handle));
        LaidMore(old(heads), i, was);
        waiting := PutInFront(list, waiting, was);
        waitingCount := waitingCount + |list|;
        heads := heads[i := []];
      }
      NoRequests(heads, Handle);
      NoRequests(heads, Trans);
      NoneMisplaced(heads, Ids(servers));
      TailIs(was, waiting, total);
      inflight := 0;
      assert old(heads)[..|heads|] == old(heads);
      forall b, i | 0 <= b < |old(heads)| && 0 <= i < |old(heads)[b]|
        ensures PutBack(old(heads), b, i, waiting)
      {
        LaidAt(old(heads), b, i, was);
      }
    }

    /** The end of evdns_nameserver_add: behind server_head in the circle, and up. */
    method AddServer(id: nat)
      requires Valid()
      modifies `servers, `good
      ensures Valid()
      ensures servers == old(if servers == [] then [Server(id, true)] else [servers[0], Server(id, true)] + servers[1..])
    {
      hide Of, AllOf, Total, DistinctIds, CountUp, InPlace, Ids;
      ghost var was := servers;
      if servers == [] {
        servers := [Server(id, true)];
      } else {
        servers := [servers[0], Server(id, true)] + servers[1..];
      }
      good := good + 1;
      OneMore(was, servers, Server(id, true));
      MoreServers(heads, Ids(was), Ids(servers));
    }

    /** nameserver_failed for the server at `at`: if another one is up, exactly the
        requests of this server that were not sent yet are given to one that is. */
    method NameserverFailed(at: nat, unsent: Req -> bool)
      requires Valid() && at < |servers|
      modifies `servers, `good, `heads
      ensures Valid() && AllOf(heads, Handle) == old(AllOf(heads, Handle)) && |servers| == old(|servers|)
      ensures good == old(good) - if old(servers[at].up) then 1 else 0
      ensures !old(servers[at].up) ==> servers == old(servers)
      ensures !old(servers[at].up) || good == 0 ==> heads == old(heads)
      ensures old(servers[at].up) ==> UpIds(servers) == UpIds(old(servers)[at := old(servers[at]).(up := false)])
      ensures old(servers[at].up) && good > 0 ==>
        MovedUpTo(old(heads), heads, old(servers[at].id), unsent, UpIds(servers), |heads|, 0)
    {
      hide Of, AllOf, Total, DistinctIds, CountUp, UpIds, MovedUpTo, InPlace;
      if !servers[at].up { return; }
      var id := servers[at].id;
      OneLess(servers, at);
      StillThere(servers, at);
      good := good - 1;
      servers := servers[at := servers[at].(up := false)];
      if good == 0 { return; }
      ghost var n, up, was := |servers|, UpIds(servers), heads;
      NoneMoved(was, id, unsent, up);
      for b := 0 to |heads|
        invariant |heads| == |was| && Valid() && AllOf(heads, Handle) == old(AllOf(heads, Handle)) && |servers| == n
        invariant UpIds(servers) == up && MovedUpTo(was, heads, id, unsent, up, b, 0)
        modifies `servers, `heads
      {
        var i := 0;
        while i < |heads[b]|
          invariant |heads| == |was| && Valid() && AllOf(heads, Handle) == old(AllOf(heads, Handle)) && |servers| == n
          invariant UpIds(servers) == up && i <= |heads[b]| && MovedUpTo(was, heads, id, unsent, up, b, i)
          modifies `servers, `heads
          decreases |heads[b]| - i
        {
          ghost var before := heads;
          if heads[b][i].ns == Some(id) && unsent(heads[b][i]) {
            Reassign(b, i);
          } else {
            assert before[b][i := before[b][i]] == before[b] && before[b := before[b]] == before;
          }
          OneMoved(was, before, heads, id, unsent, up, b, i);
          i := i + 1;
        }
        NextList(was, heads, id, unsent, up, b);
      }
    }

    /** req->ns = nameserver_pick(base) */
    method Reassign(b: nat, i: nat)
      requires Valid() && b < |heads| && i < |heads[b]| && good > 0
      modifies `servers, `heads
      ensures Valid() && |servers| == old(|servers|) && UpIds(servers) == old(UpIds(servers))
      ensures |heads| == old(|heads|) && |heads[b]| == old(|heads[b]|)
      ensures heads == old(heads)[b := old(heads[b])[i := heads[b][i]]]
      ensures heads[b][i].ns.Some? && heads[b][i].ns.value in UpIds(servers)
      ensures heads[b][i] == old(heads[b][i]).(ns := heads[b][i].ns)
      ensures AllOf(heads, Handle) == old(AllOf(heads, Handle))
    {
      hide Of, AllOf, Total, DistinctIds, CountUp, UpIds, Picked;
      HaveServers(servers);
      var ns := NameserverPick();
      var r := heads[b][i].(ns := ns);
      SameFields(heads, b, i, r, Handle);
      SameFields(heads, b, i, r, Trans);
      SameIds(heads, heads[b := heads[b][i := r]]);
      heads := heads[b := heads[b][i := r]];
    }

    /** The request of a handle, wherever it is. */
    method Locate(handle: nat) returns (found: Option<Req>)
      ensures found.Some? ==>
        && found.value.handle == handle
        && (found.value in waiting || exists b :: 0 <= b < |heads| && found.value in heads[b])
      ensures found.None? ==> handle !in Outstanding()
    {
      hide Of, AllOf;
      found := FindHandle(waiting, handle);
      if found.Some? { return; }
      for b := 0 to |heads|
        invariant found.None? && forall x :: 0 <= x < b ==> handle !in Of(heads[x], Handle)
      {
        found := FindHandle(heads[b], handle);
        if found.Some? { return; }
      }
      AllMembers(heads, Handle, handle);
    }
  }

  method FindHandle(list: seq<Req>, handle: nat) returns (found: Option<Req>)
    ensures found.Some? ==> found.value in list && found.value.handle == handle
    ensures found.None? ==> handle !in Of(list, Handle)
  {
    hide Of;
    for i := 0 to |list|
      invariant forall j :: 0 <= j < i ==> list[j].handle != handle
    {
      if list[i].handle == handle { return Some(list[i]); }
    }
    OfMembers(list, Handle, handle);
    return None;
  }

  lemma SameFields(heads: seq<seq<Req>>, b: nat, i: nat, r: Req, f: Field)
    requires b < |heads| && i < |heads[b]| && Get(r, f) == Get(heads[b][i], f)
    ensures AllOf(heads[b := heads[b][i := r]], f) == AllOf(heads, f)
    ensures Total(heads[b := heads[b][i := r]]) == Total(heads)
  {
    hide Of, AllOf, Total;
    var s := heads[b][i := r];
    AllUpdate(heads, b, s, f);
    OfCut(heads[b], i, f);
    OfCut(s, i, f);
    assert Cut(s, i) == Cut(heads[b], i);
    Cancel(AllOf(heads[b := s], f), AllOf(heads, f), Of(s, f));
  }

  lemma SameIds(heads: seq<seq<Req>>, now: seq<seq<Req>>)
    requires DistinctIds(heads) && AllOf(now, Trans) == AllOf(heads, Trans)
    ensures DistinctIds(now)
  {
  }

  lemma CountOne(s: Server)
    ensures CountUp([s]) == if s.up then 1 else 0
  {
    assert [s][1..] == [];
  }

  lemma OneMore(s: seq<Server>, now: seq<Server>, one: Server)
    requires now == if s == [] then [one] else [s[0], one] + s[1..]
    ensures CountUp(now) == CountUp(s) + (if one.up then 1 else 0) && Ids(s) <= Ids(now)
  {
    CountOne(one);
    hide CountUp, Ids;
    var k := if s == [] then 0 else 1;
    assert s == s[..k] + s[k..] && now == s[..k] + ([one] + s[k..]);
    CountUpConcat(s[..k], s[k..]);
    CountUpConcat(s[..k], [one] + s[k..]);
    CountUpConcat([one], s[k..]);
    IdsConcat(s[..k], s[k..]);
    IdsConcat(s[..k], [one] + s[k..]);
    IdsConcat([one], s[k..]);
  }

  lemma MoreServers(heads: seq<seq<Req>>, ids: set<nat>, more: set<nat>)
    requires InPlace(heads, ids) && ids <= more
    ensures InPlace(heads, more)
  {
  }

  lemma {:induction false} OneLess(s: seq<Server>, at: nat)
    requires at < |s| && s[at].up
    ensures CountUp(s[at := s[at].(up := false)]) == CountUp(s) - 1
  {
    var t := s[at := s[at].(up := false)];
    if at > 0 {
      OneLess(s[1..], at - 1);
      assert t[1..] == s[1..][at - 1 := s[at].(up := false)];
    } else {
      assert t[1..] == s[1..];
    }
  }

  /** The loop over one list of evdns_base_clear_nameservers_and_suspend: each request
      is inserted at the end of a circular list whose head then moves back by one. */
  method PutInFront(list: seq<Req>, waiting: seq<Req>, ghost was: seq<Req>) returns (now: seq<Req>)
    requires AtRest(waiting) && Behind(was, waiting)
    ensures AtRest(now) && Behind(was, now) && |now| == |waiting| + |list|
    ensures Of(now, Handle) == Of(waiting, Handle) + Of(list, Handle) && now == Backwards(list) + waiting
  {
    hide Of;
    now := waiting;
    assert list[..0] == [] && now == Backwards([]) + waiting;
    hide Backwards;
    NoneOf(Handle);
    for i := 0 to |list|
      invariant AtRest(now) && Behind(was, now) && |now| == |waiting| + i
      invariant Of(now, Handle) == Of(waiting, Handle) + Of(list[..i], Handle) && now == Backwards(list[..i]) + waiting
    {
      var req := list[i].(ns := None, transId := 0);
      InFront(was, now, req);
      OfConcat([req], now, Handle);
      OfOne(req, Handle);
      OfConcat(list[..i], [list[i]], Handle);
      OfOne(list[i], Handle);
      assert list[..i + 1] == list[..i] + [list[i]];
      BackwardsMore(list, i, waiting);
      now := [req] + now;
    }
    assert list[..|list|] == list;
  }

  /** A list from its end to its start, as requests that wait. */
  ghost function Backwards(list: seq<Req>): seq<Req> {
    seq(|list|, i requires 0 <= i < |list| => list[|list| - 1 - i].(ns := None, transId := 0))
  }

  lemma BackwardsMore(list: seq<Req>, i: nat, rest: seq<Req>)
    requires i < |list|
    ensures [list[i].(ns := None, transId := 0)] + (Backwards(list[..i]) + rest) == Backwards(list[..i + 1]) + rest
  {
    assert Backwards(list[..i + 1]) == [list[i].(ns := None, transId := 0)] + Backwards(list[..i]);
  }

  /** All lists, the last one first. */
  ghost function Laid(heads: seq<seq<Req>>): seq<Req> {
    if heads == [] then [] else Backwards(heads[|heads| - 1]) + Laid(heads[..|heads| - 1])
  }

  /** Request `i` of list `b` waits again, without a server or an id: behind the requests of later
      lists and those that came after it in its own. */
  predicate PutBack(heads: seq<seq<Req>>, b: nat, i: nat, waiting: seq<Req>)
    requires b < |heads| && i < |heads[b]|
  {
    var at := Total(heads[b + 1..]) + |heads[b]| - 1 - i;
    at < |waiting| && waiting[at] == heads[b][i].(ns := None, transId := 0)
  }

  lemma LaidNone(heads: seq<seq<Req>>, was: seq<Req>)
    ensures was == Laid(heads[..0]) + was
  {
  }

  lemma LaidMore(heads: seq<seq<Req>>, i: nat, was: seq<Req>)
    requires i < |heads|
    ensures Backwards(heads[i]) + (Laid(heads[..i]) + was) == Laid(heads[..i + 1]) + was
  {
    assert heads[..i + 1][..i] == heads[..i];
    assert Laid(heads[..i + 1]) == Backwards(heads[i]) + Laid(heads[..i]);
  }

  lemma {:induction false} LaidAt(heads: seq<seq<Req>>, b: nat, i: nat, was: seq<Req>)
    requires b < |heads| && i < |heads[b]|
    ensures PutBack(heads, b, i, Laid(heads) + was)
    decreases |heads|
  {
    var n := |heads| - 1;
    if b == n {
      assert heads[b + 1..] == [];
      assert Backwards(heads[b])[|heads[b]| - 1 - i] == heads[b][i].(ns := None, transId := 0);
    } else {
      LaidAt(heads[..n], b, i, was);
      assert heads[b + 1..][..n - b - 1] == heads[..n][b + 1..];
      var at := Total(heads[..n][b + 1..]) + |heads[b]| - 1 - i;
      assert (Laid(heads) + was)[|heads[n]| + at] == (Laid(heads[..n]) + was)[at];
    }
  }

  method IndexOf(list: seq<Req>, req: Req) returns (i: nat)
    requires req in list
    ensures i < |list| && list[i] == req
  {
    i := 0;
    while list[i] != req
      invariant i < |list| && req in list[i..]
      decreases |list| - i
    {
      assert list[i..] == [list[i]] + list[i + 1..];
      i := i + 1;
    }
  }

  /** The loops of evdns_base_set_max_requests_inflight. */
  method Redistribute(oldHeads: seq<seq<Req>>, n: nat, ghost ids: set<nat>) returns (heads: seq<seq<Req>>)
    requires n > 0 && oldHeads != [] && InPlace(oldHeads, ids) && DistinctIds(oldHeads)
    ensures |heads| == n && InPlace(heads, ids) && DistinctIds(heads) && Total(heads) == Total(oldHeads)
    ensures AllOf(heads, Handle) == AllOf(oldHeads, Handle) && AllOf(heads, Trans) == AllOf(oldHeads, Trans)
  {
    hide Of, AllOf, Total, InPlace;
    heads := seq(n, _ => []);
    NoRequests(heads, Handle);
    NoRequests(heads, Trans);
    NoneMisplaced(heads, ids);
    NoRequests([], Handle);
    NoRequests([], Trans);
    assert oldHeads[..0] == [];
    for i := 0 to |oldHeads|
      invariant |heads| == n && InPlace(heads, ids) && Total(heads) == Total(oldHeads[..i])
      invariant AllOf(heads, Handle) == AllOf(oldHeads[..i], Handle) && AllOf(heads, Trans) == AllOf(oldHeads[..i], Trans)
    {
      AllSnoc(oldHeads, i, Handle);
      AllSnoc(oldHeads, i, Trans);
      heads := MoveList(oldHeads, i, heads, ids);
    }
    assert oldHeads[..|oldHeads|] == oldHeads;
  }

  /** The first server that was up has been turned to the back. */
  ghost predicate Picked(was: seq<Server>, now: seq<Server>, id: nat) {
    exists k :: 0 <= k < |was| && was[k].up && was[k].id == id && now == Turned(was, k + 1) &&
      forall i :: 0 <= i < k ==> !was[i].up
  }

  lemma {:induction false} NoRequests(heads: seq<seq<Req>>, f: Field)
    requires forall b :: 0 <= b < |heads| ==> heads[b] == []
    ensures AllOf(heads, f) == multiset{} && Total(heads) == 0
  {
    if heads != [] {
      NoRequests(heads[..|heads| - 1], f);
    }
  }

  lemma HasId(heads: seq<seq<Req>>, id: nat, b: nat, i: nat)
    requires b < |heads| && i < |heads[b]| && heads[b][i].transId == id
    ensures id in AllOf(heads, Trans) && heads[b][i] in heads[b]
  {
    hide Of, AllOf;
    AllMembers(heads, Trans, id);
    OfMembers(heads[b], Trans, id);
    assert Get(heads[b][i], Trans) == id;
  }

  lemma LacksId(heads: seq<seq<Req>>, id: nat, ids: set<nat>)
    requires heads != [] && InPlace(heads, ids)
    requires var list := heads[id % |heads|]; forall j :: 0 <= j < |list| ==> list[j].transId != id
    ensures id !in AllOf(heads, Trans)
  {
    hide Of, AllOf;
    AllMembers(heads, Trans, id);
    forall b | 0 <= b < |heads|
      ensures id !in Of(heads[b], Trans)
    {
      OfMembers(heads[b], Trans, id);
    }
  }

  /** There are fewer requests than transaction ids. */
  lemma SomeFree(heads: seq<seq<Req>>) returns (id: nat)
    requires Total(heads) < NO_ID
    ensures id < NO_ID && id !in AllOf(heads, Trans)
  {
    hide Of, AllOf, Total;
    AllMembers(heads, Trans, 0);
    id := FreeBelow(AllOf(heads, Trans), NO_ID);
  }

  lemma {:induction false} FreeBelow(used: multiset<nat>, n: nat) returns (id: nat)
    requires |used| < n
    ensures id < n && id !in used
    decreases n
  {
    if n - 1 !in used {
      id := n - 1;
    } else {
      id := FreeBelow(used - multiset{n - 1}, n - 1);
    }
  }

  method MoveList(oldHeads: seq<seq<Req>>, i: nat, to: seq<seq<Req>>, ghost ids: set<nat>) returns (heads: seq<seq<Req>>)
    requires i < |oldHeads| && InPlace(oldHeads, ids) && to != [] && InPlace(to, ids)
    ensures |heads| == |to| && InPlace(heads, ids) && Total(heads) == Total(to) + |oldHeads[i]|
    ensures AllOf(heads, Handle) == AllOf(to, Handle) + Of(oldHeads[i], Handle)
    ensures AllOf(heads, Trans) == AllOf(to, Trans) + Of(oldHeads[i], Trans)
  {
    hide Of, AllOf, Total;
    heads := to;
    var list := oldHeads[i];
    while list != []
      invariant |heads| == |to| && InPlace(heads, ids) && Total(heads) + |list| == Total(to) + |oldHeads[i]|
      invariant AllOf(heads, Handle) + Of(list, Handle) == AllOf(to, Handle) + Of(oldHeads[i], Handle)
      invariant AllOf(heads, Trans) + Of(list, Trans) == AllOf(to, Trans) + Of(oldHeads[i], Trans)
      invariant forall j :: 0 <= j < |list| ==> list[j].transId < NO_ID && list[j].ns.Some? && list[j].ns.value in ids
      decreases |list|
    {
      var req := list[0];
      OfCut(list, 0, Handle);
      OfCut(list, 0, Trans);
      list := Cut(list, 0);
      Appended(heads, req.transId % |heads|, req, Handle);
      Appended(heads, req.transId % |heads|, req, Trans);
      heads := heads[req.transId % |heads| := heads[req.transId % |heads|] + [req]];
    }
    NoneOf(Handle);
    NoneOf(Trans);
  }

  lemma NoneOf(f: Field)
    ensures Of([], f) == multiset{}
  {
  }

  lemma AllSnoc(heads: seq<seq<Req>>, i: nat, f: Field)
    requires i < |heads|
    ensures AllOf(heads[..i + 1], f) == AllOf(heads[..i], f) + Of(heads[i], f)
    ensures Total(heads[..i + 1]) == Total(heads[..i]) + |heads[i]|
  {
    assert heads[..i + 1][..i] == heads[..i];
  }

  lemma NoneMisplaced(heads: seq<seq<Req>>, ids: set<nat>)
    requires forall b :: 0 <= b < |heads| ==> heads[b] == []
    ensures InPlace(heads, ids)
  {
  }

  ghost predicate Behind(was: seq<Req>, now: seq<Req>) {
    |now| >= |was| && now[|now| - |was|..] == was
  }

  lemma Regroup(a: multiset<nat>, b: multiset<nat>, whole: multiset<nat>, c: multiset<nat>)
    requires a + b == whole + multiset{}
    ensures a + (c + b) == whole + c
  {
    assert whole + multiset{} == whole;
    assert a + (c + b) == (a + b) + c;
  }

  lemma TailIs(was: seq<Req>, now: seq<Req>, n: nat)
    requires Behind(was, now) && |now| == n + |was|
    ensures now[n..] == was
  {
  }

  lemma NothingBefore(was: seq<Req>)
    ensures Behind(was, was)
  {
  }

  lemma InFront(was: seq<Req>, now: seq<Req>, r: Req)
    requires Behind(was, now)
    ensures Behind(was, [r] + now)
  {
  }

  lemma FewerIds(heads: seq<seq<Req>>, now: seq<seq<Req>>, id: nat)
    requires DistinctIds(heads) && AllOf(now, Trans) + multiset{id} == AllOf(heads, Trans)
    ensures DistinctIds(now)
  {
    hide AllOf;
    forall k
      ensures AllOf(now, Trans)[k] <= 1
    {
      assert (AllOf(now, Trans) + multiset{id})[k] >= AllOf(now, Trans)[k];
    }
  }

  // ----- whole runs -----

  datatype Step =
    | Submit(handle: nat, draws: seq<nat>)
    | Finish(handle: nat)
    | Suspend
    | Resume
    | SetMaxInflight(max: int)
    | AddServer(id: nat)
    | Fail(at: nat, unsent: Req -> bool)

  ghost predicate Allowed(step: Step) {
    match step
    case Submit(_, draws) => Fair(draws)
    case SetMaxInflight(max) => max <= MOST_INFLIGHT
    case Finish(_) | Suspend | Resume | AddServer(_) | Fail(_, _) => true
  }

  /** What has been asked for and not been answered, given up or cancelled. */
  ghost function After(open: multiset<nat>, step: Step): multiset<nat> {
    match step
    case Submit(handle, _) => open + multiset{handle}
    case Finish(handle) => open - multiset{handle}
    case Suspend | Resume | SetMaxInflight(_) | AddServer(_) | Fail(_, _) => open
  }

  ghost function AfterAll(steps: seq<Step>): multiset<nat> {
    if steps == [] then multiset{} else After(AfterAll(steps[..|steps| - 1]), steps[|steps| - 1])
  }

  /** A handle without a request, such as one that was finished before, is let be. */
  method FinishHandle(r: Resolver, handle: nat, draws: nat -> seq<nat>)
    requires r.Valid() && forall i :: Fair(draws(i))
    modifies r
    ensures r.Valid() && r.Outstanding() == old(r.Outstanding()) - multiset{handle}
  {
    hide Of, AllOf, Total, InPlace, DistinctIds, CountUp, Fair;
    var found := r.Locate(handle);
    if found.Some? {
      r.Finish(found.value, draws);
    }
  }

  method Perform(r: Resolver, step: Step, draws: nat -> seq<nat>)
    requires r.Valid() && Allowed(step) && forall i :: Fair(draws(i))
    modifies r
    ensures r.Valid() && r.Outstanding() == After(old(r.Outstanding()), step)
  {
    hide Of, AllOf, Total, InPlace, DistinctIds, CountUp, Fair;
    match step
    case Submit(handle, d) => r.Submit(handle, d);
    case Finish(handle) => FinishHandle(r, handle, draws);
    case Suspend => r.Suspend();
    case Resume => r.Pump(draws);
    case SetMaxInflight(max) => r.SetMaxInflight(max);
    case AddServer(id) => r.AddServer(id);
    case Fail(at, unsent) =>
      if at < |r.servers| {
        r.NameserverFailed(at, unsent);
      }
  }

  /** In every run the two counts are the lengths of the lists, each request in flight
      is in the list of its id and has a nameserver while none that waits has one, and
      the requests on the books are those that were submitted and not finished. */
  method Run(steps: seq<Step>, draws: nat -> seq<nat>) returns (r: Resolver)
    requires (forall i :: 0 <= i < |steps| ==> Allowed(steps[i])) && forall i :: Fair(draws(i))
    ensures r.Valid() && r.Outstanding() == AfterAll(steps)
  {
    hide Of, AllOf, Total, InPlace, DistinctIds, CountUp, Fair;
    r := new Resolver();
    for i := 0 to |steps|
      invariant fresh(r) && r.Valid() && r.Outstanding() == AfterAll(steps[..i])
    {
      assert steps[..i + 1][..i] == steps[..i];
      Perform(r, steps[i], draws);
    }
    assert steps[..|steps|] == steps;
  }
}
