/**
 * Admission of SSH connections: a semaphore for all of them and a counter per
 * source address, taken and given back by connection goroutines in any interleaving.
 *
 * `RunKeepsCounts` is the invariant of every run: tokens and counters are exactly
 * the connections that hold them. `NothingLeaks` and `CapsHold` follow, and
 * `AdmittedExactlyWhen` says who gets in, in terms of the other connections alone.
 */
module Admission {
  import Maps

  // ----- the two resources ----------------------------------------------------------

  type Counters = map<string, nat>

  function Count(m: Counters, ip: string): nat { if ip in m then m[ip] else 0 }

  function Acquired(m: Counters, ip: string, limit: nat): (Counters, bool) {
    if Count(m, ip) >= limit then (m, false) else (m[ip := Count(m, ip) + 1], true)
  }

  function Released(m: Counters, ip: string): Counters {
    if Count(m, ip) <= 1 then m - {ip} else m[ip := m[ip] - 1]
  }

  class TrapSSH {
    var sem: nat
    var perIP: Counters
    const maxConcurrent: nat
    const maxPerIP: nat

    constructor (maxConcurrent: nat, maxPerIP: nat)
      ensures sem == 0 && perIP == map[] && this.maxConcurrent == maxConcurrent && this.maxPerIP == maxPerIP
    {
      sem, perIP := 0, map[];
      this.maxConcurrent, this.maxPerIP := maxConcurrent, maxPerIP;
    }

    /** The non-blocking send on the semaphore channel. */
    method TryEnter() returns (ok: bool)
      modifies this`sem
      ensures ok == (old(sem) < maxConcurrent)
      ensures sem == if ok then old(sem) + 1 else old(sem)
    {
      ok := sem < maxConcurrent;
      if ok { sem := sem + 1; }
    }

    /** The receive that gives the token back; it would block on an empty channel. */
    method Leave()
      requires sem > 0
      modifies this`sem
      ensures sem == old(sem) - 1
    {
      sem := sem - 1;
    }

    method AcquireIP(ip: string) returns (ok: bool)
      modifies this`perIP
      ensures (perIP, ok) == Acquired(old(perIP), ip, maxPerIP)
      ensures ok == ((if ip in old(perIP) then old(perIP)[ip] else 0) < maxPerIP)
    {
      var current := if ip in perIP then perIP[ip] else 0;
      if current >= maxPerIP {
        return false;
      }
      perIP := perIP[ip := current + 1];
      return true;
    }

    method ReleaseIP(ip: string)
      modifies this`perIP
      ensures perIP == Released(old(perIP), ip)
    {
      if ip !in perIP || perIP[ip] <= 1 {
        perIP := perIP - {ip};
        return;
      }
      perIP := perIP[ip := perIP[ip] - 1];
    }
  }

  // ----- connections in any interleaving -----------------------------------------------

  /** Where a connection is between two of its atomic actions. */
  datatype Phase = Arrived | Entered | Admitted | Finishing | Gone

  datatype Conn = Conn(ip: string, phase: Phase)

  datatype Gate = Gate(sem: nat, perIP: Counters, conns: map<nat, Conn>)

  datatype Event = Accept(id: nat, ip: string) | Act(id: nat)

  const EMPTY := Gate(0, map[], map[])

  /** The next atomic action of one connection: `acceptConn` from top to deferred calls. */
  function Next(g: Gate, e: Event, cap: nat, limit: nat): Gate {
    match e
    case Accept(id, ip) => if id in g.conns then g else g.(conns := g.conns[id := Conn(ip, Arrived)])
    case Act(id) =>
      if id !in g.conns then g else
      var c := g.conns[id];
      match c.phase
      case Arrived =>
        if g.sem < cap then g.(sem := g.sem + 1, conns := g.conns[id := c.(phase := Entered)])
        else g.(conns := g.conns[id := c.(phase := Gone)])
      case Entered =>
        var (perIP, ok) := Acquired(g.perIP, c.ip, limit);
        g.(perIP := perIP, conns := g.conns[id := c.(phase := if ok then Admitted else Finishing)])
      case Admitted => g.(perIP := Released(g.perIP, c.ip), conns := g.conns[id := c.(phase := Finishing)])
      case Finishing => g.(sem := if g.sem > 0 then g.sem - 1 else 0, conns := g.conns[id := c.(phase := Gone)])
      case Gone => g
  }

  function Run(events: seq<Event>, cap: nat, limit: nat): Gate {
    if events == [] then EMPTY else Next(Run(events[..|events| - 1], cap, limit), events[|events| - 1], cap, limit)
  }

  ghost function Holding(conns: map<nat, Conn>): set<nat> {
    set id | id in conns && conns[id].phase in {Entered, Admitted, Finishing}
  }

  ghost function Active(conns: map<nat, Conn>, ip: string): set<nat> {
    set id | id in conns && conns[id] == Conn(ip, Admitted)
  }

  ghost function AllActive(conns: map<nat, Conn>): set<nat> {
    set id | id in conns && conns[id].phase == Admitted
  }

  function Itself(n: nat): nat { n }

  ghost function Sum(m: Counters): nat { Maps.Sum(m, Itself) }

  lemma SumChanged(m: Counters, ip: string)
    ensures Sum(m[ip := Count(m, ip) + 1]) == Sum(m) + 1
    ensures Count(m, ip) > 0 ==> Sum(Released(m, ip)) == Sum(m) - 1
  {
    hide Maps.Sum;
    Maps.SumUpdated<string, nat>(m, Itself, ip, Count(m, ip) + 1);
    if Count(m, ip) > 1 {
      Maps.SumUpdated<string, nat>(m, Itself, ip, m[ip] - 1);
    } else if Count(m, ip) > 0 {
      Maps.SumWithout<string, nat>(m, Itself, ip);
    }
  }

  /** Every token and every count is held by a connection, and the other way round. */
  ghost predicate Counted(g: Gate, cap: nat, limit: nat) {
    && g.sem == |Holding(g.conns)| <= cap
    && CountersMatch(g.perIP, g.conns, limit)
    && Sum(g.perIP) == |AllActive(g.conns)|
  }

  ghost predicate CountersMatch(m: Counters, conns: map<nat, Conn>, limit: nat) {
    && (forall ip :: Count(m, ip) == |Active(conns, ip)|)
    && (forall ip | ip in m :: 0 < m[ip] <= limit)
  }

  function With(s: set<nat>, id: nat, member: bool): set<nat> {
    if member then s + {id} else s - {id}
  }

  /** Moving one connection to another phase, and what that does to the three sets. */
  lemma PhaseChanged(conns: map<nat, Conn>, id: nat, c: Conn)
    requires id in conns ==> conns[id].ip == c.ip
    ensures Holding(conns[id := c]) == With(Holding(conns), id, c.phase in {Entered, Admitted, Finishing})
    ensures AllActive(conns[id := c]) == With(AllActive(conns), id, c.phase == Admitted)
    ensures Active(conns[id := c], c.ip) == With(Active(conns, c.ip), id, c.phase == Admitted)
    ensures forall ip | ip != c.ip :: Active(conns[id := c], ip) == Active(conns, ip)
  {}

  lemma NextKeepsCounts(g: Gate, e: Event, cap: nat, limit: nat)
    requires Counted(g, cap, limit)
    ensures Counted(Next(g, e, cap, limit), cap, limit)
  {
    hide Counted;
    match e
    case Accept(id, ip) => if id !in g.conns { AcceptKeepsCounts(g, id, ip, cap, limit); }
    case Act(id) =>
      if id in g.conns {
        var c' := Next(g, e, cap, limit).conns[id];
        ActKeepsSums(g, id, g.conns[id], c', cap, limit);
      }
  }

  lemma AcceptKeepsCounts(g: Gate, id: nat, ip: string, cap: nat, limit: nat)
    requires Counted(g, cap, limit) && id !in g.conns
    ensures Counted(g.(conns := g.conns[id := Conn(ip, Arrived)]), cap, limit)
  {
    hide Holding, Active, AllActive, Sum;
    NotYetThere(g.conns, id, ip);
    PhaseChanged(g.conns, id, Conn(ip, Arrived));
  }

  lemma NotYetThere(conns: map<nat, Conn>, id: nat, ip: string)
    requires id !in conns
    ensures id !in Holding(conns) && id !in AllActive(conns) && id !in Active(conns, ip)
  {}

  lemma MemberOf(conns: map<nat, Conn>, id: nat)
    requires id in conns
    ensures id in Holding(conns) <==> conns[id].phase in {Entered, Admitted, Finishing}
    ensures id in AllActive(conns) <==> conns[id].phase == Admitted
    ensures id in Active(conns, conns[id].ip) <==> conns[id].phase == Admitted
  {}

  lemma SumAcquired(m: Counters, ip: string, limit: nat)
    ensures Acquired(m, ip, limit).1 ==> Sum(Acquired(m, ip, limit).0) == Sum(m) + 1
    ensures !Acquired(m, ip, limit).1 ==> Acquired(m, ip, limit).0 == m
  {
    hide Sum;
    SumChanged(m, ip);
  }

  lemma ActKeepsSums(g: Gate, id: nat, c: Conn, c': Conn, cap: nat, limit: nat)
    requires Counted(g, cap, limit) && id in g.conns && c == g.conns[id]
    requires c' == Next(g, Act(id), cap, limit).conns[id]
    ensures Counted(Next(g, Act(id), cap, limit), cap, limit)
  {
    hide Holding, Active, AllActive, Sum, CountersMatch, Acquired, Released;
    if c.phase == Gone { return; }
    TokensFollow(g, id, cap, limit);
    if c.phase == Entered && c'.phase == Admitted {
      SumAcquired(g.perIP, c.ip, limit);
      AdmittedIsCounted(g.perIP, g.conns, id, c', limit);
      MoreActive(g.conns, id, c');
    } else if c.phase == Admitted {
      HasCount(g.perIP, g.conns, id, limit);
      SumChanged(g.perIP, c.ip);
      FinishedIsUncounted(g.perIP, g.conns, id, c', limit);
      FewerActive(g.conns, id, c');
    } else {
      OthersAreUncounted(g.perIP, g.conns, id, c', limit);
      SumAcquired(g.perIP, c.ip, limit);
      SameActive(g.conns, id, c');
    }
  }

  lemma MoreActive(conns: map<nat, Conn>, id: nat, c': Conn)
    requires id in conns && conns[id].ip == c'.ip && conns[id].phase != Admitted && c'.phase == Admitted
    ensures |AllActive(conns[id := c'])| == |AllActive(conns)| + 1
  {
    hide Holding, Active, AllActive;
    MemberOf(conns, id);
    PhaseChanged(conns, id, c');
  }

  lemma FewerActive(conns: map<nat, Conn>, id: nat, c': Conn)
    requires id in conns && conns[id].ip == c'.ip && conns[id].phase == Admitted && c'.phase != Admitted
    ensures |AllActive(conns[id := c'])| == |AllActive(conns)| - 1
  {
    hide Holding, Active, AllActive;
    MemberOf(conns, id);
    PhaseChanged(conns, id, c');
  }

  lemma SameActive(conns: map<nat, Conn>, id: nat, c': Conn)
    requires id in conns && conns[id].ip == c'.ip && conns[id].phase != Admitted && c'.phase != Admitted
    ensures AllActive(conns[id := c']) == AllActive(conns)
  {
    hide Holding, Active, AllActive;
    MemberOf(conns, id);
    PhaseChanged(conns, id, c');
  }

  lemma TokensFollow(g: Gate, id: nat, cap: nat, limit: nat)
    requires g.sem == |Holding(g.conns)| <= cap && id in g.conns && g.conns[id].phase != Gone
    ensures var g' := Next(g, Act(id), cap, limit);
      g'.sem == |Holding(g'.conns)| <= cap && g'.conns == g.conns[id := g'.conns[id]]
  {
    hide Holding, Active, AllActive, Acquired, Released;
    var g', c := Next(g, Act(id), cap, limit), g.conns[id];
    var c' := g'.conns[id];
    MemberOf(g.conns, id);
    PhaseChanged(g.conns, id, c');
    assert g'.conns == g.conns[id := c'];
    var h := Holding(g.conns);
    match c.phase
    case Arrived =>
      if g.sem < cap { assert Holding(g'.conns) == h + {id}; } else { assert Holding(g'.conns) == h - {id} == h; }
    case Finishing => assert Holding(g'.conns) == h - {id} && g.sem > 0;
    case Entered => assert Holding(g'.conns) == h + {id} == h;
    case Admitted => assert Holding(g'.conns) == h + {id} == h;
    case Gone =>
  }

  /** An admitted connection is counted. */
  lemma HasCount(m: Counters, conns: map<nat, Conn>, id: nat, limit: nat)
    requires CountersMatch(m, conns, limit) && id in conns && conns[id].phase == Admitted
    ensures Count(m, conns[id].ip) > 0
  {
    assert id in Active(conns, conns[id].ip);
    assert Count(m, conns[id].ip) == |Active(conns, conns[id].ip)|;
  }

  lemma AdmittedIsCounted(m: Counters, conns: map<nat, Conn>, id: nat, c': Conn, limit: nat)
    requires CountersMatch(m, conns, limit) && id in conns && conns[id].ip == c'.ip
    requires conns[id].phase != Admitted && c'.phase == Admitted && Acquired(m, c'.ip, limit).1
    ensures CountersMatch(Acquired(m, c'.ip, limit).0, conns[id := c'], limit)
  {
    hide Active;
    MemberOf(conns, id);
    PhaseChanged(conns, id, c');
    forall ip ensures Count(Acquired(m, c'.ip, limit).0, ip) == |Active(conns[id := c'], ip)| {
      assert Count(m, ip) == |Active(conns, ip)|;
    }
  }

  lemma FinishedIsUncounted(m: Counters, conns: map<nat, Conn>, id: nat, c': Conn, limit: nat)
    requires CountersMatch(m, conns, limit) && id in conns && conns[id].ip == c'.ip
    requires conns[id].phase == Admitted && c'.phase != Admitted
    ensures CountersMatch(Released(m, c'.ip), conns[id := c'], limit)
  {
    HasCount(m, conns, id, limit);
    hide Active;
    MemberOf(conns, id);
    PhaseChanged(conns, id, c');
    forall ip ensures Count(Released(m, c'.ip), ip) == |Active(conns[id := c'], ip)| {
      assert Count(m, ip) == |Active(conns, ip)|;
    }
  }

  lemma OthersAreUncounted(m: Counters, conns: map<nat, Conn>, id: nat, c': Conn, limit: nat)
    requires CountersMatch(m, conns, limit) && id in conns && conns[id].ip == c'.ip
    requires conns[id].phase != Admitted && c'.phase != Admitted
    ensures CountersMatch(m, conns[id := c'], limit)
  {
    hide Active;
    MemberOf(conns, id);
    PhaseChanged(conns, id, c');
    forall ip ensures Count(m, ip) == |Active(conns[id := c'], ip)| {
      assert Count(m, ip) == |Active(conns, ip)|;
    }
  }

  /** In every run, whatever the interleaving. */
  lemma {:induction false} RunKeepsCounts(events: seq<Event>, cap: nat, limit: nat)
    ensures Counted(Run(events, cap, limit), cap, limit)
  {
    hide Counted;
    if events == [] {
      EmptyIsCounted(cap, limit);
    } else {
      RunKeepsCounts(events[..|events| - 1], cap, limit);
      NextKeepsCounts(Run(events[..|events| - 1], cap, limit), events[|events| - 1], cap, limit);
    }
  }

  lemma EmptyIsCounted(cap: nat, limit: nat)
    ensures Counted(EMPTY, cap, limit)
  {
    assert Holding(map[]) == {} && AllActive(map[]) == {};
    assert forall ip :: Active(map[], ip) == {};
  }

  /** No more connections are served than the caps allow, in total or per source. */
  lemma CapsHold(events: seq<Event>, cap: nat, limit: nat, ip: string)
    ensures var g := Run(events, cap, limit);
      && Sum(g.perIP) == |AllActive(g.conns)| <= g.sem <= cap
      && |Active(g.conns, ip)| == Count(g.perIP, ip) <= limit
  {
    RunKeepsCounts(events, cap, limit);
    var conns := Run(events, cap, limit).conns;
    assert Holding(conns) == AllActive(conns) + (Holding(conns) - AllActive(conns));
  }

  /** Once every connection has ended, no token and no counter is left behind. */
  lemma NothingLeaks(events: seq<Event>, cap: nat, limit: nat)
    requires forall id | id in Run(events, cap, limit).conns :: Run(events, cap, limit).conns[id].phase == Gone
    ensures Run(events, cap, limit).sem == 0 && Run(events, cap, limit).perIP == map[]
  {
    RunKeepsCounts(events, cap, limit);
    var g := Run(events, cap, limit);
    assert Holding(g.conns) == {};
    forall ip ensures ip !in g.perIP {
      assert Active(g.conns, ip) == {};
      assert Count(g.perIP, ip) == 0;
    }
  }

  /**
   * What each action of a connection does in any run: it gets a token iff fewer than
   * `cap` connections hold one, and is served iff fewer than `limit` from its address
   * are; otherwise it leaves, and it touches no other connection.
   */
  lemma AdmittedExactlyWhen(events: seq<Event>, id: nat, cap: nat, limit: nat)
    requires id in Run(events, cap, limit).conns
    ensures var g, g' := Run(events, cap, limit), Run(events + [Act(id)], cap, limit);
      var c := g.conns[id];
      g'.conns == g.conns[id := Conn(c.ip,
        match c.phase
        case Arrived => if |Holding(g.conns)| < cap then Entered else Gone
        case Entered => if |Active(g.conns, c.ip)| < limit then Admitted else Finishing
        case Admitted => Finishing
        case Finishing => Gone
        case Gone => Gone)]
  {
    hide Next, Counted, Holding, Active;
    RunKeepsCounts(events, cap, limit);
    assert (events + [Act(id)])[..|events|] == events;
    ActionOf(Run(events, cap, limit), id, cap, limit);
  }

  lemma ActionOf(g: Gate, id: nat, cap: nat, limit: nat)
    requires Counted(g, cap, limit) && id in g.conns
    ensures var c := g.conns[id];
      Next(g, Act(id), cap, limit).conns == g.conns[id := Conn(c.ip,
        match c.phase
        case Arrived => if |Holding(g.conns)| < cap then Entered else Gone
        case Entered => if |Active(g.conns, c.ip)| < limit then Admitted else Finishing
        case Admitted => Finishing
        case Finishing => Gone
        case Gone => Gone)]
  {
    hide Holding, Active, AllActive, Sum, Released;
    var c := g.conns[id];
    assert Count(g.perIP, c.ip) == |Active(g.conns, c.ip)|;
    assert c.phase == Gone ==> g.conns[id := Conn(c.ip, Gone)] == g.conns;
  }

  /** A new connection arrives, and changes nothing else. */
  lemma ArrivalIsRecorded(events: seq<Event>, id: nat, ip: string, cap: nat, limit: nat)
    requires id !in Run(events, cap, limit).conns
    ensures Run(events + [Accept(id, ip)], cap, limit).conns
         == Run(events, cap, limit).conns[id := Conn(ip, Arrived)]
  {
    assert (events + [Accept(id, ip)])[..|events|] == events;
  }
}
