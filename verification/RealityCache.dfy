/**
 * The source-bound cache of shared virtual machines: a TTL, a capacity of 128
 * and least-recently-seen eviction, driven by linear scans over a map whose
 * iteration order is arbitrary.
 *
 * The main results describe the cache by the visit history alone: it holds
 * exactly the sources seen within the TTL after whose last visit fewer than 128
 * other sources came (`CacheMirrorsHistory`), so a returning source gets its
 * machine back exactly under that condition (`SurvivesExactlyWhen`).
 */
module RealityCache {
  import opened Spaces
  import Maps

  const MAX_REALITIES := 128
  const TTL: int := 24 * 3600 * 1_000_000_000

  datatype Entry = Entry(shared: nat, lastSeen: int)
  type Cache = map<string, Entry>

  function Live(m: Cache, now: int): Cache {
    map k | k in m && now - m[k].lastSeen <= TTL :: m[k]
  }

  function Seen(e: Entry): int { e.lastSeen }

  ghost predicate Oldest(m: Cache, k: string) { Maps.Oldest(m, Seen, k) }

  /** One visit by `ip`: `created` is the new machine handed out if none is remembered. */
  ghost predicate Serves(m: Cache, ip: string, now: int, created: nat, m': Cache, shared: nat) {
    var live := Live(m, now);
    if ip in live then
      shared == live[ip].shared && m' == live[ip := Entry(shared, now)]
    else
      && shared == created
      && if |live| >= MAX_REALITIES
         then exists k | Oldest(live, k) :: m' == (live - {k})[ip := Entry(created, now)]
         else m' == live[ip := Entry(created, now)]
  }

  class TrapSSH {
    var reality: Cache
    var serial: nat  // identity of the next virtual machine to be allocated
    ghost var visits: seq<Visit>
    ghost var caches: seq<Cache>

    ghost predicate Valid()
      reads this
    {
      && Run(visits, caches) && reality == caches[|visits|] && "" !in reality
      && (forall v | v in visits :: v.shared < serial)
      && (forall k | k in reality :: reality[k].shared < serial)
    }

    constructor ()
      ensures Valid() && visits == []
    {
      reality, serial, visits, caches := map[], 0, [], [map[]];
    }

    method NewSharedState() returns (shared: nat)
      modifies this`serial
      ensures shared == old(serial) && serial == old(serial) + 1
    {
      shared, serial := serial, serial + 1;
    }

    method SharedRealityForSource(source: string, now: int) returns (shared: nat)
      requires Valid()
      modifies this
      ensures Valid() && shared < serial
      ensures Trim(source) == "" ==>
        reality == old(reality) && visits == old(visits) && shared == old(serial)
      ensures Trim(source) != "" ==>
        && Serves(old(reality), Trim(source), now, old(serial), reality, shared)
        && visits == old(visits) + [Visit(Trim(source), now, old(serial), shared)]
    {
      hide Trim, Run, Oldest;
      var ip := Trim(source);
      if ip == "" {
        shared := NewSharedState();
        return;
      }
      ExpireOld(now);
      ghost var created := serial;
      if ip in reality {
        var entry := reality[ip];
        reality := reality[ip := entry.(lastSeen := now)];
        shared := entry.shared;
        Record(old(reality), Visit(ip, now, created, shared));
        return;
      }
      if |reality| >= MAX_REALITIES {
        EvictOldest();
      }
      shared := NewSharedState();
      reality := reality[ip := Entry(shared, now)];
      Record(old(reality), Visit(ip, now, created, shared));
    }

    /** The first loop: entries beyond the TTL are dropped. */
    method ExpireOld(now: int)
      modifies this`reality
      ensures reality == Live(old(reality), now)
    {
      var todo := reality.Keys;
      while todo != {}
        invariant todo <= reality.Keys <= old(reality).Keys
        invariant forall k | k in reality :: reality[k] == old(reality)[k]
        invariant forall k | k in old(reality) && k !in todo :: k in reality <==> now - old(reality)[k].lastSeen <= TTL
        decreases |todo|
      {
        var key :| key in todo;
        todo := todo - {key};
        if now - reality[key].lastSeen > TTL {
          reality := reality - {key};
        }
      }
    }

    /** The second loop and the deletion behind it. */
    method EvictOldest()
      requires reality != map[] && "" !in reality
      modifies this`reality
      ensures exists k | Oldest(old(reality), k) :: reality == old(reality) - {k}
    {
      var oldestKey := Maps.FindOldest(reality, Seen);
      assert Oldest(reality, oldestKey);
      if oldestKey != "" {
        reality := reality - {oldestKey};
      }
    }

    ghost method Record(before: Cache, v: Visit)
      requires Run(visits, caches) && caches[|visits|] == before && v.ip != ""
      requires forall u | u in visits :: u.shared < v.created
      requires Serves(before, v.ip, v.now, v.created, reality, v.shared)
      modifies this`visits, this`caches
      ensures visits == old(visits) + [v] && Run(visits, caches) && caches[|visits|] == reality
    {
      RunExtends(visits, caches, v, reality);
      visits, caches := visits + [v], caches + [reality];
    }
  }

  // ----- whole runs -----------------------------------------------------------

  /** `shared` is the machine handed out, `created` the one that would have been created. */
  datatype Visit = Visit(ip: string, now: int, created: nat, shared: nat)

  /** `ms[i]` is the cache before visit `i`; a machine to be created was never handed out before. */
  ghost predicate Run(h: seq<Visit>, ms: seq<Cache>) {
    && |ms| == |h| + 1 && ms[0] == map[]
    && (forall i | 0 <= i < |h| ::
          h[i].ip != "" && Serves(ms[i], h[i].ip, h[i].now, h[i].created, ms[i + 1], h[i].shared))
    && (forall i, j | 0 <= i < j < |h| :: h[i].shared < h[j].created)
  }

  lemma RunExtends(h: seq<Visit>, ms: seq<Cache>, v: Visit, m: Cache)
    requires Run(h, ms) && v.ip != "" && Serves(ms[|h|], v.ip, v.now, v.created, m, v.shared)
    requires forall u | u in h :: u.shared < v.created
    ensures Run(h + [v], ms + [m])
  {
    hide Serves;
    var h', ms' := h + [v], ms + [m];
    assert forall i | 0 <= i < |h| :: h'[i] == h[i] && h[i] in h;
    assert forall i | 0 <= i <= |h| :: ms'[i] == ms[i];
  }

  ghost predicate Increasing(h: seq<Visit>) {
    forall i, j | 0 <= i < j < |h| :: h[i].now < h[j].now
  }

  /** Position of the last visit by `ip`, -1 if there was none. */
  ghost function Last(h: seq<Visit>, ip: string): (r: int)
    ensures -1 <= r < |h|
    ensures r >= 0 ==> h[r].ip == ip
    ensures forall i | r < i < |h| :: h[i].ip != ip
  {
    if h == [] then -1
    else if h[|h| - 1].ip == ip then |h| - 1
    else Last(h[..|h| - 1], ip)
  }

  /** The sources seen after `ip` was last seen. */
  ghost function Since(h: seq<Visit>, ip: string): set<string> {
    set i | Last(h, ip) < i < |h| && i >= 0 :: h[i].ip
  }

  /** What the history alone says about `ip` being remembered at time `now`. */
  ghost predicate Remembered(h: seq<Visit>, ip: string, now: int) {
    Last(h, ip) >= 0 && now - h[Last(h, ip)].now <= TTL && |Since(h, ip)| < MAX_REALITIES
  }

  ghost function Clock(h: seq<Visit>): int {
    if h == [] then 0 else h[|h| - 1].now
  }

  ghost predicate Mirrors(m: Cache, h: seq<Visit>) {
    && (forall k :: k in m <==> Remembered(h, k, Clock(h)))
    && (forall k | k in m :: m[k] == Entry(h[Last(h, k)].shared, h[Last(h, k)].now))
    && |m| <= MAX_REALITIES
  }

  lemma LastAppend(h: seq<Visit>, v: Visit, x: string)
    ensures Last(h + [v], x) == if x == v.ip then |h| else Last(h, x)
  {
    assert (h + [v])[..|h|] == h;
  }

  lemma SinceMember(h: seq<Visit>, k: string, x: string)
    ensures x in Since(h, k) <==> Last(h, x) > Last(h, k)
  {
    if Last(h, x) > Last(h, k) { assert h[Last(h, x)].ip == x; }
  }

  lemma SinceAppend(h: seq<Visit>, v: Visit, k: string)
    requires Last(h, k) >= 0
    ensures Since(h + [v], k) == if k == v.ip then {} else Since(h, k) + {v.ip}
  {
    hide Since, Last;
    LastAppend(h, v, k);
    forall x ensures x in Since(h + [v], k) <==> k != v.ip && (x in Since(h, k) || x == v.ip) {
      LastAppend(h, v, x);
      SinceMember(h, k, x);
      SinceMember(h + [v], k, x);
    }
  }

  lemma SubsetSize<T>(a: set<T>, b: set<T>)
    requires a <= b
    ensures |a| <= |b|
  {
    assert b == a + (b - a);
  }

  /** Whoever came after a live source is live too. */
  lemma SinceIsLive(m: Cache, h: seq<Visit>, now: int, k: string)
    requires Mirrors(m, h) && Increasing(h) && k in Live(m, now)
    ensures Since(h, k) <= Live(m, now).Keys - {k}
  {
    hide Since, Last;
    forall x | x in Since(h, k) ensures x in Live(m, now) && x != k {
      SinceMember(h, k, x);
      SubsetOfSince(h, x, k);
      assert h[Last(h, k)].now < h[Last(h, x)].now;
      SubsetSize(Since(h, x), Since(h, k));
      assert Remembered(h, x, Clock(h));
    }
  }

  lemma SubsetOfSince(h: seq<Visit>, x: string, k: string)
    requires Last(h, x) > Last(h, k)
    ensures Since(h, x) <= Since(h, k)
  {
    hide Last;
  }

  /** Every other live source came after the oldest one. */
  lemma AllSinceOldest(m: Cache, h: seq<Visit>, now: int, k: string)
    requires Mirrors(m, h) && Increasing(h) && Oldest(Live(m, now), k)
    ensures Since(h, k) == Live(m, now).Keys - {k}
  {
    hide Since, Last, Remembered, Mirrors;
    SinceIsLive(m, h, now, k);
    LiveWasSeen(m, h, now, k);
    var live := Live(m, now);
    forall x | x in live && x != k ensures x in Since(h, k) {
      LiveWasSeen(m, h, now, x);
      assert live[k].lastSeen <= live[x].lastSeen;
      SinceMember(h, k, x);
    }
  }

  lemma IncreasingAppend(h: seq<Visit>, v: Visit)
    requires Increasing(h + [v])
    ensures Increasing(h) && forall i | 0 <= i < |h| :: h[i].now < v.now
  {
    var h' := h + [v];
    assert h'[|h|] == v && forall i | 0 <= i < |h| :: h'[i] == h[i];
  }

  /** A live source that is not the victim leaves room for one more newcomer after it. */
  lemma RoomAfter(m: Cache, h: seq<Visit>, now: int, ip: string, k: string)
    requires Mirrors(m, h) && Increasing(h) && k in Live(m, now) && k != ip
    requires ip in Live(m, now)
          || |Live(m, now)| < MAX_REALITIES
          || exists k0 :: k0 != k && Oldest(Live(m, now), k0)
    ensures |Since(h, k) + {ip}| < MAX_REALITIES
  {
    hide Since, Last, Remembered, Live;
    var live := Live(m, now);
    LiveSize(m, now);
    SinceIsLive(m, h, now, k);
    if ip in live {
      SubsetSize(Since(h, k) + {ip}, live.Keys - {k});
    } else if |live| < MAX_REALITIES {
      SubsetSize(Since(h, k), live.Keys - {k});
    } else {
      var k0 :| k0 != k && Oldest(live, k0);
      AllSinceOldest(m, h, now, k0);
      SinceIsOrdered(h, k0, k);
      SubsetSize(Since(h, k), live.Keys - {k} - {k0});
    }
  }

  lemma LiveSize(m: Cache, now: int)
    ensures |Live(m, now)| <= |m| && |Live(m, now).Keys| == |Live(m, now)|
  {
    SubsetSize(Live(m, now).Keys, m.Keys);
    assert |Live(m, now).Keys| == |Live(m, now)| && |m.Keys| == |m|;
  }

  lemma SinceIsOrdered(h: seq<Visit>, k0: string, k: string)
    requires k in Since(h, k0)
    ensures k0 !in Since(h, k) && k !in Since(h, k)
  {
    hide Last;
  }

  lemma StaysRemembered(m: Cache, h: seq<Visit>, v: Visit, k: string)
    requires Mirrors(m, h) && Increasing(h + [v])
    requires k in Live(m, v.now) && k != v.ip
    requires v.ip in Live(m, v.now)
          || |Live(m, v.now)| < MAX_REALITIES
          || exists k0 :: k0 != k && Oldest(Live(m, v.now), k0)
    ensures Remembered(h + [v], k, v.now)
  {
    hide Since, Last, Oldest;
    IncreasingAppend(h, v);
    LastAppend(h, v, k);
    RoomAfter(m, h, v.now, v.ip, k);
    SinceAppend(h, v, k);
  }

  lemma EvictedIsForgotten(m: Cache, h: seq<Visit>, v: Visit, k: string)
    requires Mirrors(m, h) && Increasing(h + [v])
    requires v.ip !in Live(m, v.now) && |Live(m, v.now)| >= MAX_REALITIES && Oldest(Live(m, v.now), k)
    ensures !Remembered(h + [v], k, v.now)
  {
    hide Since, Last, Live;
    var live := Live(m, v.now);
    IncreasingAppend(h, v);
    LiveSize(m, v.now);
    AllSinceOldest(m, h, v.now, k);
    LiveWasSeen(m, h, v.now, k);
    SinceAppend(h, v, k);
    assert |live.Keys - {k}| == |live| - 1;
  }

  lemma LiveWasSeen(m: Cache, h: seq<Visit>, now: int, k: string)
    requires Mirrors(m, h) && k in Live(m, now)
    ensures Last(h, k) >= 0 && k in m && m[k] == Entry(h[Last(h, k)].shared, h[Last(h, k)].now)
  {
    hide Since, Last;
  }

  /** What a history forgets it forgets for good. */
  lemma ForgottenStays(m: Cache, h: seq<Visit>, v: Visit, k: string)
    requires Mirrors(m, h) && Increasing(h + [v]) && k != v.ip
    requires Remembered(h + [v], k, v.now)
    ensures k in Live(m, v.now)
  {
    hide Since, Last;
    IncreasingAppend(h, v);
    LastAppend(h, v, k);
    SinceAppend(h, v, k);
    SubsetSize(Since(h, k), Since(h + [v], k));
    assert Remembered(h, k, Clock(h));
  }

  /** Who is in the cache after a visit, other than the visitor. */
  lemma OthersMirror(m: Cache, h: seq<Visit>, v: Visit, m': Cache, k: string)
    requires Mirrors(m, h) && Increasing(h + [v]) && k != v.ip
    requires Serves(m, v.ip, v.now, v.created, m', v.shared)
    ensures k in m' <==> Remembered(h + [v], k, v.now)
    ensures k in m' ==> k in Live(m, v.now) && m'[k] == m[k]
  {
    hide Mirrors, Remembered, Oldest;
    var live := Live(m, v.now);
    if k !in live {
      if Remembered(h + [v], k, v.now) { ForgottenStays(m, h, v, k); }
    } else if v.ip in live || |live| < MAX_REALITIES {
      StaysRemembered(m, h, v, k);
    } else {
      var k0 :| Oldest(live, k0) && m' == (live - {k0})[v.ip := Entry(v.created, v.now)];
      if k == k0 { EvictedIsForgotten(m, h, v, k); } else { StaysRemembered(m, h, v, k); }
    }
  }

  lemma VisitMirrors(m: Cache, h: seq<Visit>, v: Visit, m': Cache)
    requires Mirrors(m, h) && Increasing(h + [v])
    requires Serves(m, v.ip, v.now, v.created, m', v.shared)
    ensures Mirrors(m', h + [v])
  {
    hide Since, Last, Live, Remembered;
    var h' := h + [v];
    assert Clock(h') == v.now;
    VisitorMirrors(m, h, v, m');
    forall k | k != v.ip
      ensures k in m' <==> Remembered(h', k, v.now)
      ensures k in m' ==> Last(h', k) >= 0 && m'[k] == Entry(h'[Last(h', k)].shared, h'[Last(h', k)].now)
    {
      OthersMirror(m, h, v, m', k);
      LastAppend(h, v, k);
      if k in m' { LiveWasSeen(m, h, v.now, k); }
    }
  }

  lemma VisitorMirrors(m: Cache, h: seq<Visit>, v: Visit, m': Cache)
    requires Mirrors(m, h) && Serves(m, v.ip, v.now, v.created, m', v.shared)
    ensures v.ip in m' && m'[v.ip] == Entry(v.shared, v.now) && |m'| <= MAX_REALITIES
    ensures Last(h + [v], v.ip) == |h| && Remembered(h + [v], v.ip, v.now)
  {
    hide Live, Oldest, Remembered;
    LiveSize(m, v.now);
    VisitorRemembered(h, v);
    var live := Live(m, v.now);
    if v.ip !in live && |live| >= MAX_REALITIES {
      var k0 :| Oldest(live, k0) && m' == (live - {k0})[v.ip := Entry(v.created, v.now)];
      OldestIsIn(live, k0);
      assert m'.Keys == live.Keys - {k0} + {v.ip};
      assert |m'.Keys| == |m'|;
    } else {
      assert m'.Keys == live.Keys + {v.ip};
      assert |m'.Keys| == |m'|;
    }
  }

  lemma OldestIsIn(m: Cache, k: string)
    requires Oldest(m, k)
    ensures k in m
  {}

  lemma VisitorRemembered(h: seq<Visit>, v: Visit)
    ensures Last(h + [v], v.ip) == |h| && Remembered(h + [v], v.ip, v.now)
  {
    LastAppend(h, v, v.ip);
    assert Since(h + [v], v.ip) == {};
  }

  /** In every run with an increasing clock the cache is what the history says. */
  lemma {:induction false} CacheMirrorsHistory(h: seq<Visit>, ms: seq<Cache>)
    requires Run(h, ms) && Increasing(h)
    ensures Mirrors(ms[|h|], h)
  {
    hide Serves, Remembered;
    if h == [] {
      EmptyMirrors();
    } else {
      var n := |h| - 1;
      assert h[..n] + [h[n]] == h;
      CacheMirrorsHistory(h[..n], ms[..n + 1]);
      VisitMirrors(ms[n], h[..n], h[n], ms[n + 1]);
    }
  }

  lemma EmptyMirrors()
    ensures Mirrors(map[], [])
  {}

  /** The distinct sources of the visits strictly between two positions. */
  ghost function Between(h: seq<Visit>, i: nat, j: nat): set<string>
    requires i < j <= |h|
  {
    set x | i < x < j :: h[x].ip
  }

  /**
   * Two successive visits by one source share their machine exactly when they
   * are at most 24 hours apart and fewer than 128 distinct others came between;
   * otherwise the second visit gets a machine nobody was given before.
   */
  lemma SurvivesExactlyWhen(h: seq<Visit>, ms: seq<Cache>, i: nat, j: nat)
    requires Run(h, ms) && Increasing(h)
    requires i < j < |h| && h[i].ip == h[j].ip && forall x | i < x < j :: h[x].ip != h[i].ip
    ensures h[j].shared == h[i].shared
       <==> h[j].now - h[i].now <= 86_400_000_000_000 && |Between(h, i, j)| < 128
    ensures h[j].shared == h[i].shared || forall x | 0 <= x < j :: h[x].shared != h[j].shared
  {
    hide Mirrors, Since;
    var g := h[..j];
    CacheMirrorsHistory(g, ms[..j + 1]);
    BetweenIsSince(h, i, j);
    LookUp(ms[j], g, h[i].ip, h[j].now);
    assert Serves(ms[j], h[j].ip, h[j].now, h[j].created, ms[j + 1], h[j].shared);
    assert g[|g| - 1].now < h[j].now;
  }

  lemma LookUp(m: Cache, h: seq<Visit>, k: string, now: int)
    requires Mirrors(m, h) && Last(h, k) >= 0 && Clock(h) <= now
    ensures k in Live(m, now) <==> now - h[Last(h, k)].now <= TTL && |Since(h, k)| < MAX_REALITIES
    ensures k in m ==> m[k].shared == h[Last(h, k)].shared
  {}

  lemma BetweenIsSince(h: seq<Visit>, i: nat, j: nat)
    requires i < j <= |h| && forall x | i < x < j :: h[x].ip != h[i].ip
    ensures Last(h[..j], h[i].ip) == i && Since(h[..j], h[i].ip) == Between(h, i, j)
  {
    var g := h[..j];
    assert forall x | 0 <= x < j :: g[x] == h[x];
    assert g[i].ip == h[i].ip;
    forall x ensures x in Between(h, i, j) <==> x in Since(g, h[i].ip) {
      if x in Between(h, i, j) {
        var p :| i < p < j && h[p].ip == x;
        assert g[p].ip == x;
      }
      if x in Since(g, h[i].ip) { assert h[Last(g, x)].ip == x; }
    }
  }
}
