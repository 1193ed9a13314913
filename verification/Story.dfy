/**
 * The web story of a target when no reality provider is configured: responses
 * gather evidence for a technology until one is locked in, and the first cloud
 * that is shown stays the only one.
 *
 * Paths, labels and the sparsity gates enter as the answers they give
 * (`Request`). Main results: `LocksExactlyWhen` and `OrderNeverDecidesALock` (map
 * iteration order never decides a lock), `StoreRunKeepsStory` (over runs of the whole
 * store, what is locked or set stays so while the profile is retained) and
 * `MissesLeaveNoTrace` (a run is the same without its misses).
 */
module Story {
  import opened Wrappers
  import Maps

  const MAX_PROFILES := 2048

  type Evidence = map<string, nat>

  datatype Profile = Profile(
    technology: string, locked: bool, confidence: string, cloud: string, evidence: Evidence, lastSeen: int)

  /**
   * One response about to be finalised: the technology it argues for and how
   * strongly, the cloud it belongs to, its status, and what the gates say of it.
   * `management` is `None` for paths outside the management surfaces; otherwise it
   * says whether the path lies in the target's own workspace.
   */
  datatype Request = Request(
    candidate: string, weight: nat, follow: bool, cloud: string, status: int,
    surfaceAllowed: bool, management: Option<bool>, redirects: bool,
    aliasAllowed: bool, exposureAllowed: bool, artifactAllowed: bool)

  /** What a session remembers of its story; the empty story means nothing. */
  datatype SessionStory = SessionStory(story: string, locked: bool, confidence: string)

  function NewProfile(s: SessionStory): Profile {
    if s.story != "" then Profile(s.story, s.locked, s.confidence, "", map[], 0)
    else Profile("", false, "", "", map[], 0)
  }

  datatype Reply = Miss | Served(status: int)

  function Normalized(app: string): string {
    if app == "php" then "generic-php" else if app == "asp" then "aspnet" else app
  }

  predicate Compatible(locked: string, requested: string) {
    || locked == "" || requested == "" || locked == requested
    || (locked == "wordpress" && Normalized(requested) == "generic-php")
  }

  predicate Success(status: int) { 200 <= status < 300 }

  /** The status after the management gate. */
  function StatusOf(r: Request): int {
    if 200 <= r.status < 400 && r.management == Some(true) && r.redirects then 302 else r.status
  }

  /** The response is turned into a miss. */
  predicate IsMiss(p: Profile, r: Request) {
    var status := StatusOf(r);
    || (r.candidate != "" && p.locked && !Compatible(p.technology, r.candidate))
    || (r.cloud != "" && p.cloud != "" && r.cloud != p.cloud)
    || (Success(r.status) && !r.surfaceAllowed)
    || (200 <= r.status < 400 && r.management == Some(false))
    || (Success(status) && !(r.aliasAllowed && r.exposureAllowed && r.artifactAllowed))
  }

  function WeightOf(r: Request): nat { if r.follow then r.weight + 3 else r.weight }

  function Added(e: Evidence, tech: string, weight: nat): Evidence {
    e[tech := (if tech in e then e[tech] else 0) + weight]
  }

  /** A highest score, however the map was walked; 0 and no name when there is none. */
  ghost predicate IsBest(e: Evidence, best: string, score: nat) {
    && (forall t | t in e :: e[t] <= score)
    && if score > 0 then best in e && e[best] == score else best == ""
  }

  /** The profile after a served response; `best` is the winner of the walk over the evidence. */
  function Observed(p: Profile, r: Request, best: string, score: nat): Profile {
    var w := WeightOf(r);
    if r.candidate == "" || w == 0 then p else
    var q := p.(evidence := Added(p.evidence, r.candidate, w));
    if p.locked then q
    else if Success(StatusOf(r)) && w >= 3 then q.(technology := r.candidate, locked := true, confidence := "high")
    else if score >= 5 then q.(technology := best, locked := true, confidence := "high")
    else if score >= 3 then q.(technology := best, confidence := "medium")
    else q
  }

  function WithCloud(p: Profile, r: Request): Profile {
    if r.cloud != "" && p.cloud == "" && Success(StatusOf(r)) then p.(cloud := r.cloud) else p
  }

  /** One request against a profile. */
  ghost predicate Serves(p: Profile, r: Request, p': Profile, reply: Reply) {
    if IsMiss(p, r) then reply == Miss && p' == p
    else
      && reply == Served(StatusOf(r))
      && exists best, score :: IsBest(Added(p.evidence, r.candidate, WeightOf(r)), best, score)
           && p' == WithCloud(Observed(p, r, best, score), r)
  }

  // ----- the imperative state ---------------------------------------------------------

  class WebStoryState {
    var profiles: map<string, Profile>

    ghost predicate Valid()
      reads this
    {
      |profiles| <= MAX_PROFILES && "" !in profiles && AllUndecided(profiles)
    }

    constructor ()
      ensures Valid() && profiles == map[]
    {
      profiles := map[];
    }

    method ProfileOf(target: string, session: SessionStory, now: int) returns (p: Profile)
      requires Valid() && target != ""
      modifies this
      ensures Valid()
      ensures p == Current(old(profiles), target, session, now)
      ensures Stored(old(profiles), target, p, profiles)
    {
      hide IsOldest, Undecided;
      CurrentIsUndecided(profiles, target, session, now);
      if target in profiles {
        p := profiles[target].(lastSeen := now);
        profiles := profiles[target := p];
        return;
      }
      p := NewProfile(session).(lastSeen := now);
      profiles := profiles[target := p];
      Maps.CountUpdated(old(profiles), target, p);
      if |profiles| > MAX_PROFILES {
        PruneOldestLocked();
      }
    }

    method PruneOldestLocked()
      requires profiles != map[] && "" !in profiles
      modifies this
      ensures exists k | IsOldest(old(profiles), k) :: profiles == old(profiles) - {k}
      ensures |profiles| == |old(profiles)| - 1
    {
      var oldestKey := Maps.FindOldest(profiles, Seen);
      if oldestKey != "" {
        profiles := profiles - {oldestKey};
      }
    }

    method FinalizeWebStoryResponse(target: string, session: SessionStory, r: Request, now: int)
        returns (reply: Reply, p: Profile)
      requires Valid() && target != ""
      modifies this
      ensures Valid()
      ensures StoreServes(old(profiles), Call(target, session, r, now), p, profiles, reply)
    {
      hide IsMiss, StatusOf, Observed, Added, IsBest, IsOldest, Undecided, Stored;
      p := ProfileOf(target, session, now);
      ghost var before := p;
      CurrentIsUndecided(old(profiles), target, session, now);
      var miss, status := Gates(p, r);
      if miss {
        ServesKeepsUndecided(before, r, p, Miss);
        StoredAgain(old(profiles), target, p, p, profiles);
        return Miss, p;
      }
      p := Learn(p, r, if r.follow then r.weight + 3 else r.weight, status);
      if r.cloud != "" && p.cloud == "" && Success(status) {
        p := p.(cloud := r.cloud);
      }
      StoredAgain(old(profiles), target, before, p, profiles);
      if target in profiles {
        profiles := profiles[target := p];
      }
      reply := Served(status);
      ServesKeepsUndecided(before, r, p, reply);
      StoredUndecided(old(profiles), target, p, profiles);
    }

    /** The checks before anything is learned, in their order. */
    method Gates(p: Profile, r: Request) returns (miss: bool, status: int)
      ensures miss == IsMiss(p, r)
      ensures !miss ==> status == StatusOf(r)
    {
      status := r.status;
      if r.candidate != "" && p.locked && !Compatible(p.technology, r.candidate) {
        return true, status;
      }
      if r.cloud != "" && p.cloud != "" && r.cloud != p.cloud {
        return true, status;
      }
      if Success(status) && !r.surfaceAllowed {
        return true, status;
      }
      if 200 <= status < 400 && r.management != None {
        if !r.management.value {
          return true, status;
        }
        if r.redirects {
          status := 302;
        }
      }
      if Success(status) && !r.aliasAllowed {
        return true, status;
      }
      if Success(status) && !r.exposureAllowed {
        return true, status;
      }
      if Success(status) && !r.artifactAllowed {
        return true, status;
      }
      return false, status;
    }

    /** The part that commits evidence and may lock a technology. */
    method Learn(p: Profile, r: Request, weight: nat, status: int) returns (q: Profile)
      requires weight == WeightOf(r) && status == StatusOf(r)
      ensures exists best, score ::
        IsBest(Added(p.evidence, r.candidate, weight), best, score) && q == Observed(p, r, best, score)
      ensures q.lastSeen == p.lastSeen
    {
      q := p;
      var evidence := Added(p.evidence, r.candidate, weight);
      var best, score := FindBest(evidence);
      if r.candidate != "" && weight > 0 {
        q := q.(evidence := evidence);
        if !q.locked {
          if Success(status) && weight >= 3 {
            q := q.(technology := r.candidate, locked := true, confidence := "high");
          } else if score >= 5 {
            q := q.(technology := best, locked := true, confidence := "high");
          } else if score >= 3 {
            q := q.(technology := best, confidence := "medium");
          }
        }
      }
    }

    /** The walk over the evidence, in any order. */
    method FindBest(e: Evidence) returns (best: string, score: nat)
      ensures IsBest(e, best, score)
    {
      best, score := "", 0;
      var todo := e.Keys;
      while todo != {}
        invariant todo <= e.Keys
        invariant forall t | t in e && t !in todo :: e[t] <= score
        invariant if score > 0 then best in e && e[best] == score else best == ""
        decreases |todo|
      {
        var tech :| tech in todo;
        todo := todo - {tech};
        if e[tech] > score {
          best, score := tech, e[tech];
        }
      }
    }
  }

  function Seen(p: Profile): int { p.lastSeen }

  ghost predicate IsOldest(m: map<string, Profile>, k: string) { Maps.Oldest(m, Seen, k) }

  // ----- the store as a value --------------------------------------------------------------

  datatype Call = Call(target: string, session: SessionStory, r: Request, now: int)

  type Profiles = map<string, Profile>

  /** The profile a call starts from. */
  function Current(m: Profiles, target: string, session: SessionStory, now: int): Profile {
    (if target in m then m[target] else NewProfile(session)).(lastSeen := now)
  }

  /** `p` is stored for `target`; if that makes one profile too many, an oldest one goes. */
  ghost predicate Stored(m: Profiles, target: string, p: Profile, m': Profiles) {
    var full := m[target := p];
    if target in m || |m| < MAX_PROFILES then m' == full
    else exists k | IsOldest(full, k) :: m' == full - {k}
  }

  /** One call on the store. */
  ghost predicate StoreServes(m: Profiles, c: Call, p: Profile, m': Profiles, reply: Reply) {
    Serves(Current(m, c.target, c.session, c.now), c.r, p, reply) && Stored(m, c.target, p, m')
  }

  ghost predicate AllUndecided(m: Profiles) {
    forall t | t in m :: Undecided(m[t])
  }

  lemma CurrentIsUndecided(m: Profiles, target: string, session: SessionStory, now: int)
    requires AllUndecided(m)
    ensures Undecided(Current(m, target, session, now))
  {}

  /** Storing a profile again, with the same time, keeps the choice of who went. */
  lemma StoredAgain(m: Profiles, target: string, p: Profile, q: Profile, m': Profiles)
    requires Stored(m, target, p, m') && p.lastSeen == q.lastSeen
    ensures Stored(m, target, q, if target in m' then m'[target := q] else m')
  {
    var full, full' := m[target := p], m[target := q];
    if target !in m && |m| >= MAX_PROFILES {
      var k :| IsOldest(full, k) && m' == full - {k};
      assert forall x | x in full' :: x in full && Seen(full'[x]) == Seen(full[x]);
      assert IsOldest(full', k);
      assert (if target in m' then m'[target := q] else m') == full' - {k};
    }
  }

  lemma StoredUndecided(m: Profiles, target: string, p: Profile, m': Profiles)
    requires AllUndecided(m) && Undecided(p) && Stored(m, target, p, m')
    ensures AllUndecided(m')
  {
    hide Undecided, IsOldest;
  }

  // ----- what a profile keeps ------------------------------------------------------------

  /** While nothing is locked every score is below the locking score. */
  ghost predicate Undecided(p: Profile) {
    !p.locked ==> forall t | t in p.evidence :: p.evidence[t] < 5
  }

  lemma ServesKeepsUndecided(p: Profile, r: Request, p': Profile, reply: Reply)
    requires Undecided(p) && Serves(p, r, p', reply)
    ensures Undecided(p')
  {}

  /** A request that locks a profile locks its own candidate, whoever wins the walk. */
  lemma LockPicksTheCandidate(p: Profile, r: Request, p': Profile, reply: Reply)
    requires Undecided(p) && Serves(p, r, p', reply) && !p.locked && p'.locked
    ensures reply.Served? && r.candidate != "" && p'.technology == r.candidate && p'.confidence == "high"
    ensures (Success(StatusOf(r)) && WeightOf(r) >= 3) || p'.evidence[r.candidate] >= 5
  {}

  function Score(p: Profile, tech: string): nat { if tech in p.evidence then p.evidence[tech] else 0 }

  /**
   * Which responses are served, and with what status: the technology fits the lock,
   * the cloud fits the cloud, and none of the gates that apply to the status is shut.
   */
  lemma ServedExactlyWhen(p: Profile, r: Request, p': Profile, reply: Reply)
    requires Serves(p, r, p', reply)
    ensures reply.Served? <==>
      && (p.locked && r.candidate != "" ==>
            || p.technology == "" || r.candidate == p.technology
            || (p.technology == "wordpress" && r.candidate in ["php", "generic-php"]))
      && (p.cloud != "" && r.cloud != "" ==> r.cloud == p.cloud)
      && (200 <= r.status <= 299 ==> r.surfaceAllowed)
      && (200 <= r.status <= 399 ==> r.management != Some(false))
      && (200 <= r.status <= 299 && !(r.management == Some(true) && r.redirects) ==>
            r.aliasAllowed && r.exposureAllowed && r.artifactAllowed)
    ensures reply.Served? ==>
      reply.status == if 200 <= r.status <= 399 && r.management == Some(true) && r.redirects then 302 else r.status
  {}

  /** A served response counts with its weight, and three more if a story link was followed. */
  lemma EvidenceGrows(p: Profile, r: Request, p': Profile, reply: Reply)
    requires Serves(p, r, p', reply)
    ensures var w := r.weight + if r.follow then 3 else 0;
      forall t :: Score(p', t) == Score(p, t) + if reply.Served? && t == r.candidate != "" then w else 0
  {
    hide IsMiss, IsBest, StatusOf;
  }

  /**
   * What a served response changes for good, and when: it locks if it succeeds with
   * weight 3 or lifts its candidate's score to 5, and it sets the first cloud if it
   * succeeds. Neither depends on the walk over the evidence.
   */
  lemma LocksExactlyWhen(p: Profile, r: Request, p': Profile, reply: Reply)
    requires Undecided(p) && Serves(p, r, p', reply)
    ensures var w := r.weight + if r.follow then 3 else 0;
      p'.locked <==>
        || p.locked
        || (reply.Served? && r.candidate != ""
            && ((w >= 3 && 200 <= reply.status <= 299) || Score(p, r.candidate) + w >= 5))
    ensures p'.cloud ==
      if p.cloud == "" && reply.Served? && 200 <= reply.status <= 299 then r.cloud else p.cloud
  {
    hide IsMiss, StatusOf, IsBest;
    if !IsMiss(p, r) {
      var best, score :| IsBest(Added(p.evidence, r.candidate, WeightOf(r)), best, score)
           && p' == WithCloud(Observed(p, r, best, score), r);
      if r.candidate != "" { BestIsTheCandidate(p, r, best, score); }
    }
  }

  /** Short of a lock, a highest score of 3 or 4 makes one of its technologies the guess, with medium confidence. */
  lemma GuessesExactlyWhen(p: Profile, r: Request, p': Profile, reply: Reply)
    requires Undecided(p) && Serves(p, r, p', reply) && !p'.locked
    ensures var counts := reply.Served? && r.candidate != "" && (r.weight > 0 || r.follow);
      if counts && exists t :: Score(p', t) >= 3
      then p'.confidence == "medium" && Score(p', p'.technology) >= 3
        && forall t :: Score(p', t) <= Score(p', p'.technology)
      else p'.technology == p.technology && p'.confidence == p.confidence
  {
    hide IsMiss, StatusOf, IsBest, Added, Undecided;
    if !IsMiss(p, r) {
      var e := Added(p.evidence, r.candidate, WeightOf(r));
      var best, score :| IsBest(e, best, score) && p' == WithCloud(Observed(p, r, best, score), r);
      if r.candidate != "" && WeightOf(r) > 0 {
        assert p'.evidence == e && (score >= 3 ==> p'.technology == best && p'.confidence == "medium");
        BestScore(p', best, score);
      }
    }
  }

  /** What the walk found is a highest score of the evidence. */
  lemma BestScore(p: Profile, best: string, score: nat)
    requires IsBest(p.evidence, best, score)
    ensures forall t :: Score(p, t) <= score
    ensures score > 0 ==> Score(p, best) == score
    ensures score >= 3 <==> exists t :: Score(p, t) >= 3
  {
    assert score > 0 ==> Score(p, best) == score;
  }

  /** The highest score reaches 5 only where the candidate's does. */
  lemma BestIsTheCandidate(p: Profile, r: Request, best: string, score: nat)
    requires Undecided(p) && IsBest(Added(p.evidence, r.candidate, WeightOf(r)), best, score)
    ensures !p.locked ==> (score >= 5 <==> Score(p, r.candidate) + WeightOf(r) >= 5)
    ensures !p.locked && score >= 5 ==> best == r.candidate && WeightOf(r) > 0
  {
    var e := Added(p.evidence, r.candidate, WeightOf(r));
    assert r.candidate in e && e[r.candidate] == Score(p, r.candidate) + WeightOf(r) <= score;
    if score >= 5 && best != r.candidate { assert best in e ==> e[best] == p.evidence[best]; }
  }

  /** Two walks over the same evidence agree on whether and what to lock. */
  lemma OrderNeverDecidesALock(p: Profile, r: Request, p1: Profile, p2: Profile, reply: Reply)
    requires Undecided(p) && Serves(p, r, p1, reply) && Serves(p, r, p2, reply)
    ensures p1.locked == p2.locked && p1.evidence == p2.evidence && p1.cloud == p2.cloud
    ensures p1.locked ==> p1 == p2
  {}

  /** A response that becomes a miss teaches the profile nothing. */
  lemma MissLearnsNothing(p: Profile, r: Request, p': Profile, reply: Reply)
    requires Serves(p, r, p', reply)
    ensures reply == Miss ==> p' == p
    ensures reply == Miss <==> IsMiss(p, r)
  {}

  /** A run of requests that one retained profile saw; other targets' requests do not touch it. */
  ghost predicate Run(ps: seq<Profile>, rs: seq<Request>, replies: seq<Reply>) {
    && |ps| == |rs| + 1 && |replies| == |rs|
    && forall i | 0 <= i < |rs| :: Step(ps[i], rs[i], ps[i + 1], replies[i])
  }

  /** One request, at any time. */
  ghost predicate Step(p: Profile, r: Request, p': Profile, reply: Reply) {
    exists seen: int :: Serves(p.(lastSeen := seen), r, p', reply)
  }

  lemma ServesKeepsStory(p: Profile, r: Request, p': Profile, reply: Reply)
    requires Serves(p, r, p', reply) && Undecided(p)
    ensures Undecided(p')
    ensures p.locked ==> p'.locked && p'.technology == p.technology && p'.confidence == p.confidence
    ensures p.cloud != "" ==> p'.cloud == p.cloud
    ensures forall t | t in p.evidence :: t in p'.evidence && p.evidence[t] <= p'.evidence[t]
    ensures p.locked && reply.Served? && r.candidate != "" ==>
      || p.technology == "" || r.candidate == p.technology
      || (p.technology == "wordpress" && r.candidate in ["php", "generic-php"])
    ensures p.cloud != "" && reply.Served? && r.cloud != "" ==> r.cloud == p.cloud
  {
    ServesKeepsUndecided(p, r, p', reply);
  }

  lemma StepKeepsStory(p: Profile, r: Request, p': Profile, reply: Reply)
    requires Step(p, r, p', reply) && Undecided(p)
    ensures Undecided(p')
    ensures p.locked ==> p'.locked && p'.technology == p.technology && p'.confidence == p.confidence
    ensures p.cloud != "" ==> p'.cloud == p.cloud
    ensures forall t | t in p.evidence :: t in p'.evidence && p.evidence[t] <= p'.evidence[t]
    ensures p.locked && reply.Served? && r.candidate != "" ==>
      || p.technology == "" || r.candidate == p.technology
      || (p.technology == "wordpress" && r.candidate in ["php", "generic-php"])
    ensures p.cloud != "" && reply.Served? && r.cloud != "" ==> r.cloud == p.cloud
  {
    hide Serves;
    var seen: int :| Serves(p.(lastSeen := seen), r, p', reply);
    ServesKeepsStory(p.(lastSeen := seen), r, p', reply);
  }

  /**
   * From any moment of a run on: a locked technology stays and only compatible
   * responses are served; a cloud that is set stays and only its responses are served.
   */
  lemma {:induction false} RunKeepsStory(ps: seq<Profile>, rs: seq<Request>, replies: seq<Reply>, i: nat, j: nat)
    requires Run(ps, rs, replies) && Undecided(ps[0]) && i <= j <= |rs|
    ensures Undecided(ps[j])
    ensures ps[i].locked ==>
      ps[j].locked && ps[j].technology == ps[i].technology && ps[j].confidence == ps[i].confidence
    ensures ps[i].cloud != "" ==> ps[j].cloud == ps[i].cloud
    ensures ps[i].locked && j < |rs| && replies[j].Served? && rs[j].candidate != "" ==>
      || ps[i].technology == "" || rs[j].candidate == ps[i].technology
      || (ps[i].technology == "wordpress" && rs[j].candidate in ["php", "generic-php"])
    ensures ps[i].cloud != "" && j < |rs| && replies[j].Served? && rs[j].cloud != "" ==> rs[j].cloud == ps[i].cloud
    decreases j
  {
    hide Step, Undecided;
    if 0 < j {
      RunKeepsStory(ps, rs, replies, if i < j then i else j - 1, j - 1);
      StepKeepsStory(ps[j - 1], rs[j - 1], ps[j], replies[j - 1]);
    }
    if j < |rs| { StepKeepsStory(ps[j], rs[j], ps[j + 1], replies[j]); }
  }

  /**
   * A run is the same without its misses: dropping one leaves a run with the same
   * other replies and profiles. Only the time the profile was last seen tells.
   */
  lemma MissesLeaveNoTrace(ps: seq<Profile>, rs: seq<Request>, replies: seq<Reply>, i: nat)
    requires Run(ps, rs, replies) && i < |rs| && replies[i] == Miss
    ensures Run(ps[..i + 1] + ps[i + 2..], rs[..i] + rs[i + 1..], replies[..i] + replies[i + 1..])
    ensures ps[i + 1] == ps[i].(lastSeen := ps[i + 1].lastSeen)
  {
    hide Step;
    var ps', rs', replies' := ps[..i + 1] + ps[i + 2..], rs[..i] + rs[i + 1..], replies[..i] + replies[i + 1..];
    MissedStep(ps[i], rs[i], ps[i + 1]);
    forall j | 0 <= j < |rs'| ensures Step(ps'[j], rs'[j], ps'[j + 1], replies'[j]) {
      var k := if j < i then j else j + 1;
      assert rs'[j] == rs[k] && replies'[j] == replies[k] && ps'[j + 1] == ps[k + 1];
      StepIgnoresTime(ps'[j], ps[k], rs[k], ps[k + 1], replies[k]);
    }
  }

  lemma MissedStep(p: Profile, r: Request, p': Profile)
    requires Step(p, r, p', Miss)
    ensures p' == p.(lastSeen := p'.lastSeen)
  {
    var seen: int :| Serves(p.(lastSeen := seen), r, p', Miss);
    MissLearnsNothing(p.(lastSeen := seen), r, p', Miss);
  }

  lemma StepIgnoresTime(p: Profile, q: Profile, r: Request, p': Profile, reply: Reply)
    requires q == p.(lastSeen := q.lastSeen)
    ensures Step(p, r, p', reply) <==> Step(q, r, p', reply)
  {
    hide Serves;
    assert forall seen: int :: p.(lastSeen := seen) == q.(lastSeen := seen);
  }

  /** A call for a new target drops a profile iff 2048 are kept already: one that was seen no later than any other. */
  lemma PrunesExactlyWhen(m: Profiles, target: string, p: Profile, m': Profiles)
    requires Stored(m, target, p, m')
    ensures target in m || |m| < 2048 ==> m' == m[target := p]
    ensures target !in m && |m| >= 2048 ==> exists k ::
      k in m[target := p] && m' == m[target := p] - {k}
      && forall t | t in m :: m[target := p][k].lastSeen <= m[t].lastSeen
  {
    if target !in m && |m| >= 2048 {
      var k :| IsOldest(m[target := p], k) && m' == m[target := p] - {k};
      assert forall t | t in m :: Seen(m[target := p][t]) == m[t].lastSeen;
    }
  }

  // ----- runs of the store ------------------------------------------------------------------

  /** Calls for any targets, in any order, with profiles coming and going. */
  ghost predicate StoreRun(ms: seq<Profiles>, cs: seq<Call>, replies: seq<Reply>) {
    && |ms| == |cs| + 1 && |replies| == |cs| && ms[0] == map[]
    && forall i | 0 <= i < |cs| :: StoreStep(ms[i], cs[i], ms[i + 1], replies[i])
  }

  ghost predicate StoreStep(m: Profiles, c: Call, m': Profiles, reply: Reply) {
    exists p :: StoreServes(m, c, p, m', reply)
  }

  lemma {:induction false} StoreRunIsUndecided(ms: seq<Profiles>, cs: seq<Call>, replies: seq<Reply>, n: nat)
    requires StoreRun(ms, cs, replies) && n <= |cs|
    ensures AllUndecided(ms[n])
  {
    hide Serves, Stored, Undecided;
    if n > 0 {
      StoreRunIsUndecided(ms, cs, replies, n - 1);
      assert StoreStep(ms[n - 1], cs[n - 1], ms[n], replies[n - 1]);
      var p :| StoreServes(ms[n - 1], cs[n - 1], p, ms[n], replies[n - 1]);
      var c := cs[n - 1];
      CurrentIsUndecided(ms[n - 1], c.target, c.session, c.now);
      ServesKeepsUndecided(Current(ms[n - 1], c.target, c.session, c.now), c.r, p, replies[n - 1]);
      StoredUndecided(ms[n - 1], c.target, p, ms[n]);
    }
  }

  /** The first call for a target starts from what its session remembers: a locked story is defended at once. */
  lemma SessionStartsTheStory(m: Profiles, c: Call, m': Profiles, reply: Reply)
    requires StoreStep(m, c, m', reply) && c.target !in m
    ensures c.session.story != "" && c.session.locked && c.r.candidate !in ["", c.session.story] ==>
      (c.session.story == "wordpress" && c.r.candidate in ["php", "generic-php"]) || reply == Miss
    ensures c.session.story == "" || !c.session.locked ==>
      c.r.management == None && c.r.surfaceAllowed && c.r.aliasAllowed && c.r.exposureAllowed ==>
      c.r.artifactAllowed ==> reply == Served(c.r.status)
  {
    hide Serves, Stored;
    var p :| StoreServes(m, c, p, m', reply);
    ServedExactlyWhen(Current(m, c.target, c.session, c.now), c.r, p, reply);
  }

  /** One call: what it does to a profile that is retained. */
  lemma StoreStepKeepsStory(m: Profiles, c: Call, m': Profiles, reply: Reply, t: string)
    requires StoreStep(m, c, m', reply) && AllUndecided(m) && t in m
    ensures t in m' && m[t].locked ==> m'[t].locked && m'[t].technology == m[t].technology
    ensures t in m' && m[t].cloud != "" ==> m'[t].cloud == m[t].cloud
    ensures c.target == t && m[t].locked && reply.Served? && c.r.candidate != "" ==>
      || m[t].technology == "" || c.r.candidate == m[t].technology
      || (m[t].technology == "wordpress" && c.r.candidate in ["php", "generic-php"])
    ensures c.target == t && m[t].cloud != "" && reply.Served? && c.r.cloud != "" ==> c.r.cloud == m[t].cloud
  {
    hide Serves, Undecided, IsOldest;
    var p :| StoreServes(m, c, p, m', reply);
    if c.target == t {
      assert Step(m[t], c.r, p, reply);
      StepKeepsStory(m[t], c.r, p, reply);
    }
  }

  /**
   * While a target's profile is retained, calls for it and for others, pruning
   * included, change neither its lock nor its cloud, and only what is compatible with
   * them is served.
   */
  lemma {:induction false} StoreRunKeepsStory(ms: seq<Profiles>, cs: seq<Call>, replies: seq<Reply>, t: string,
      i: nat, j: nat)
    requires StoreRun(ms, cs, replies) && i <= j <= |cs| && forall k | i <= k <= j :: t in ms[k]
    ensures ms[i][t].locked ==> ms[j][t].locked && ms[j][t].technology == ms[i][t].technology
    ensures ms[i][t].cloud != "" ==> ms[j][t].cloud == ms[i][t].cloud
    ensures j < |cs| && cs[j].target == t && replies[j].Served? && ms[i][t].locked && cs[j].r.candidate != "" ==>
      || ms[i][t].technology == "" || cs[j].r.candidate == ms[i][t].technology
      || (ms[i][t].technology == "wordpress" && cs[j].r.candidate in ["php", "generic-php"])
    ensures j < |cs| && cs[j].target == t && replies[j].Served? && ms[i][t].cloud != "" && cs[j].r.cloud != "" ==>
      cs[j].r.cloud == ms[i][t].cloud
    decreases j
  {
    hide StoreStep, AllUndecided;
    StoreRunIsUndecided(ms, cs, replies, j);
    if i < j {
      StoreRunKeepsStory(ms, cs, replies, t, i, j - 1);
      StoreRunIsUndecided(ms, cs, replies, j - 1);
      StoreStepKeepsStory(ms[j - 1], cs[j - 1], ms[j], replies[j - 1], t);
    }
    if j < |cs| {
      StoreStepKeepsStory(ms[j], cs[j], ms[j + 1], replies[j], t);
    }
  }
}
