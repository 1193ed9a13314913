/**
 * Realtime fan-out: every publication is offered once to each subscriber's
 * bounded channel without ever blocking; a subscriber that fell behind gets a
 * `resync_required` marker as soon as there is room again.
 *
 * `NoSilentGap` is the safety property over whole runs, `PublicationIsTold` says what
 * each publication adds to a stream, `GapsAreAccounted` counts what markers stand for
 * and `LosslessExactlyWhen` says which runs lose nothing.
 */
module Realtime {
  const CHANNEL_CAPACITY := 128
  const MAX_SUBSCRIBERS := 24

  datatype Message = Update(at: int, body: string) | ResyncRequired(at: int)

  // ----- one subscriber as a value --------------------------------------------

  /** The channel and the flag, with everything ever received and published. */
  datatype Feed = Feed(queue: seq<Message>, missed: bool, taken: seq<Message>, log: seq<Message>) {
    /** All the subscriber has been or will be given, in order. */
    function Stream(): seq<Message> { taken + queue }
  }

  const EMPTY_FEED := Feed([], false, [], [])

  /** The turn of one subscriber in a publication. */
  function Offer(f: Feed, msg: Message): Feed {
    var g := f.(log := f.log + [msg]);
    var room := |f.queue| < CHANNEL_CAPACITY;
    if f.missed then
      if room then g.(queue := f.queue + [ResyncRequired(msg.at)], missed := false) else g
    else
      if room then g.(queue := f.queue + [msg]) else g.(missed := true)
  }

  /** One receive; on an empty channel the consumer waits and nothing changes. */
  function Consume(f: Feed): Feed {
    if f.queue == [] then f else f.(queue := f.queue[1..], taken := f.taken + [f.queue[0]])
  }

  datatype Event = Published(at: int, body: string) | Consumed

  function Next(f: Feed, e: Event): Feed {
    match e
    case Published(at, body) => Offer(f, Update(at, body))
    case Consumed => Consume(f)
  }

  /** The feed of a subscriber after any interleaving of publications and receives. */
  function Run(events: seq<Event>): Feed {
    if events == [] then EMPTY_FEED else Next(Run(events[..|events| - 1]), events[|events| - 1])
  }

  // ----- no silent gap --------------------------------------------------------

  /** The publication that put item `i` into the stream, or -1 before the first. */
  function Placed(pos: seq<nat>, i: nat): int
    requires i <= |pos|
  {
    if i == 0 then -1 else pos[i - 1]
  }

  /**
   * `pos` places every item of the stream at a publication: an update is the
   * publication right after its predecessor's, a marker was put in place of a
   * publication at least two further on.
   */
  ghost predicate Accounts(pos: seq<nat>, stream: seq<Message>, log: seq<Message>) {
    && |pos| == |stream|
    && (forall m | m in log :: m.Update?)
    && (forall i | 0 <= i < |stream| :: WellPlaced(pos, stream, log, i))
  }

  ghost predicate WellPlaced(pos: seq<nat>, stream: seq<Message>, log: seq<Message>, i: nat)
    requires i < |pos| == |stream|
  {
    pos[i] < |log| &&
    match stream[i]
    case Update(_, _) => stream[i] == log[pos[i]] && pos[i] == Placed(pos, i) + 1
    case ResyncRequired(at) => at == log[pos[i]].at && pos[i] >= Placed(pos, i) + 2
  }

  /** Publications since the last item are lost without a marker exactly while `missed` is up. */
  ghost predicate Explains(pos: seq<nat>, f: Feed) {
    Accounts(pos, f.Stream(), f.log) && (f.missed <==> Placed(pos, |pos|) + 1 < |f.log|)
  }

  ghost predicate NoGap(f: Feed) {
    |f.queue| <= CHANNEL_CAPACITY && exists pos :: Explains(pos, f)
  }

  lemma LogGrows(pos: seq<nat>, stream: seq<Message>, log: seq<Message>, msg: Message)
    requires Accounts(pos, stream, log) && msg.Update?
    ensures Accounts(pos, stream, log + [msg])
  {
    forall i | 0 <= i < |stream| ensures WellPlaced(pos, stream, log + [msg], i) {
      assert WellPlaced(pos, stream, log, i);
      assert (log + [msg])[pos[i]] == log[pos[i]];
    }
  }

  lemma ItemPlaced(pos: seq<nat>, stream: seq<Message>, log: seq<Message>, item: Message, p: nat)
    requires Accounts(pos, stream, log)
    requires WellPlaced(pos + [p], stream + [item], log, |stream|)
    ensures Accounts(pos + [p], stream + [item], log)
  {
    forall i | 0 <= i < |stream| ensures WellPlaced(pos + [p], stream + [item], log, i) {
      assert WellPlaced(pos, stream, log, i);
      assert (stream + [item])[i] == stream[i] && Placed(pos + [p], i) == Placed(pos, i);
    }
  }

  lemma OfferExplained(f: Feed, at: int, body: string, pos: seq<nat>) returns (pos': seq<nat>)
    requires Explains(pos, f)
    ensures Explains(pos', Offer(f, Update(at, body)))
  {
    hide Accounts;
    var msg, n := Update(at, body), |f.log|;
    var g := Offer(f, msg);
    LogGrows(pos, f.Stream(), f.log, msg);
    LastIsInLog(pos, f.Stream(), f.log);
    if |f.queue| < CHANNEL_CAPACITY {
      var item := if f.missed then ResyncRequired(at) else msg;
      assert g.Stream() == f.Stream() + [item];
      pos' := pos + [n];
      assert g.log[n] == msg && Placed(pos', |pos|) == Placed(pos, |pos|);
      ItemPlaced(pos, f.Stream(), g.log, item, n);
    } else {
      pos' := pos;
    }
  }

  lemma LastIsInLog(pos: seq<nat>, stream: seq<Message>, log: seq<Message>)
    requires Accounts(pos, stream, log)
    ensures Placed(pos, |pos|) < |log|
  {
    if |pos| > 0 { assert WellPlaced(pos, stream, log, |pos| - 1); }
  }

  lemma OfferKeepsNoGap(f: Feed, at: int, body: string)
    requires NoGap(f)
    ensures NoGap(Offer(f, Update(at, body)))
  {
    hide Explains;
    var pos :| Explains(pos, f);
    var pos' := OfferExplained(f, at, body, pos);
  }

  lemma ConsumeKeepsNoGap(f: Feed)
    requires NoGap(f)
    ensures NoGap(Consume(f))
  {
    hide Accounts;
    assert Consume(f).Stream() == f.Stream();
    var pos :| Explains(pos, f);
    assert Explains(pos, Consume(f));
  }

  /** Every run, however publications and receives interleave. */
  lemma {:induction false} NoSilentGap(events: seq<Event>)
    ensures NoGap(Run(events))
  {
    hide Explains;
    if events == [] {
      EmptyHasNoGap();
    } else {
      var before := events[..|events| - 1];
      NoSilentGap(before);
      match events[|events| - 1]
      case Published(at, body) => OfferKeepsNoGap(Run(before), at, body);
      case Consumed => ConsumeKeepsNoGap(Run(before));
    }
  }

  lemma EmptyHasNoGap()
    ensures NoGap(EMPTY_FEED)
  {
    assert Explains([], EMPTY_FEED);
  }

  /** Two updates side by side in a stream are consecutive publications. */
  lemma NeighboursAreConsecutive(events: seq<Event>, i: nat)
    requires var s := Run(events).Stream(); i + 1 < |s| && s[i].Update? && s[i + 1].Update?
    ensures var f := Run(events);
      exists p | 0 <= p < |f.log| - 1 :: f.log[p] == f.Stream()[i] && f.log[p + 1] == f.Stream()[i + 1]
  {
    NoSilentGap(events);
    var f := Run(events);
    var pos :| Explains(pos, f);
    assert WellPlaced(pos, f.Stream(), f.log, i) && WellPlaced(pos, f.Stream(), f.log, i + 1);
    assert pos[i + 1] == Placed(pos, i + 1) + 1 == pos[i] + 1;
  }

  // ----- who is told what -------------------------------------------------------

  /** The last publication of the run met a full channel. */
  predicate LastMetFull(events: seq<Event>) {
    events != [] &&
    var before := events[..|events| - 1];
    if events[|events| - 1].Published? then |Run(before).queue| == CHANNEL_CAPACITY else LastMetFull(before)
  }

  /** The flag is up exactly while the subscriber has to be told of a loss. */
  lemma {:induction false} MissedExactlyWhen(events: seq<Event>)
    ensures Run(events).missed <==> LastMetFull(events)
  {
    hide NoGap;
    if events != [] {
      var before := events[..|events| - 1];
      MissedExactlyWhen(before);
      NoSilentGap(before);
      QueueFits(Run(before));
    }
  }

  /**
   * With room in the channel a publication extends the stream by one item: the
   * marker iff the publication before it met a full channel, and the update
   * otherwise. Without room it extends nothing, and the next one with room is the
   * marker.
   */
  lemma PublicationIsTold(events: seq<Event>, at: int, body: string)
    ensures var f, g := Run(events), Run(events + [Published(at, body)]);
      && g.log == f.log + [Update(at, body)] && g.taken == f.taken
      && g.missed == (|f.queue| == 128)
      && g.queue == if |f.queue| == 128 then f.queue
           else f.queue + [if LastMetFull(events) then ResyncRequired(at) else Update(at, body)]
  {
    hide NoGap;
    MissedExactlyWhen(events);
    NoSilentGap(events);
    QueueFits(Run(events));
    assert (events + [Published(at, body)])[..|events|] == events;
  }

  /** A receive takes the oldest item of the channel, if there is one, and changes nothing else. */
  lemma ReceiveTakesTheOldest(events: seq<Event>)
    ensures var f, g := Run(events), Run(events + [Consumed]);
      && g.log == f.log && g.missed == f.missed && g.Stream() == f.Stream()
      && |g.taken| == |f.taken| + if f.queue == [] then 0 else 1
  {
    assert (events + [Consumed])[..|events|] == events;
  }

  /** A subscriber that fell behind is told as soon as it has received one item. */
  lemma FallenBehindIsTold(events: seq<Event>, lost: seq<Event>, at: int, body: string)
    requires lost != [] && forall e | e in lost :: e.Published?
    requires |Run(events).queue| == 128
    ensures var g := Run(events + lost + [Consumed] + [Published(at, body)]);
      !g.missed && |g.queue| == 128 && g.queue[127] == ResyncRequired(at)
  {
    var full := events + lost;
    LostInFull(events, lost);
    ReceiveTakesTheOldest(full);
    assert (full + [Consumed])[..|full|] == full;
    PublicationIsTold(full + [Consumed], at, body);
  }

  lemma {:induction false} LostInFull(events: seq<Event>, lost: seq<Event>)
    requires (forall e | e in lost :: e.Published?) && |Run(events).queue| == 128
    ensures Run(events + lost).queue == Run(events).queue
    ensures lost != [] ==> LastMetFull(events + lost)
  {
    if lost == [] {
      assert events + lost == events;
    } else {
      var front, e := lost[..|lost| - 1], lost[|lost| - 1];
      assert e in lost;
      LostInFull(events, front);
      assert (events + lost)[..|events + lost| - 1] == events + front;
      assert events + lost == events + front + [e];
      PublicationIsTold(events + front, e.at, e.body);
    }
  }

  // ----- conservation ---------------------------------------------------------

  function Updates(s: seq<Message>): (n: nat)
    ensures n <= |s|
  {
    if s == [] then 0 else Updates(s[..|s| - 1]) + if s[|s| - 1].Update? then 1 else 0
  }

  function Markers(s: seq<Message>): nat {
    |s| - Updates(s)
  }

  lemma {:induction false} CountPlaced(pos: seq<nat>, stream: seq<Message>, log: seq<Message>, n: nat)
    requires Accounts(pos, stream, log) && n <= |stream|
    ensures Updates(stream[..n]) + 2 * Markers(stream[..n]) <= Placed(pos, n) + 1
  {
    if n > 0 {
      CountPlaced(pos, stream, log, n - 1);
      assert stream[..n][..n - 1] == stream[..n - 1];
      assert WellPlaced(pos, stream, log, n - 1);
    }
  }

  /** Each marker stands for at least two publications that were not delivered. */
  lemma GapsAreAccounted(events: seq<Event>)
    ensures var f := Run(events);
      |f.log| - Updates(f.Stream()) >= 2 * Markers(f.Stream()) + if f.missed then 1 else 0
  {
    NoSilentGap(events);
    var f := Run(events);
    var pos :| Explains(pos, f);
    CountPlaced(pos, f.Stream(), f.log, |pos|);
    assert f.Stream()[..|pos|] == f.Stream();
    LastIsInLog(pos, f.Stream(), f.log);
  }

  /** Some publication of the run met a full channel. */
  predicate Overflowed(events: seq<Event>) {
    events != [] &&
    var before := events[..|events| - 1];
    Overflowed(before) || (events[|events| - 1].Published? && |Run(before).queue| == CHANNEL_CAPACITY)
  }

  /** Nothing lost so far, and no marker was needed. */
  ghost predicate Lossless(f: Feed) {
    !f.missed && f.Stream() == f.log
  }

  lemma OfferLossless(f: Feed, at: int, body: string)
    requires NoGap(f)
    ensures Lossless(Offer(f, Update(at, body))) <==> Lossless(f) && |f.queue| < CHANNEL_CAPACITY
  {
    hide NoGap;
    var msg := Update(at, body);
    var g := Offer(f, msg);
    StreamWithinLog(f);
    if f.missed && |f.queue| < CHANNEL_CAPACITY {
      assert g.Stream()[|f.Stream()|] == ResyncRequired(at);
      assert |f.Stream()| < |f.log|;
      assert |g.Stream()| < |g.log|;
    } else if !f.missed && |f.queue| < CHANNEL_CAPACITY {
      assert g.Stream() == f.Stream() + [msg];
      if g.Stream() == g.log { assert f.Stream() == g.Stream()[..|f.Stream()|] == g.log[..|f.log|] == f.log; }
    }
  }

  lemma StreamWithinLog(f: Feed)
    requires NoGap(f)
    ensures |f.Stream()| <= |f.log| && (f.missed ==> |f.Stream()| < |f.log|)
  {
    var pos :| Explains(pos, f);
    CountPlaced(pos, f.Stream(), f.log, |pos|);
    assert f.Stream()[..|pos|] == f.Stream();
    LastIsInLog(pos, f.Stream(), f.log);
  }

  /** A run delivers exactly what was published iff no publication met a full channel. */
  lemma {:induction false} LosslessExactlyWhen(events: seq<Event>)
    ensures Lossless(Run(events)) <==> !Overflowed(events)
    ensures Run(events).Stream() == Run(events).log <==> !Overflowed(events)
  {
    hide NoGap;
    NoSilentGap(events);
    StreamWithinLog(Run(events));
    if events != [] {
      var before := events[..|events| - 1];
      NoSilentGap(before);
      LosslessExactlyWhen(before);
      QueueFits(Run(before));
      match events[|events| - 1]
      case Published(at, body) => OfferLossless(Run(before), at, body);
      case Consumed => assert Consume(Run(before)).Stream() == Run(before).Stream();
    }
  }

  lemma QueueFits(f: Feed)
    requires NoGap(f)
    ensures |f.queue| <= CHANNEL_CAPACITY
  {}

  // ----- the store ------------------------------------------------------------

  class Subscriber {
    var ch: seq<Message>
    var missed: bool
    var closed: bool
    ghost var taken: seq<Message>
    ghost var log: seq<Message>

    ghost function View(): Feed
      reads this
    {
      Feed(ch, missed, taken, log)
    }

    constructor ()
      ensures View() == EMPTY_FEED && !closed
    {
      ch, missed, closed, taken, log := [], false, false, [], [];
    }

    /** A non-blocking send; sending on a closed channel would panic. */
    method TrySend(msg: Message) returns (sent: bool)
      requires !closed
      modifies this`ch
      ensures sent == (|old(ch)| < CHANNEL_CAPACITY)
      ensures ch == if sent then old(ch) + [msg] else old(ch)
    {
      sent := |ch| < CHANNEL_CAPACITY;
      if sent { ch := ch + [msg]; }
    }

    /** This subscriber's turn in a publication. */
    method Offered(at: int, body: string)
      requires !closed
      modifies this`ch, this`missed, this`log
      ensures View() == Offer(old(View()), Update(at, body))
      ensures missed == (|old(ch)| >= CHANNEL_CAPACITY)
      ensures ch == if |old(ch)| >= CHANNEL_CAPACITY then old(ch)
        else old(ch) + [if old(missed) then ResyncRequired(at) else Update(at, body)]
    {
      var msg := Update(at, body);
      log := log + [msg];
      if missed {
        var sent := TrySend(ResyncRequired(at));
        if sent { missed := false; }
        return;
      }
      var sent := TrySend(msg);
      if !sent { missed := true; }
    }

    /** Closing a closed channel would panic. */
    method Close()
      requires !closed
      modifies this`closed
      ensures closed
    {
      closed := true;
    }

    /** The consumer's side; a closed channel can still be drained. */
    method Receive() returns (msg: seq<Message>)
      modifies this`ch, this`taken
      ensures View() == Consume(old(View()))
      ensures NoGap(old(View())) ==> NoGap(View())
      ensures msg == if old(ch) == [] then [] else [old(ch)[0]]
    {
      hide NoGap;
      ghost var before := View();
      if NoGap(before) { ConsumeKeepsNoGap(before); }
      if ch == [] { return []; }
      msg := [ch[0]];
      taken := taken + msg;
      ch := ch[1..];
    }
  }

  class Store {
    var realtimeSubs: set<Subscriber>
    var rejected: nat

    /** No closed channel is subscribed, so none is ever sent to or closed again. */
    ghost predicate Valid()
      reads this, realtimeSubs
    {
      && |realtimeSubs| <= MAX_SUBSCRIBERS
      && forall s | s in realtimeSubs :: !s.closed && NoGap(s.View())
    }

    constructor ()
      ensures Valid() && realtimeSubs == {}
    {
      realtimeSubs, rejected := {}, 0;
    }

    method PublishRealtimeLocked(at: int, body: string)
      requires Valid()
      modifies realtimeSubs
      ensures Valid() && realtimeSubs == old(realtimeSubs)
      ensures forall s | s in realtimeSubs :: s.View() == Offer(old(s.View()), Update(at, body))
    {
      hide NoGap, Offer;
      ghost var msg := Update(at, body);
      var todo := realtimeSubs;
      while todo != {}
        invariant todo <= realtimeSubs
        invariant forall s | s in realtimeSubs :: !s.closed
        invariant forall s | s in todo :: s.View() == old(s.View())
        invariant forall s | s in realtimeSubs - todo :: s.View() == Offer(old(s.View()), msg)
        decreases |todo|
      {
        var sub :| sub in todo;
        todo := todo - {sub};
        sub.Offered(at, body);
      }
      forall s | s in realtimeSubs ensures NoGap(s.View()) {
        OfferKeepsNoGap(old(s.View()), at, body);
      }
    }

    method SubscribeRealtime() returns (sub: Subscriber, ok: bool)
      requires Valid()
      modifies this
      ensures Valid() && fresh(sub)
      ensures ok == (|old(realtimeSubs)| < 24)
      ensures realtimeSubs == if ok then old(realtimeSubs) + {sub} else old(realtimeSubs)
      ensures rejected == if ok then old(rejected) else old(rejected) + 1
      ensures sub.View() == EMPTY_FEED
    {
      sub := new Subscriber();
      if |realtimeSubs| >= MAX_SUBSCRIBERS {
        rejected := rejected + 1;
        return sub, false;
      }
      realtimeSubs := realtimeSubs + {sub};
      ok := true;
      EmptyHasNoGap();
    }

    /** The closure handed out by `SubscribeRealtime`; calling it again does nothing. */
    method Cancel(sub: Subscriber)
      requires Valid()
      modifies this`realtimeSubs, sub`closed
      ensures Valid() && realtimeSubs == old(realtimeSubs) - {sub}
      ensures sub.closed == (old(sub.closed) || sub in old(realtimeSubs))
    {
      if sub in realtimeSubs {
        realtimeSubs := realtimeSubs - {sub};
        sub.Close();
      }
    }
  }
}
