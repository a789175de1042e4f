/** The bot as a state machine over values: the subscriber set and the number of
    texts drawn from the message cycle, changed by three kinds of event that run
    one after another — a /start command, a /stop command, and one tick of the
    reminder loop.

    A tick carries the clock reading (weekday and time of day) and the outcome of
    the outside world's send primitive: the set of ids whose send raises during
    this tick. */
module Machine {
  import opened Window
  import opened MessageCycle

  type UserId = int

  datatype State = State(subscribers: set<UserId>, drawn: nat)

  /** No subscribers, nothing drawn yet. */
  const Initial: State := State({}, 0)

  datatype Event =
    | StartCmd(uid: UserId)
    | StopCmd(uid: UserId)
    | Tick(day: Weekday, t: Micros, bounced: set<UserId>)

  /** The event is a tick that falls inside the active window. */
  predicate Fires(e: Event)
  {
    e.Tick? && InWindow(e.day, e.t)
  }

  /** The text an in-window tick sends from state `s`. */
  function TextOf(s: State): string
  {
    MessageFor(s.drawn)
  }

  /** The ids that get a send attempt when `e` happens in state `s`: the whole
      snapshot for an in-window tick, nobody otherwise. */
  function Recipients(s: State, e: Event): set<UserId>
  {
    if Fires(e) then s.subscribers else {}
  }

  /** /start adds the caller, /stop discards the caller, and an in-window tick
      draws one text and drops every snapshot id whose send raised. */
  function Apply(s: State, e: Event): State
  {
    match e
    case StartCmd(uid) => s.(subscribers := s.subscribers + {uid})
    case StopCmd(uid) => s.(subscribers := s.subscribers - {uid})
    case Tick(day, t, bounced) =>
      if InWindow(day, t) then State(s.subscribers - (s.subscribers * bounced), s.drawn + 1)
      else s
  }

  /** The state after the events `es`, in order. */
  function Run(s: State, es: seq<Event>): State
    decreases |es|
  {
    if es == [] then s else Apply(Run(s, es[..|es| - 1]), es[|es| - 1])
  }

  /** The number of in-window ticks among `es`. */
  function Firings(es: seq<Event>): nat
    decreases |es|
  {
    if es == [] then 0
    else Firings(es[..|es| - 1]) + (if Fires(es[|es| - 1]) then 1 else 0)
  }

  /** The ids that `es` starts. */
  function Started(es: seq<Event>): set<UserId>
  {
    set i | 0 <= i < |es| && es[i].StartCmd? :: es[i].uid
  }

  /** The subscriber count the health route reports. */
  function SubscriberCount(s: State): nat
  {
    |s.subscribers|
  }

  /** Extending a run by one event applies that event to the state reached. */
  lemma RunStep(s: State, es: seq<Event>, i: nat)
    requires i < |es|
    ensures Run(s, es[..i + 1]) == Apply(Run(s, es[..i]), es[i])
    ensures Firings(es[..i + 1]) == Firings(es[..i]) + (if Fires(es[i]) then 1 else 0)
  {
    assert es[..i + 1][..i] == es[..i];
  }

  /** /start leaves the caller subscribed, touches nobody else, and a second
      /start changes nothing. */
  lemma StartSubscribes(s: State, uid: UserId)
    ensures uid in Apply(s, StartCmd(uid)).subscribers
    ensures forall other :: other != uid ==>
      (other in Apply(s, StartCmd(uid)).subscribers <==> other in s.subscribers)
    ensures Apply(Apply(s, StartCmd(uid)), StartCmd(uid)) == Apply(s, StartCmd(uid))
    ensures Apply(s, StartCmd(uid)).drawn == s.drawn
  {
  }

  /** /stop leaves the caller unsubscribed, touches nobody else, is a no-op for
      an id that was never subscribed, and a second /stop changes nothing. */
  lemma StopUnsubscribes(s: State, uid: UserId)
    ensures uid !in Apply(s, StopCmd(uid)).subscribers
    ensures forall other :: other != uid ==>
      (other in Apply(s, StopCmd(uid)).subscribers <==> other in s.subscribers)
    ensures uid !in s.subscribers ==> Apply(s, StopCmd(uid)) == s
    ensures Apply(Apply(s, StopCmd(uid)), StopCmd(uid)) == Apply(s, StopCmd(uid))
  {
  }

  /** A tick outside the window sends to nobody, draws no text and leaves the
      subscribers alone. */
  lemma QuietTick(s: State, day: Weekday, t: Micros, bounced: set<UserId>)
    requires !InWindow(day, t)
    ensures Recipients(s, Tick(day, t, bounced)) == {}
    ensures Apply(s, Tick(day, t, bounced)) == s
  {
  }

  /** A tick inside the window draws exactly one text however many subscribers
      there are (none included), sends to the whole snapshot, and afterwards the
      subscribers are the snapshot minus the ids whose send raised: the ids that
      got through stay, and nobody is added. */
  lemma ActiveTick(s: State, day: Weekday, t: Micros, bounced: set<UserId>)
    requires InWindow(day, t)
    ensures Apply(s, Tick(day, t, bounced)).drawn == s.drawn + 1
    ensures Recipients(s, Tick(day, t, bounced)) == s.subscribers
    ensures forall id :: id in Apply(s, Tick(day, t, bounced)).subscribers <==>
      id in s.subscribers && id !in bounced
  {
  }

  /** The cycle position counts the in-window ticks and nothing else: /start,
      /stop and quiet ticks never advance it. */
  lemma {:induction false} DrawnCountsFirings(s: State, es: seq<Event>)
    ensures Run(s, es).drawn == s.drawn + Firings(es)
    decreases |es|
  {
    if es != [] {
      DrawnCountsFirings(s, es[..|es| - 1]);
    }
  }

  /** Round robin: the in-window tick that comes k-th (counting from 0) in a run
      from a fresh start sends the k-th text of the cycle, `Messages[k % 10]`. */
  lemma RoundRobin(es: seq<Event>, i: nat)
    requires i < |es| && Fires(es[i])
    ensures TextOf(Run(Initial, es[..i])) == Messages[Firings(es[..i]) % |Messages|]
  {
    DrawnCountsFirings(Initial, es[..i]);
  }

  /** Only /start adds subscribers: after any run, every subscriber was either
      subscribed before it or started during it. */
  lemma {:induction false} OnlyStartAdds(s: State, es: seq<Event>)
    ensures Run(s, es).subscribers <= s.subscribers + Started(es)
    decreases |es|
  {
    if es != [] {
      var init := es[..|es| - 1];
      OnlyStartAdds(s, init);
      assert Started(init) <= Started(es) by {
        forall id | id in Started(init) ensures id in Started(es) {
          var i :| 0 <= i < |init| && init[i].StartCmd? && init[i].uid == id;
          assert es[i] == init[i];
        }
      }
      var last := es[|es| - 1];
      if last.StartCmd? {
        assert last.uid in Started(es);
      }
    }
  }

  /** An id that is not subscribed and never starts during a run is sent
      nothing by any tick of the run; in particular, once /stop or a failed
      send removes it, it gets no reminder until it sends /start again. */
  lemma NeverSentWithoutStart(s: State, es: seq<Event>, uid: UserId, i: nat)
    requires uid !in s.subscribers && uid !in Started(es)
    requires i < |es|
    ensures uid !in Recipients(Run(s, es[..i]), es[i])
  {
    OnlyStartAdds(s, es[..i]);
    assert Started(es[..i]) <= Started(es) by {
      forall id | id in Started(es[..i]) ensures id in Started(es) {
        var j :| 0 <= j < i && es[..i][j].StartCmd? && es[..i][j].uid == id;
        assert es[j] == es[..i][j];
      }
    }
  }

  /** A subscriber whose send raises during an in-window tick is gone by the
      next tick, so the next tick sends it nothing. */
  lemma BouncedIsDropped(s: State, day: Weekday, t: Micros, bounced: set<UserId>, uid: UserId, next: Event)
    requires InWindow(day, t) && uid in bounced
    ensures uid !in Recipients(Apply(s, Tick(day, t, bounced)), next)
  {
  }

  /** The health count never grows across a tick, and moves by at most one
      across /start or /stop. */
  lemma CountAcrossEvents(s: State, e: Event)
    ensures e.Tick? ==> SubscriberCount(Apply(s, e)) <= SubscriberCount(s)
    ensures e.StartCmd? ==>
      SubscriberCount(Apply(s, e)) == SubscriberCount(s) + (if e.uid in s.subscribers then 0 else 1)
    ensures e.StopCmd? ==>
      SubscriberCount(Apply(s, e)) + (if e.uid in s.subscribers then 1 else 0) == SubscriberCount(s)
  {
    match e
    case Tick(day, t, bounced) =>
      if InWindow(day, t) {
        SubsetCount(s.subscribers - (s.subscribers * bounced), s.subscribers);
      }
    case StartCmd(uid) =>
      if uid !in s.subscribers {
        assert s.subscribers + {uid} - {uid} == s.subscribers;
      } else {
        assert s.subscribers + {uid} == s.subscribers;
      }
    case StopCmd(uid) =>
      if uid in s.subscribers {
        assert s.subscribers - {uid} + {uid} == s.subscribers;
      } else {
        assert s.subscribers - {uid} == s.subscribers;
      }
  }

  lemma {:induction false} SubsetCount<T>(a: set<T>, b: set<T>)
    requires a <= b
    ensures |a| <= |b|
    decreases b
  {
    if a != b {
      var x :| x in b && x !in a;
      SubsetCount(a, b - {x});
    }
  }
}
