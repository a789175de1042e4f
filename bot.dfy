/** The running bot: the in-memory subscriber set that /start and /stop change in
    place, the message iterator, one tick of the reminder loop, the loop itself
    over a finite run of clock readings, and the health route's report.

    Every state change is tied to the state machine: `Model()` gives the object's
    abstract value, and each handler's and loop method's new `Model()` is
    `Machine.Apply` (or `Machine.Run`) of the old one, so what is proved about the
    machine holds of the object. */
module Bot {
  import opened Window
  import opened MessageCycle
  import opened Machine

  /** One send attempt: the chat it goes to and the text it carries. */
  datatype Send = Send(chatId: UserId, text: string)

  /** What the health route returns. */
  datatype HealthReport = HealthReport(status: string, subscribers: nat, nextReminder: string)

  /** A reading the loop takes at the top of one iteration: the clock, and the
      ids whose send will raise if this iteration sends. */
  datatype Reading = Reading(day: Weekday, t: Micros, bounced: set<UserId>)

  function TickOf(r: Reading): Event
  {
    Event.Tick(r.day, r.t, r.bounced)
  }

  /** The events a run of loop iterations amounts to. */
  function TicksOf(rs: seq<Reading>): (es: seq<Event>)
    ensures |es| == |rs|
    ensures forall i :: 0 <= i < |rs| ==> es[i] == TickOf(rs[i])
  {
    seq(|rs|, i requires 0 <= i < |rs| => TickOf(rs[i]))
  }

  /** The chats a list of send attempts went to. */
  function ChatIds(attempts: seq<Send>): set<UserId>
  {
    set i | 0 <= i < |attempts| :: attempts[i].chatId
  }

  /** No chat got two attempts. */
  predicate OncePerChat(attempts: seq<Send>)
  {
    forall i, j :: 0 <= i < j < |attempts| ==> attempts[i].chatId != attempts[j].chatId
  }

  class EyeBot {
    var subscribers: set<UserId>
    /** Where the message iterator stands in the list. */
    var cursor: nat
    /** How many texts the iterator has yielded so far. */
    ghost var drawn: nat

    ghost predicate Valid()
      reads this
    {
      cursor == drawn % |Messages|
    }

    ghost function Model(): State
      reads this
    {
      State(subscribers, drawn)
    }

    /** A fresh process: nobody subscribed, the iterator at the first text. */
    constructor ()
      ensures Valid() && Model() == Initial
    {
      subscribers := {};
      cursor := 0;
      drawn := 0;
    }

    /** /start: add the caller's id. */
    method Start(uid: UserId)
      requires Valid()
      modifies this
      ensures Valid() && cursor == old(cursor)
      ensures Model() == Apply(old(Model()), StartCmd(uid))
    {
      subscribers := subscribers + {uid};
    }

    /** /stop: discard the caller's id, silently if it is absent. */
    method Stop(uid: UserId)
      requires Valid()
      modifies this
      ensures Valid() && cursor == old(cursor)
      ensures Model() == Apply(old(Model()), StopCmd(uid))
    {
      subscribers := subscribers - {uid};
    }

    /** One draw from the message iterator: the text at the cursor, after which
        the cursor moves on, wrapping after the last text. */
    method NextMessage() returns (text: string)
      requires Valid()
      modifies this
      ensures Valid() && subscribers == old(subscribers)
      ensures drawn == old(drawn) + 1
      ensures text == MessageFor(old(drawn))
    {
      text := Messages[cursor];
      AdvanceTracksDraws(drawn);
      cursor := Advance(cursor);
      drawn := drawn + 1;
    }

    /** One iteration of the reminder loop at the given clock reading, with
        `bounced` the ids whose send raises. Outside the window nothing happens.
        Inside it, one text is drawn; the subscriber set is snapshotted; every
        snapshot id gets exactly one attempt with that text, in some order; and
        every id whose attempt raised is discarded from the live set. */
    method Tick(day: Weekday, t: Micros, bounced: set<UserId>) returns (attempts: seq<Send>)
      requires Valid()
      modifies this
      ensures Valid()
      ensures Model() == Apply(old(Model()), Event.Tick(day, t, bounced))
      ensures ChatIds(attempts) == Recipients(old(Model()), Event.Tick(day, t, bounced))
      ensures OncePerChat(attempts) && |attempts| == |Recipients(old(Model()), Event.Tick(day, t, bounced))|
      ensures forall i :: 0 <= i < |attempts| ==> attempts[i].text == TextOf(old(Model()))
    {
      attempts := [];
      if InWindow(day, t) {
        var text := NextMessage();
        var snapshot := subscribers;
        var pending := snapshot;
        while pending != {}
          invariant Valid() && drawn == old(drawn) + 1
          invariant subscribers == snapshot - ((snapshot - pending) * bounced)
          invariant ChatIds(attempts) == snapshot - pending
          invariant OncePerChat(attempts)
          invariant forall i :: 0 <= i < |attempts| ==> attempts[i].text == text
          decreases pending
        {
          HasMember(pending);
          var id :| id in pending;
          ChatIdsAppend(attempts, Send(id, text));
          attempts := attempts + [Send(id, text)];
          if id in bounced {
            subscribers := subscribers - {id};
          }
          pending := pending - {id};
        }
      }
      OneAttemptEach(attempts);
    }

    /** The reminder loop over a finite run of readings, one tick per reading;
        the sleep between iterations is not modelled. */
    method ReminderLoop(readings: seq<Reading>) returns (log: seq<seq<Send>>)
      requires Valid()
      modifies this
      ensures Valid()
      ensures Model() == Run(old(Model()), TicksOf(readings))
      ensures |log| == |readings|
      ensures forall k :: 0 <= k < |readings| ==>
        var before := Run(old(Model()), TicksOf(readings)[..k]);
        ChatIds(log[k]) == Recipients(before, TicksOf(readings)[k]) && OncePerChat(log[k]) &&
        forall i :: 0 <= i < |log[k]| ==> log[k][i].text == TextOf(before)
    {
      var es := TicksOf(readings);
      log := [];
      var k := 0;
      while k < |readings|
        invariant 0 <= k <= |readings| && |log| == k
        invariant Valid()
        invariant Model() == Run(old(Model()), es[..k])
        invariant forall j :: 0 <= j < k ==>
          var before := Run(old(Model()), es[..j]);
          ChatIds(log[j]) == Recipients(before, es[j]) && OncePerChat(log[j]) &&
          forall i :: 0 <= i < |log[j]| ==> log[j][i].text == TextOf(before)
      {
        var r := readings[k];
        var attempts := Tick(r.day, r.t, r.bounced);
        RunStep(old(Model()), es, k);
        log := log + [attempts];
        k := k + 1;
      }
      assert es[..k] == es;
    }

    /** The health route: alive, with the current number of subscribers. */
    method Health() returns (report: HealthReport)
      ensures report.status == "alive"
      ensures report.subscribers == |subscribers|
      ensures report.subscribers == SubscriberCount(Model())
    {
      report := HealthReport("alive", |subscribers|, "\U{2264}20 min (Mon-Fri 09:00-18:00)");
    }
  }

  /** A non-empty set has a member to pick. */
  lemma HasMember(s: set<UserId>)
    requires s != {}
    ensures exists id :: id in s
  {
    if forall id :: id !in s {
      assert false;
    }
  }

  lemma ChatIdsAppend(attempts: seq<Send>, a: Send)
    ensures ChatIds(attempts + [a]) == ChatIds(attempts) + {a.chatId}
  {
    var all := attempts + [a];
    forall id | id in ChatIds(all) ensures id in ChatIds(attempts) + {a.chatId} {
      var i :| 0 <= i < |all| && all[i].chatId == id;
      if i < |attempts| { assert all[i] == attempts[i]; }
    }
    forall id | id in ChatIds(attempts) ensures id in ChatIds(all) {
      var i :| 0 <= i < |attempts| && attempts[i].chatId == id;
      assert all[i] == attempts[i];
    }
    assert all[|attempts|] == a;
  }

  /** Exactly one attempt per snapshot id: distinct chats whose set is the
      snapshot number as many attempts as the snapshot has ids. */
  lemma {:induction false} OneAttemptEach(attempts: seq<Send>)
    requires OncePerChat(attempts)
    ensures |ChatIds(attempts)| == |attempts|
    decreases |attempts|
  {
    if attempts != [] {
      var init := attempts[..|attempts| - 1];
      var last := attempts[|attempts| - 1].chatId;
      OneAttemptEach(init);
      assert ChatIds(attempts) == ChatIds(init) + {last} by {
        forall id | id in ChatIds(attempts) ensures id in ChatIds(init) + {last} {
          var i :| 0 <= i < |attempts| && attempts[i].chatId == id;
          if i < |attempts| - 1 { assert init[i] == attempts[i]; }
        }
      }
      assert last !in ChatIds(init);
    }
  }
}
