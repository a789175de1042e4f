# Eye-rest reminder bot — a verified model of its reminder logic

The bot keeps an in-memory set of subscribed chat user ids. `/start` adds the
caller's id and `/stop` discards it. A background loop wakes every twenty
minutes. When the local time falls in the active window (Monday to Friday,
09:00–18:00 inclusive, outside the 13:00–14:00 lunch hour), it takes the next
text from an endless round-robin over ten fixed reminder messages. It then sends
that text once to every id in a snapshot of the subscriber set, and discards
every id whose send raised. A health route reports the number of subscribers.

The model has five modules:

- `Arith` (`arith.dfy`): the facts about multiplication and Euclidean division
  that the clock and the message cursor rest on.
- `Window` (`window.dfy`): the active-window predicate on a weekday (Monday = 0)
  and a time of day in microseconds since midnight. It also models the
  loop's own reading, which compares `time` values field by field. A lemma shows
  that both readings decide the same thing.
- `MessageCycle` (`messages.dfy`): the ten texts, and the cycling iterator as a
  cursor that wraps after the last text.
- `Machine` (`machine.dfy`): the bot as a state machine over values. The state
  is the subscriber set and the number of texts drawn so far. The events are
  `/start`, `/stop` and one loop tick. A tick carries the clock reading and the
  ids whose send raises. Most properties are proved here, including properties
  of whole runs of events.
- `Bot` (`bot.dfy`): class `EyeBot`. It holds the subscriber set and the
  iterator cursor as fields that its methods update in place. It has one method
  per handler, a tick method that loops over the snapshot, the loop over a
  finite run of clock readings, and the health report. The `ensures` of each
  handler and loop method equates the object's new abstract state with
  `Machine.Apply` or `Machine.Run` of the old one. So the machine lemmas hold of
  the object.

The outside world enters only as parameters. The clock is a weekday plus a
microsecond time of day. The messaging platform's send primitive is the set of
ids whose send raises during that tick. Handlers and ticks run one after another.

## Model

| member | source | states |
|---|---|---|
| `Window.InWindow` | bot.py:84-88 | Reminders may go out exactly on weekdays 0–4, in [09:00, 13:00) or [14:00, 18:00]. This is the source's three-part test restated as two intervals. |
| `Window.WindowEdges` | bot.py:84-88 | Saturday and Sunday are outside the window. 08:59:59.999999 is outside and 09:00 inside. 12:59:59.999999 is inside. 13:00 and 13:59:59.999999 are outside, 14:00 is inside. 18:00:00.000000 is inside and 18:00:00.000001 outside. |
| `Window.CompareMatchesMicros` | bot.py:86-87 | Comparing valid `time` values field by field agrees with comparing their microsecond counts, for both `<` and `==`. |
| `Window.ActiveAtMatchesInWindow` | bot.py:84-88 | For a valid time, the window as the loop writes it on `time` values decides the same as `InWindow` on its microsecond count. |
| `Window.FromMicros` | bot.py:86 | Every microsecond count in a day splits into a valid hour/minute/second/microsecond time that converts back to the same count. |
| `Window.ActiveAtFromMicros` | bot.py:84-88 | For every clock value, the loop's field-by-field `time` test on that value decides the same as `InWindow` on its microsecond count. |
| `MessageCycle.Advance` | bot.py:45 | The iterator's next position is `(cursor + 1) mod 10` and stays inside the list. |
| `MessageCycle.AdvanceTracksDraws` | bot.py:45 | A cursor at `k mod 10` after `k` draws is at `(k + 1) mod 10` after one more, so the cursor never drifts from the draw count. |
| `MessageCycle.CyclePeriod` | bot.py:33-45 | The cycle repeats every ten draws. |
| `MessageCycle.CycleReaches` | bot.py:33-45 | Any ten consecutive draws include every one of the ten texts. |
| `Machine.StartSubscribes` | bot.py:56-58 | After `/start` the caller is subscribed. Nobody else and no cycle position changes. A second `/start` changes nothing. |
| `Machine.StopUnsubscribes` | bot.py:68-70 | After `/stop` the caller is absent and nobody else changes. It is a silent no-op for an id that was never subscribed. A second `/stop` changes nothing. |
| `Machine.QuietTick` | bot.py:84-97 | A tick outside the window has no recipients and leaves the state unchanged. No text is drawn and no subscriber changes. |
| `Machine.ActiveTick` | bot.py:89-95 | A tick inside the window draws exactly one text, whatever the number of subscribers (including zero). It addresses the whole snapshot. Afterwards an id is subscribed iff it was in the snapshot and its send did not raise. |
| `Machine.DrawnCountsFirings` | bot.py:82-89 | Over any run of events, the cycle advances by exactly the number of in-window ticks. |
| `Machine.RoundRobin` | bot.py:89 | From a fresh start, the k-th in-window tick (counting from 0) sends `Messages[k mod 10]`. |
| `Machine.OnlyStartAdds` | bot.py:56-95 | After any run, each subscriber was subscribed before the run or sent `/start` during it. Ticks and `/stop` never add anyone. |
| `Machine.NeverSentWithoutStart` | bot.py:90-95 | An id that is not subscribed and never sends `/start` is addressed by no tick of the run. This holds after `/stop` and after a failed send. |
| `Machine.BouncedIsDropped` | bot.py:93-95 | An id whose send raised in an in-window tick is not addressed by the next event. |
| `Machine.CountAcrossEvents` | bot.py:134 | The reported subscriber count never grows across a tick. It grows by one across `/start` of a new id and shrinks by one across `/stop` of a subscribed id. Otherwise it stays the same. |
| `Bot.EyeBot.constructor` | bot.py:45-50 | A fresh process has no subscribers and its iterator at the first text. |
| `Bot.EyeBot.Start` | bot.py:56-58 | The handler adds the id to the live set in place. The new state is `Apply(old, StartCmd(id))`. |
| `Bot.EyeBot.Stop` | bot.py:68-70 | The handler discards the id from the live set in place. The new state is `Apply(old, StopCmd(id))`. |
| `Bot.EyeBot.NextMessage` | bot.py:89 | One `next()` returns the text for the current draw count, then moves the cursor on with wrap-around. The subscribers do not change. |
| `Bot.EyeBot.Tick` | bot.py:84-95 | One loop iteration gives the new state `Apply(old, Tick(...))`. The ids attempted are exactly the recipients, each once, so there are as many attempts as snapshot ids. Every attempt carries the same text, the one for the old draw count. |
| `Bot.EyeBot.ReminderLoop` | bot.py:81-97 | Looping over a run of clock readings gives `Run(old, ticks)`. It keeps one attempt log per iteration. Iteration k addresses exactly the recipients of the k-th tick in the state reached after the earlier ticks, each chat once. Every attempt in that iteration carries that state's text. |
| `Bot.EyeBot.Health` | bot.py:129-136 | The health report says `alive`, and its subscriber count is the current size of the subscriber set. |
| `Bot.OneAttemptEach` | bot.py:90-92 | Attempts that never repeat a chat number exactly as many as the distinct chats they address. |

## Left out

- The database module: it is SQL I/O that the bot never calls. There is no persistence, reconciliation at restart, or skip counter in the bot, so none is modelled.
- Telegram plumbing: building the application, polling, registering handlers, the acknowledgement replies and keyboards. These are foreign library calls. A send is modelled only through its outcome, the per-tick set of ids whose send raises.
- The logging of a failed send: it only prints. The kind of exception does not matter, since every exception discards the id.
- The two `lifespan` definitions and the FastAPI/uvicorn wiring: these are bootstrap and web plumbing. The app is built with the first definition; the second only rebinds the name afterwards. Neither changes the model.
- Reading the clock in the Asia/Nicosia timezone and the twenty-minute sleep: the weekday and microsecond time of day are inputs to each tick instead. `ReminderLoop` runs over a finite list of readings rather than forever.
- Concurrency between handlers and the loop: handlers and ticks are modelled as sequential operations. The loop's snapshot is a value copy, so the model does not capture a `/start` or `/stop` that lands in the middle of a tick's sends.
- The order of sends within a tick: Python iterates the set in an unspecified order. `Tick` picks the next id arbitrarily and promises only that every snapshot id is attempted exactly once.
- The startup check that the bot token is set: this is configuration I/O.
- Bot.EyeBot.Health: the fixed `next_reminder` hint string is returned but not stated in the contract.
