# Space effect animation scheduler

A Dafny model of the face effect "Space" (`app/src/main/assets/effects/Space/config.js`).
The effect keeps a mesh table. Each record has a mesh file, an ordered list of
animations (a name and a duration in milliseconds), and two runtime fields:
`animIdx`, the animation now playing, and `endTime`, the wall-clock time from which the
record is due again. `init` seeds the runtime fields with `-1` and `0` and makes
`play` the only face action. Every frame `play` walks the table in order. Each record whose
`endTime` has passed moves round-robin to its next animation. The renderer is sent one
`animOnce` message for it, and its deadline becomes the current time plus that
animation's duration. `restart` runs `init` again.

Layout:

- `schedule.dfy`, module `SpaceSchedule`, holds the value-level model:
  - the record types (`Anim`, `Schedule`, `Mesh`) and the message type `Message`;
  - JavaScript's `%` (`JsRem`);
  - one record's step (`Advance`), the table after a tick (`Tick`) and the messages a tick sends (`Messages`);
  - the table after `init` (`Reset`) and a sequence of ticks (`Run`);
  - the lemmas about all of these.
- `effect.dfy`, module `SpaceEffect`, holds the class `Effect`:
  - the mesh table is an `array<Mesh>` that `Init` and `Play` update in place, slot by slot;
  - the action lists are fields;
  - the `animOnce` messages sent so far are the field `sent`;
  - `Play` and `Init` are loops, proved against `Tick`/`Messages` and `Reset`.

Modelling decisions:

- The wall-clock time (`new Date().getTime()`) is the parameter `now` of `Play`.
- Before `init` the runtime fields do not exist in the source. The model writes this as `Unscheduled`. In JavaScript `now > undefined` is false, so a tick before `init` changes nothing and sends nothing. The model does the same, because `Due` is false for an unscheduled record. No precondition forbids calling `Play` first.
- The table invariant `Valid()` says three things about every record: it has at least one animation, no duration is negative, and a scheduled `animIdx` lies in `-1 .. anims.length - 1`. The shipped table meets it (`ShippedTableWellFormed`). `Init`, `Play` and `Restart` keep it.
- `PlayMesh` sets a due record's fields in the source's order (index, then message, then deadline) on a copy of the record and stores the copy back into its array slot once. No other code can observe the record between these steps, so the result is the same as writing the fields one by one.
- `(animIdx + 1) % anims.length` is written with `JsRem`, the truncating remainder of JavaScript. On the non-negative dividends that occur it equals Dafny's Euclidean `%`.
- `Emitted` (one record) and `Messages` (one tick) model the `meshfxMsg("animOnce", i, 0, name)` calls. Their own contracts only bound the messages. What the messages are is stated by `EmittedNamesNewAnim`, `MessagesSound`, `MessagesOrdered` and `MessagesComplete`. `AnimOnce(i, name)` stands for the call; its command string and constant `0` argument are fixed and not stored.

## Model

| member | source | states |
|---|---|---|
| SpaceSchedule.JsRem | app/src/main/assets/effects/Space/config.js:14 | the remainder has the sign of the dividend, is smaller in size than the divisor, and completes the truncating quotient: `a == TruncDiv(a, b) * b + r` |
| SpaceSchedule.JsRemOfNatural | app/src/main/assets/effects/Space/config.js:14 | for a non-negative dividend and a positive divisor, JavaScript's `%` equals the Euclidean `%` |
| SpaceSchedule.Due | app/src/main/assets/effects/Space/config.js:13 | the guard `now > endTime`; a record not yet scheduled by `init` (undefined `endTime` in the source, where the comparison is false) is never due |
| SpaceSchedule.NextIndex | app/src/main/assets/effects/Space/config.js:14 | the new index is `(animIdx + 1) % anims.length`; it is a valid position; from the last index it wraps to 0; otherwise it is `animIdx + 1` |
| SpaceSchedule.Advance | app/src/main/assets/effects/Space/config.js:13-16 | the file and animations are unchanged; the invariant is kept; a due record ends up playing a valid animation; afterwards the record is not due at the same `now`; a record that is not due is unchanged |
| SpaceSchedule.AdvanceRoundRobin | app/src/main/assets/effects/Space/config.js:14-16 | for a due record, `animIdx' == (animIdx + 1) % anims.length` (0 after the last index) and `endTime' == now + anims[animIdx'].t` |
| SpaceSchedule.Tick | app/src/main/assets/effects/Space/config.js:12-18 | the tick keeps the number of records, and record `i` of the new table is record `i` of the old one advanced at `now` |
| SpaceSchedule.TickWellFormed | app/src/main/assets/effects/Space/config.js:12-17 | a tick keeps the table invariant and changes no record's file or animation list |
| SpaceSchedule.TickLeavesIdle | app/src/main/assets/effects/Space/config.js:13 | a record with `now <= endTime`, or with no schedule yet, keeps all its fields |
| SpaceSchedule.Emitted | app/src/main/assets/effects/Space/config.js:15 | the `meshfxMsg("animOnce", i, 0, …)` call of one loop iteration: at most one message, exactly one when the record is due, always for record `i`; the name it carries is stated by `EmittedNamesNewAnim` |
| SpaceSchedule.EmittedNamesNewAnim | app/src/main/assets/effects/Space/config.js:15 | the message for a due record names the animation it now plays (read after the index update); a record that is not due sends nothing |
| SpaceSchedule.Messages | app/src/main/assets/effects/Space/config.js:12-15 | the messages of one tick, in loop order: no more than there are records, each for an existing record; their exact content is stated by `MessagesSound`, `MessagesOrdered` and `MessagesComplete` |
| SpaceSchedule.MessagesSound | app/src/main/assets/effects/Space/config.js:12-15 | every message of a tick is for an existing record that was due, and carries that record's new animation name |
| SpaceSchedule.MessagesOrdered | app/src/main/assets/effects/Space/config.js:12-15 | a tick's messages carry strictly increasing record positions, so there is at most one per record |
| SpaceSchedule.MessagesComplete | app/src/main/assets/effects/Space/config.js:12-15 | every due record gets a message in the tick |
| SpaceSchedule.NoMessageForIdle | app/src/main/assets/effects/Space/config.js:13-15 | a record that is not due gets no message |
| SpaceSchedule.NothingDue | app/src/main/assets/effects/Space/config.js:12-18 | if no record is due, a tick leaves the table as it is and sends nothing |
| SpaceSchedule.TickIdempotent | app/src/main/assets/effects/Space/config.js:13-16 | with non-negative durations, a second tick at the same `now` changes nothing and sends nothing |
| SpaceSchedule.Reset | app/src/main/assets/effects/Space/config.js:33-36 | `init` keeps every record's file and animation list and sets every record to `animIdx == -1`, `endTime == 0` |
| SpaceSchedule.ResetWellFormed | app/src/main/assets/effects/Space/config.js:33-36 | the table after `init` meets the invariant |
| SpaceSchedule.ResetDependsOnLayout | app/src/main/assets/effects/Space/config.js:33-36 | the table after `init` depends only on the files and animation lists, not on earlier runtime fields |
| SpaceSchedule.Run | app/src/main/assets/effects/Space/config.js:10-18 | repeated `play` calls at the given times, in order: the table keeps the invariant and every record keeps its file and animation list |
| SpaceSchedule.RestartAfterRun | app/src/main/assets/effects/Space/config.js:45-50 | after any sequence of ticks, `restart` gives exactly the table the first `init` gave, and the invariant still holds |
| SpaceSchedule.FirstTickAfterInit | app/src/main/assets/effects/Space/config.js:10-36 | the first tick after `init` at a time after 0 sets every record to animation 0, due again after that animation's duration |
| SpaceSchedule.FirstTickMessages | app/src/main/assets/effects/Space/config.js:10-36 | that first tick sends exactly one message per record, in table order, naming each record's first animation |
| SpaceSchedule.ShippedTableWellFormed | app/src/main/assets/effects/Space/config.js:4-8 | the shipped table (`BeautyFace.bsm2` with one animation `static` of duration 0) meets the invariant |
| SpaceSchedule.ShippedTableReplays | app/src/main/assets/effects/Space/config.js:4-16 | with the shipped table, the first tick after `init` sends `animOnce(0, "static")`, a next tick at a later time sends it again, and a third tick back at the first time sends nothing |
| SpaceEffect.Effect.constructor | app/src/main/assets/effects/Space/config.js:1-58 | a new effect holds the shipped table with no runtime fields; its face, no-face and recording action lists are empty, except the discard list, which is `[restart]` |
| SpaceEffect.Effect.Play | app/src/main/assets/effects/Space/config.js:10-18 | the in-place loop leaves the table equal to `Tick` of the old table and appends `Messages` of the old table to the sent messages; nothing else changes |
| SpaceEffect.Effect.PlayMesh | app/src/main/assets/effects/Space/config.js:13-17 | one iteration of the tick loop, written in the source's order (index, message, deadline): record `i` becomes `Advance` of itself, `Emitted` is appended to the sent messages, and no other record changes |
| SpaceEffect.Effect.Init | app/src/main/assets/effects/Space/config.js:33-38 | the in-place loop leaves the table equal to `Reset` of the old one, and the face actions become exactly `[play]` |
| SpaceEffect.Effect.Restart | app/src/main/assets/effects/Space/config.js:45-50 | from any valid state, the table and face actions are what `Init` produces |

## Left out

- The other renderer and host calls in `init` and `restart` are not modelled: `meshfxMsg("spawn", …)`, `playVideo`, `playSound`, `stopSound`, `meshfxReset`, `showRecordButton`. They are calls into the closed host SDK and do not affect the table.
- The wall clock is not modelled. `new Date().getTime()` is the parameter `now`.
- Durations and times are whole milliseconds (`int`). JavaScript would also accept a fractional `t` such as `16.7`, which gives a fractional `endTime`; such tables are not modelled.
- JavaScript numbers are doubles. `now + t` is computed exactly on unbounded integers; millisecond timestamps are far below 2^53, so no rounding occurs in practice.
- A table with an empty animation list is excluded by the invariant. In the source, `% 0` gives `NaN`, and reading `.a` of the missing entry throws. A negative duration is excluded as well.
- Registering the effect (`configure(new Effect())`) is not modelled, nor is the host calling the action lists. Action lists hold the tags `PlayAction`/`RestartAction` instead of function references.
- `MainActivity.kt` (the Android activity and the calls into the video SDK) is not part of this model.
