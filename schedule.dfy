/**
 The value-level model of the "Space" face effect's mesh table and of one
 animation tick over it: the records, the round-robin step of one mesh, the
 new table after a tick, the messages a tick sends to the renderer, and the
 table that `init` produces. The class in effect.dfy is proved against these
 functions; the lemmas here state what a tick and a restart promise.
 */
module SpaceSchedule {

  /** One entry `{a: name, t: duration}` of a mesh's animation list; the duration is in milliseconds. */
  datatype Anim = Anim(name: string, duration: int)

  /** The two runtime fields of a record. Until `init` runs they do not exist (`Unscheduled`). */
  datatype Schedule = Unscheduled | Scheduled(animIdx: int, endTime: int)

  /** A record of the mesh table: the mesh file, its animations in order, and its runtime fields. */
  datatype Mesh = Mesh(file: string, anims: seq<Anim>, schedule: Schedule)

  /** The renderer call `meshfxMsg("animOnce", mesh, 0, anim)`: play animation `anim` once on mesh `mesh`. */
  datatype Message = AnimOnce(mesh: nat, anim: string)

  /** The table the effect ships with. */
  const ShippedTable: seq<Mesh> := [Mesh("BeautyFace.bsm2", [Anim("static", 0)], Unscheduled)]

  /** The `animIdx` and `endTime` that `init` writes into every record. */
  const InitialSchedule: Schedule := Scheduled(-1, 0)

  function Abs(x: int): (r: int)
    ensures r >= 0 && (r == x || r == -x)
  {
    if x < 0 then -x else x
  }

  /** The JavaScript integer quotient: the division rounded toward zero. */
  function TruncDiv(a: int, b: int): (q: int)
    requires b != 0
  {
    var n := Abs(a) / Abs(b);
    if (a >= 0) == (b > 0) then n else -n
  }

  /**
   The JavaScript `%` operator on integers: the remainder of the division
   truncated toward zero, so it takes the sign of the dividend (Dafny's own
   `%` is Euclidean and never negative).
   */
  function JsRem(a: int, b: int): (r: int)
    requires b != 0
    ensures -Abs(b) < r < Abs(b)
    ensures a >= 0 ==> r >= 0
    ensures a <= 0 ==> r <= 0
    ensures a == TruncDiv(a, b) * b + r
  {
    var m := Abs(a) % Abs(b);
    QuotientIdentity(a, b);
    if a >= 0 then m else -m
  }

  lemma QuotientIdentity(a: int, b: int)
    requires b != 0
    ensures a == TruncDiv(a, b) * b + (if a >= 0 then Abs(a) % Abs(b) else -(Abs(a) % Abs(b)))
  {
  }

  /** On the non-negative dividends the scheduler produces, JavaScript's `%` agrees with Dafny's. */
  lemma JsRemOfNatural(a: int, b: int)
    requires a >= 0 && b > 0
    ensures JsRem(a, b) == a % b
  {
  }

  /**
   The invariant every record keeps: at least one animation (the source divides
   by the list's length), no negative duration, and, once scheduled, an
   `animIdx` that is -1 (nothing played yet) or a valid position in the list.
   */
  predicate WellFormed(m: Mesh) {
    |m.anims| > 0 &&
    (forall k :: 0 <= k < |m.anims| ==> m.anims[k].duration >= 0) &&
    (m.schedule.Scheduled? ==> -1 <= m.schedule.animIdx < |m.anims|)
  }

  predicate AllWellFormed(ms: seq<Mesh>) {
    forall i :: 0 <= i < |ms| ==> WellFormed(ms[i])
  }

  /** A record currently playing animation `animIdx`, a valid position in its list. */
  predicate Playing(m: Mesh) {
    m.schedule.Scheduled? && 0 <= m.schedule.animIdx < |m.anims|
  }

  /** The name of the animation a playing record is on. */
  function CurrentAnim(m: Mesh): (name: string)
    requires Playing(m)
  {
    m.anims[m.schedule.animIdx].name
  }

  /**
   The record is due when the clock has passed its `endTime`. An unscheduled
   record is never due: in the source `endTime` is then undefined and the
   comparison `now > undefined` is false.
   */
  predicate Due(m: Mesh, now: int)
    ensures m.schedule.Unscheduled? ==> !Due(m, now)
  {
    m.schedule.Scheduled? && now > m.schedule.endTime
  }

  /** The position `(animIdx + 1) % anims.length` that a due record moves to. */
  function NextIndex(m: Mesh): (k: int)
    requires WellFormed(m) && m.schedule.Scheduled?
    ensures 0 <= k < |m.anims|
    ensures k == (m.schedule.animIdx + 1) % |m.anims|
    ensures m.schedule.animIdx == |m.anims| - 1 ==> k == 0
    ensures m.schedule.animIdx < |m.anims| - 1 ==> k == m.schedule.animIdx + 1
  {
    JsRemOfNatural(m.schedule.animIdx + 1, |m.anims|);
    JsRem(m.schedule.animIdx + 1, |m.anims|)
  }

  /**
   What one iteration of the tick loop does to one record: a due record moves
   to its next animation and is due again once that animation's duration has
   passed; any other record is left as it is.
   */
  function Advance(m: Mesh, now: int): (m': Mesh)
    requires WellFormed(m)
    ensures m'.file == m.file && m'.anims == m.anims
    ensures WellFormed(m')
    ensures m'.schedule.Scheduled? == m.schedule.Scheduled?
    ensures Due(m, now) ==> Playing(m')
    ensures !Due(m', now)
    ensures !Due(m, now) ==> m' == m
  {
    if Due(m, now) then
      var k := NextIndex(m);
      m.(schedule := Scheduled(k, now + m.anims[k].duration))
    else
      m
  }

  /** The message one iteration of the tick loop sends for the record at position `i`. */
  function Emitted(m: Mesh, i: nat, now: int): (r: seq<Message>)
    requires WellFormed(m)
    ensures |r| <= 1
    ensures |r| == 1 <==> Due(m, now)
    ensures forall j :: 0 <= j < |r| ==> r[j].mesh == i
  {
    if Due(m, now) then [AnimOnce(i, m.anims[NextIndex(m)].name)] else []
  }

  /** Two tables with the same records apart from their runtime fields. */
  predicate SameLayout(a: seq<Mesh>, b: seq<Mesh>) {
    |a| == |b| &&
    forall i :: 0 <= i < |a| ==> a[i].file == b[i].file && a[i].anims == b[i].anims
  }

  /** The table after one tick at time `now`, built over the prefix the tick loop has processed. */
  function Tick(ms: seq<Mesh>, now: int): (r: seq<Mesh>)
    requires AllWellFormed(ms)
    ensures |r| == |ms|
    ensures forall i :: 0 <= i < |ms| ==> r[i] == Advance(ms[i], now)
    decreases |ms|
  {
    if |ms| == 0 then []
    else Tick(ms[..|ms| - 1], now) + [Advance(ms[|ms| - 1], now)]
  }

  /** The messages one tick at time `now` sends, in the order the tick loop sends them. */
  function Messages(ms: seq<Mesh>, now: int): (r: seq<Message>)
    requires AllWellFormed(ms)
    ensures |r| <= |ms|
    ensures forall j :: 0 <= j < |r| ==> r[j].mesh < |ms|
    decreases |ms|
  {
    if |ms| == 0 then []
    else Messages(ms[..|ms| - 1], now) + Emitted(ms[|ms| - 1], |ms| - 1, now)
  }

  /** One more iteration of the tick loop: the messages for a prefix one record longer. */
  lemma MessagesStep(ms: seq<Mesh>, now: int, i: int)
    requires AllWellFormed(ms) && 0 <= i < |ms|
    ensures AllWellFormed(ms[..i]) && AllWellFormed(ms[..i + 1])
    ensures Messages(ms[..i + 1], now) == Messages(ms[..i], now) + Emitted(ms[i], i, now)
  {
    assert ms[..i + 1][..i] == ms[..i];
  }

  /** The table as `init` leaves it: every record at `animIdx == -1`, `endTime == 0`. */
  function Reset(ms: seq<Mesh>): (r: seq<Mesh>)
    ensures SameLayout(r, ms)
    ensures forall i :: 0 <= i < |r| ==> r[i].schedule == InitialSchedule
  {
    seq(|ms|, i requires 0 <= i < |ms| => ms[i].(schedule := InitialSchedule))
  }

  /** The table after one tick at each time of `nows`, in order. */
  function Run(ms: seq<Mesh>, nows: seq<int>): (r: seq<Mesh>)
    requires AllWellFormed(ms)
    ensures AllWellFormed(r)
    ensures SameLayout(r, ms)
    decreases |nows|
  {
    if |nows| == 0 then ms else Run(Tick(ms, nows[0]), nows[1..])
  }

  // ---------------------------------------------------------------------------
  // One record

  /** A due record moves round-robin: `animIdx' == (animIdx + 1) % anims.length`, and its deadline is `now + t`. */
  lemma AdvanceRoundRobin(m: Mesh, now: int)
    requires WellFormed(m) && Due(m, now)
    ensures Advance(m, now).schedule.animIdx == (m.schedule.animIdx + 1) % |m.anims|
    ensures Advance(m, now).schedule.endTime == now + m.anims[Advance(m, now).schedule.animIdx].duration
    ensures m.schedule.animIdx == |m.anims| - 1 ==> Advance(m, now).schedule.animIdx == 0
  {
  }

  // ---------------------------------------------------------------------------
  // One tick over the whole table

  lemma TickWellFormed(ms: seq<Mesh>, now: int)
    requires AllWellFormed(ms)
    ensures AllWellFormed(Tick(ms, now))
    ensures SameLayout(Tick(ms, now), ms)
  {
  }

  /** A tick leaves every record that is not due exactly as it was. */
  lemma TickLeavesIdle(ms: seq<Mesh>, now: int, i: int)
    requires AllWellFormed(ms) && 0 <= i < |ms| && !Due(ms[i], now)
    ensures Tick(ms, now)[i] == ms[i]
  {
  }

  /** Emitting for a record is the same as reading the new table: the message names the record's new animation. */
  lemma EmittedNamesNewAnim(m: Mesh, i: nat, now: int)
    requires WellFormed(m)
    ensures Due(m, now) ==> Emitted(m, i, now) == [AnimOnce(i, CurrentAnim(Advance(m, now)))]
    ensures !Due(m, now) ==> Emitted(m, i, now) == []
  {
  }

  /** Every message of a tick is for a due record and names the animation that record now plays. */
  lemma {:induction false} MessagesSound(ms: seq<Mesh>, now: int)
    requires AllWellFormed(ms)
    ensures forall j :: 0 <= j < |Messages(ms, now)| ==>
      Messages(ms, now)[j].mesh < |ms| &&
      Due(ms[Messages(ms, now)[j].mesh], now) &&
      Messages(ms, now)[j].anim == CurrentAnim(Tick(ms, now)[Messages(ms, now)[j].mesh])
    decreases |ms|
  {
    if |ms| > 0 {
      var n := |ms| - 1;
      var front := ms[..n];
      MessagesSound(front, now);
      EmittedNamesNewAnim(ms[n], n, now);
      assert Messages(ms, now) == Messages(front, now) + Emitted(ms[n], n, now);
      forall j | 0 <= j < |Messages(front, now)|
        ensures Tick(ms, now)[Messages(front, now)[j].mesh] == Tick(front, now)[Messages(front, now)[j].mesh]
      {
      }
    }
  }

  /** The messages of a tick go out in strictly increasing record position, so at most one per record. */
  lemma {:induction false} MessagesOrdered(ms: seq<Mesh>, now: int)
    requires AllWellFormed(ms)
    ensures forall j :: 0 <= j < |Messages(ms, now)| ==> Messages(ms, now)[j].mesh < |ms|
    ensures forall j, k :: 0 <= j < k < |Messages(ms, now)| ==> Messages(ms, now)[j].mesh < Messages(ms, now)[k].mesh
    decreases |ms|
  {
    if |ms| > 0 {
      var n := |ms| - 1;
      MessagesOrdered(ms[..n], now);
    }
  }

  /** Every due record gets a message in the tick. */
  lemma {:induction false} MessagesComplete(ms: seq<Mesh>, now: int, i: int)
    requires AllWellFormed(ms) && 0 <= i < |ms| && Due(ms[i], now)
    ensures exists j :: 0 <= j < |Messages(ms, now)| && Messages(ms, now)[j].mesh == i
    decreases |ms|
  {
    var n := |ms| - 1;
    var front := ms[..n];
    assert Messages(ms, now) == Messages(front, now) + Emitted(ms[n], n, now);
    if i == n {
      assert Messages(ms, now)[|Messages(front, now)|].mesh == i;
    } else {
      MessagesComplete(front, now, i);
      var j :| 0 <= j < |Messages(front, now)| && Messages(front, now)[j].mesh == i;
      assert Messages(ms, now)[j].mesh == i;
    }
  }

  /** A record that is not due gets no message. */
  lemma NoMessageForIdle(ms: seq<Mesh>, now: int, i: int)
    requires AllWellFormed(ms) && 0 <= i < |ms| && !Due(ms[i], now)
    ensures forall j :: 0 <= j < |Messages(ms, now)| ==> Messages(ms, now)[j].mesh != i
  {
    MessagesSound(ms, now);
  }

  /** A second tick at the same time changes nothing and sends nothing: every advanced record's deadline is not yet past. */
  lemma {:induction false} TickIdempotent(ms: seq<Mesh>, now: int)
    requires AllWellFormed(ms)
    ensures AllWellFormed(Tick(ms, now))
    ensures Tick(Tick(ms, now), now) == Tick(ms, now)
    ensures Messages(Tick(ms, now), now) == []
  {
    TickWellFormed(ms, now);
    NothingDue(Tick(ms, now), now);
  }

  /** A table in which no record is due is left alone by a tick, which sends nothing. */
  lemma {:induction false} NothingDue(ms: seq<Mesh>, now: int)
    requires AllWellFormed(ms)
    requires forall i :: 0 <= i < |ms| ==> !Due(ms[i], now)
    ensures Tick(ms, now) == ms
    ensures Messages(ms, now) == []
    decreases |ms|
  {
    if |ms| > 0 {
      NothingDue(ms[..|ms| - 1], now);
    }
  }

  // ---------------------------------------------------------------------------
  // init and restart

  lemma ResetWellFormed(ms: seq<Mesh>)
    requires AllWellFormed(ms)
    ensures AllWellFormed(Reset(ms))
  {
  }

  /** The table `init` produces depends only on the files and animation lists, not on the runtime fields. */
  lemma ResetDependsOnLayout(a: seq<Mesh>, b: seq<Mesh>)
    requires SameLayout(a, b)
    ensures Reset(a) == Reset(b)
  {
  }

  /** However many ticks have run since, `restart` brings the table back to the state the first `init` left. */
  lemma {:induction false} RestartAfterRun(ms: seq<Mesh>, nows: seq<int>)
    requires AllWellFormed(ms)
    ensures AllWellFormed(Run(ms, nows))
    ensures Reset(Run(ms, nows)) == Reset(ms)
    decreases |nows|
  {
    if |nows| > 0 {
      TickWellFormed(ms, nows[0]);
      RestartAfterRun(Tick(ms, nows[0]), nows[1..]);
      ResetDependsOnLayout(Tick(ms, nows[0]), ms);
    }
  }

  /** The first tick after `init` at a time past 0 starts every record on its first animation. */
  lemma FirstTickAfterInit(ms: seq<Mesh>, now: int)
    requires AllWellFormed(ms) && now > 0
    ensures AllWellFormed(Reset(ms))
    ensures forall i :: 0 <= i < |ms| ==>
      Tick(Reset(ms), now)[i].schedule == Scheduled(0, now + ms[i].anims[0].duration)
  {
    ResetWellFormed(ms);
  }

  /** The messages of the first tick after `init` at a time past 0. */
  function FirstMessages(ms: seq<Mesh>): (r: seq<Message>)
    requires AllWellFormed(ms)
  {
    seq(|ms|, i requires 0 <= i < |ms| && AllWellFormed(ms) => AnimOnce(i, ms[i].anims[0].name))
  }

  /**
   The first tick after `init` at a time past 0 sends one message per record,
   in table order, naming that record's first animation.
   */
  lemma {:induction false} FirstTickMessages(ms: seq<Mesh>, now: int)
    requires AllWellFormed(ms) && now > 0
    ensures AllWellFormed(Reset(ms))
    ensures Messages(Reset(ms), now) == FirstMessages(ms)
    decreases |ms|
  {
    ResetWellFormed(ms);
    if |ms| > 0 {
      var n := |ms| - 1;
      var r := Reset(ms);
      FirstTickMessages(ms[..n], now);
      assert r[..n] == Reset(ms[..n]);
      assert Emitted(r[n], n, now) == [AnimOnce(n, ms[n].anims[0].name)];
      assert Messages(r, now) == FirstMessages(ms[..n]) + [AnimOnce(n, ms[n].anims[0].name)];
      assert FirstMessages(ms) == FirstMessages(ms[..n]) + [AnimOnce(n, ms[n].anims[0].name)];
    }
  }

  /** The shipped table satisfies the invariant. */
  lemma ShippedTableWellFormed()
    ensures AllWellFormed(ShippedTable)
  {
  }

  /**
   With the shipped table (one zero-length animation "static"), the first tick
   after `init` at `now > 0` plays "static" on mesh 0, one more tick at a later
   time plays it again, and a tick after that back at `now` sends nothing.
   */
  lemma ShippedTableReplays(now: int, later: int)
    requires 0 < now < later
    ensures AllWellFormed(Reset(ShippedTable))
    ensures AllWellFormed(Tick(Reset(ShippedTable), now))
    ensures Messages(Reset(ShippedTable), now) == [AnimOnce(0, "static")]
    ensures Messages(Tick(Reset(ShippedTable), now), later) == [AnimOnce(0, "static")]
    ensures AllWellFormed(Tick(Tick(Reset(ShippedTable), now), later))
    ensures Messages(Tick(Tick(Reset(ShippedTable), now), later), now) == []
  {
    ShippedTableWellFormed();
    FirstTickAfterInit(ShippedTable, now);
    FirstTickMessages(ShippedTable, now);
    TickWellFormed(Reset(ShippedTable), now);
    var t := Tick(Reset(ShippedTable), now);
    assert t[0].schedule == Scheduled(0, now);
    assert t[..0] == [];
    TickWellFormed(t, later);
    var u := Tick(t, later);
    assert u[0].schedule == Scheduled(0, later);
    NothingDue(u, now);
  }

}
