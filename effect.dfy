/**
 The effect object of the "Space" face filter: its mesh table, which `init`
 seeds and each per-frame `play` tick updates in place, and the action lists
 the host reads. The messages sent to the renderer are kept in `sent`.
 */
module SpaceEffect {
  import opened SpaceSchedule

  /** The callbacks the effect places in its action lists. */
  datatype Action = PlayAction | RestartAction

  class Effect {
    /** `self.meshes`: the records are updated in place, one array slot each. */
    var meshes: array<Mesh>
    var faceActions: seq<Action>
    var noFaceActions: seq<Action>
    var videoRecordStartActions: seq<Action>
    var videoRecordFinishActions: seq<Action>
    var videoRecordDiscardActions: seq<Action>
    /** Every `meshfxMsg("animOnce", …)` call so far, oldest first. */
    var sent: seq<Message>

    /** Every record keeps the table invariant. */
    ghost predicate Valid()
      reads this, meshes
    {
      AllWellFormed(meshes[..])
    }

    /** `new Effect()`: the shipped table, no runtime fields yet, and the initial action lists. */
    constructor ()
      ensures Valid() && fresh(meshes)
      ensures meshes[..] == ShippedTable
      ensures faceActions == [] && noFaceActions == []
      ensures videoRecordStartActions == [] && videoRecordFinishActions == []
      ensures videoRecordDiscardActions == [RestartAction]
      ensures sent == []
    {
      meshes := new Mesh[|ShippedTable|](i requires 0 <= i < |ShippedTable| => ShippedTable[i]);
      faceActions := [];
      noFaceActions := [];
      videoRecordStartActions := [];
      videoRecordFinishActions := [];
      videoRecordDiscardActions := [RestartAction];
      sent := [];
      new;
      ShippedTableWellFormed();
    }

    /**
     One `play` tick at wall-clock time `now`: every due record, in table
     order, moves to its next animation, a message goes out for it, and its
     deadline becomes `now` plus that animation's duration.
     */
    method Play(now: int)
      requires Valid()
      modifies meshes, this`sent
      ensures Valid()
      ensures meshes[..] == Tick(old(meshes[..]), now)
      ensures sent == old(sent) + Messages(old(meshes[..]), now)
    {
      ghost var before := meshes[..];
      for i := 0 to meshes.Length
        invariant forall j :: 0 <= j < i ==> meshes[j] == Advance(before[j], now)
        invariant forall j :: i <= j < meshes.Length ==> meshes[j] == before[j]
        invariant sent == old(sent) + Messages(before[..i], now)
      {
        MessagesStep(before, now, i);
        PlayMesh(i, now);
      }
      assert before[..meshes.Length] == before;
      TickWellFormed(before, now);
    }

    /** The body of the tick loop for the record at position `i`. */
    method PlayMesh(i: nat, now: int)
      requires i < meshes.Length && WellFormed(meshes[i])
      modifies meshes, this`sent
      ensures meshes[i] == Advance(old(meshes[i]), now)
      ensures forall j :: 0 <= j < meshes.Length && j != i ==> meshes[j] == old(meshes[j])
      ensures sent == old(sent) + Emitted(old(meshes[i]), i, now)
    {
      var mesh := meshes[i];
      if Due(mesh, now) {
        mesh := mesh.(schedule := mesh.schedule.(animIdx := JsRem(mesh.schedule.animIdx + 1, |mesh.anims|)));
        sent := sent + [AnimOnce(i, mesh.anims[mesh.schedule.animIdx].name)];
        mesh := mesh.(schedule := mesh.schedule.(endTime := now + mesh.anims[mesh.schedule.animIdx].duration));
        meshes[i] := mesh;
      }
    }

    /**
     `init`: every record gets `animIdx == -1` and `endTime == 0`, and the
     face actions become exactly `[play]`.
     */
    method Init()
      requires Valid()
      modifies meshes, this`faceActions
      ensures Valid()
      ensures meshes[..] == Reset(old(meshes[..]))
      ensures faceActions == [PlayAction]
    {
      ghost var before := meshes[..];
      for i := 0 to meshes.Length
        invariant meshes[..i] == Reset(before)[..i]
        invariant meshes[i..] == before[i..]
      {
        meshes[i] := meshes[i].(schedule := Scheduled(-1, 0));
      }
      faceActions := [PlayAction];
      assert meshes[..] == Reset(before);
      ResetWellFormed(before);
    }

    /** `restart`: re-runs `init`, whatever state the table was in. */
    method Restart()
      requires Valid()
      modifies meshes, this`faceActions
      ensures Valid()
      ensures meshes[..] == Reset(old(meshes[..]))
      ensures faceActions == [PlayAction]
    {
      Init();
    }
  }
}
