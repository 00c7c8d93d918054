/** The kinematic snapshot log of run_sim.py: the dictionary entry `state_vectors["data"]`,
    a list with one entry per tick, built from the logged trajectory at tick 0 and from the
    freshly stepped simulator state after every step. */
module Kinematics {

  /** One object's pose at one tick, as the scenario's logged trajectory and the simulator's
      trajectory buffer store it. */
  datatype Pose = Pose(x: real, y: real, yaw: real, velX: real, velY: real)

  /** Where the log reads its poses from. `S` is the simulator state, left abstract.
      - logged(id, t): the scenario's logged trajectory of object `id` at tick `t`;
      - latest(s, id): the last tick of object `id` in the state's simulated trajectory;
      - speed(vx, vy): the speed computed from a velocity (a square root, left uninterpreted). */
  datatype Trajectories<!S> = Trajectories(
    logged: (nat, nat) -> Pose,
    latest: (S, nat) -> Pose,
    speed: (real, real) -> real)

  /** An element of a log entry. The tick-0 entry is a flat list of numbers; the entries
      written after a step hold 4-value lists. */
  datatype Item = Num(value: real) | Rec(values: seq<real>)

  type Entry = seq<Item>

  /** The object indices whose kinematics are logged, in logging order. */
  const TrackedIds: seq<nat> := [4, 3, 8, 2]

  /** The 4-value record (x, y, speed, yaw) of one pose. */
  function Snapshot(p: Pose, speed: (real, real) -> real): (v: seq<real>)
    ensures |v| == 4
    ensures v[0] == p.x && v[1] == p.y && v[2] == speed(p.velX, p.velY) && v[3] == p.yaw
  {
    [p.x, p.y, speed(p.velX, p.velY), p.yaw]
  }

  /** A list of numbers as flat log items. */
  function Nums(v: seq<real>): (r: Entry)
    ensures |r| == |v| && forall i :: 0 <= i < |v| ==> r[i] == Num(v[i])
  {
    seq(|v|, i requires 0 <= i < |v| => Num(v[i]))
  }

  /** The entry the tick-`t` pass over the logged trajectory writes: one flat list that
      extends, id after id, the four values (x, y, speed, yaw) of each tracked object. */
  function LoggedEntry<S>(tr: Trajectories<S>, ids: seq<nat>, t: nat): (e: Entry)
    ensures |e| == 4 * |ids|
    ensures forall i :: 0 <= i < |e| ==> e[i] == Num(Snapshot(tr.logged(ids[i / 4], t), tr.speed)[i % 4])
    decreases |ids|
  {
    if ids == [] then []
    else
      var prefix := ids[..|ids| - 1];
      var e := LoggedEntry(tr, prefix, t) + Nums(Snapshot(tr.logged(ids[|ids| - 1], t), tr.speed));
      assert forall i :: 0 <= i < 4 * |prefix| ==> i / 4 < |prefix| && ids[i / 4] == prefix[i / 4];
      assert forall i :: 4 * |prefix| <= i < |e| ==> i / 4 == |prefix| && i % 4 == i - 4 * |prefix|;
      e
  }

  /** One pass of the post-step agent loop body on the entry being built: drop its last
      element when it has one, then append `item`. */
  function PopThenAppend(e: Entry, item: Item): (r: Entry)
    ensures |r| == if |e| == 0 then 1 else |e|
    ensures r[|r| - 1] == item
    ensures forall i :: 0 <= i < |r| - 1 ==> r[i] == e[i]
  {
    (if |e| > 0 then e[..|e| - 1] else e) + [item]
  }

  /** The entry the post-step pass writes for state `s`: starting from an empty list, the
      pop-then-append step applied for each tracked id in order. */
  function StepEntry<S>(tr: Trajectories<S>, ids: seq<nat>, s: S): (e: Entry)
    ensures e == [] <==> ids == []
    ensures ids != [] ==> e[|e| - 1] == Rec(Snapshot(tr.latest(s, ids[|ids| - 1]), tr.speed))
    decreases |ids|
  {
    if ids == [] then []
    else
      PopThenAppend(StepEntry(tr, ids[..|ids| - 1], s),
                    Rec(Snapshot(tr.latest(s, ids[|ids| - 1]), tr.speed)))
  }

  /** Because every append is preceded by a pop, a post-step entry keeps the record of the
      last tracked id alone, as a single 4-value list. */
  lemma {:induction false} StepEntryKeepsLastRecord<S>(tr: Trajectories<S>, ids: seq<nat>, s: S)
    ensures ids == [] ==> StepEntry(tr, ids, s) == []
    ensures ids != [] ==> StepEntry(tr, ids, s) == [Rec(Snapshot(tr.latest(s, ids[|ids| - 1]), tr.speed))]
    decreases |ids|
  {
    if ids != [] {
      StepEntryKeepsLastRecord(tr, ids[..|ids| - 1], s);
    }
  }

  /** With the tracked ids of the script the tick-0 entry has 16 numbers and every
      post-step entry has one element, the record of object 2. */
  lemma EntryShapes<S>(tr: Trajectories<S>, s: S)
    ensures |LoggedEntry(tr, TrackedIds, 0)| == 16
    ensures StepEntry(tr, TrackedIds, s) == [Rec(Snapshot(tr.latest(s, 2), tr.speed))]
  {
    StepEntryKeepsLastRecord(tr, TrackedIds, s);
  }

  /** The log `state_vectors["data"]`, a list of entries that the script grows in place. */
  class SnapshotLog {
    var data: seq<Entry>

    /** The log starts with no entries. */
    constructor ()
      ensures data == []
    {
      data := [];
    }

    /** The pass over logged ticks `0 <= t < 1`: for each tick, append an empty entry and
        extend it with the (x, y, speed, yaw) of every tracked id in turn. */
    method RecordLogged<S>(tr: Trajectories<S>, ids: seq<nat>)
      modifies this
      ensures data == old(data) + [LoggedEntry(tr, ids, 0)]
      ensures |data[|data| - 1]| == 4 * |ids|
    {
      for obsT := 0 to 1
        invariant data == old(data) + seq(obsT, t requires 0 <= t => LoggedEntry(tr, ids, t))
      {
        ghost var before := data;
        data := data + [[]];
        for k := 0 to |ids|
          invariant data == before + [LoggedEntry(tr, ids[..k], obsT)]
        {
          assert ids[..k + 1][..k] == ids[..k];
          var p := tr.logged(ids[k], obsT);
          data := data[..|data| - 1] + [data[|data| - 1] + Nums(Snapshot(p, tr.speed))];
        }
        assert ids[..|ids|] == ids;
      }
    }

    /** The pass after a step: append an empty entry; then for each tracked id, pop the
        entry's last element if it has one and append the id's 4-value record. */
    method RecordStep<S>(tr: Trajectories<S>, ids: seq<nat>, s: S)
      modifies this
      ensures data == old(data) + [StepEntry(tr, ids, s)]
      ensures ids != [] ==> data[|data| - 1] == [Rec(Snapshot(tr.latest(s, ids[|ids| - 1]), tr.speed))]
    {
      data := data + [[]];
      for k := 0 to |ids|
        invariant data == old(data) + [StepEntry(tr, ids[..k], s)]
      {
        assert ids[..k + 1][..k] == ids[..k];
        var last := data[|data| - 1];
        if |last| > 0 {
          data := data[..|data| - 1] + [last[..|last| - 1]];
        }
        data := data[..|data| - 1] + [data[|data| - 1] + [Rec(Snapshot(tr.latest(s, ids[k]), tr.speed))]];
      }
      assert ids[..|ids|] == ids;
      StepEntryKeepsLastRecord(tr, ids, s);
    }
  }
}
