/** The body of `run_sim` in run_sim.py: record the tick-0 log entry, then step the
    environment once per remaining timestep, feeding the controller the latest log entry,
    growing the state and action histories, and logging the stepped state. */
module SimLoop {
  import opened Kinematics
  import opened Actors
  import opened CommandLine

  /** The collaborators the loop calls but does not define, as uninterpreted functions.
      - tracks: where log entries read their poses;
      - numObjects: the scenario's object count;
      - remaining(s): `s.remaining_timesteps`;
      - expert(mask, s): the expert actor built with `mask` as its control flags, selecting
        its output in state `s`;
      - merge(outputs): the library's merge of the actors' outputs;
      - step(s, a): the environment's step. */
  datatype Sim<!S> = Sim(
    tracks: Trajectories<S>,
    numObjects: nat,
    remaining: S -> int,
    expert: (seq<bool>, S) -> ActorOutput,
    merge: seq<ActorOutput> -> Action,
    step: (S, Action) -> S)

  /** How many times `range(states[0].remaining_timesteps)` runs its body. */
  function Iterations<S>(w: Sim<S>, s0: S): (r: nat)
    ensures w.remaining(s0) >= 0 ==> r == w.remaining(s0)
    ensures w.remaining(s0) <= 0 ==> r == 0
  {
    if w.remaining(s0) < 0 then 0 else w.remaining(s0)
  }

  /** The outputs the two actors select in `state`, the expert actor's first, with the
      controller fed the log entry `fed`. */
  function TickOutputs<S>(w: Sim<S>, c: Controller, opts: Options, state: S, fed: Entry): (outs: seq<ActorOutput>)
    ensures |outs| == 2
    ensures outs[0] == w.expert(ExpertMask(w.numObjects), state)
    ensures outs[1].action.data == GetAction(c, opts.useScript, opts.verbose, fed)
    ensures |outs[1].isControlled| == w.numObjects
    ensures forall i :: 0 <= i < w.numObjects ==> (outs[1].isControlled[i] <==> !ExpertMask(w.numObjects)[i])
    ensures |outs[1].action.valid| == w.numObjects
    ensures forall i :: 0 <= i < w.numObjects ==> outs[1].action.valid[i] == [outs[1].isControlled[i]]
    ensures outs[1] == ControlledOutput(w.numObjects, GetAction(c, opts.useScript, opts.verbose, fed))
  {
    [w.expert(ExpertMask(w.numObjects), state),
     ControlledOutput(w.numObjects, GetAction(c, opts.useScript, opts.verbose, fed))]
  }

  /** The merged action of one tick. */
  function TickAction<S>(w: Sim<S>, c: Controller, opts: Options, state: S, fed: Entry): Action
  {
    w.merge(TickOutputs(w, c, opts, state, fed))
  }

  /** The state the environment steps to from `state` in a tick whose controller was fed `fed`. */
  function Advance<S>(w: Sim<S>, c: Controller, opts: Options, state: S, fed: Entry): S
  {
    w.step(state, TickAction(w, c, opts, state, fed))
  }

  /** Tick `k` of a run: state `k + 1` is the step of state `k` under the merged action
      computed from log entry `k`, and that action's data is action `k`. */
  ghost predicate Ticked<S>(w: Sim<S>, c: Controller, opts: Options, states: seq<S>,
                            actions: seq<seq<seq<real>>>, log: seq<Entry>, k: nat)
  {
    k + 1 < |states| && k < |actions| && k < |log| &&
    states[k + 1] == Advance(w, c, opts, states[k], log[k]) &&
    actions[k] == TickAction(w, c, opts, states[k], log[k]).data
  }

  /** One pass of the step loop's body: query the expert actor and the controlled actor,
      the latter with the log's latest entry, merge their outputs, step the environment,
      and log the stepped state. */
  method Tick<S>(w: Sim<S>, c: Controller, opts: Options, stateVectors: SnapshotLog, state: S)
    returns (action: Action, next: S)
    requires |stateVectors.data| > 0
    modifies stateVectors
    ensures action == TickAction(w, c, opts, state, old(stateVectors.data)[|old(stateVectors.data)| - 1])
    ensures next == Advance(w, c, opts, state, old(stateVectors.data)[|old(stateVectors.data)| - 1])
    ensures stateVectors.data == old(stateVectors.data) + [[Rec(Snapshot(w.tracks.latest(next, 2), w.tracks.speed))]]
  {
    action := w.merge(TickOutputs(w, c, opts, state, stateVectors.data[|stateVectors.data| - 1]));
    next := w.step(state, action);
    stateVectors.RecordStep(w.tracks, TrackedIds, next);
    EntryShapes(w.tracks, next);
  }

  /** The simulation run from the state `s0` that reset produced. Returns the state history,
      the history of merged action data, and the snapshot log. */
  method RunSim<S>(w: Sim<S>, c: Controller, opts: Options, s0: S)
    returns (states: seq<S>, actions: seq<seq<seq<real>>>, log: seq<Entry>)
    ensures |states| == Iterations(w, s0) + 1 && |actions| == Iterations(w, s0)
    ensures |log| == Iterations(w, s0) + 1
    ensures states[0] == s0
    ensures log[0] == LoggedEntry(w.tracks, TrackedIds, 0) && |log[0]| == 16
    ensures forall k {:trigger log[k]} :: 1 <= k < |log| ==> log[k] == [Rec(Snapshot(w.tracks.latest(states[k], 2), w.tracks.speed))]
    ensures forall k {:trigger actions[k]} :: 0 <= k < |actions| ==>
              actions[k] == TickAction(w, c, opts, states[k], log[k]).data
    ensures forall k :: 0 <= k < |actions| ==>
              states[k + 1] == Advance(w, c, opts, states[k], log[k])
  {
    var stateVectors := new SnapshotLog();
    stateVectors.RecordLogged(w.tracks, TrackedIds);
    var state := s0;
    states := [state];
    actions := [];
    var n := Iterations(w, states[0]);
    for t := 0 to n
      invariant |states| == t + 1 && |actions| == t && |stateVectors.data| == t + 1
      invariant states[0] == s0 && states[t] == state
      invariant stateVectors.data[0] == LoggedEntry(w.tracks, TrackedIds, 0)
      invariant forall k {:trigger stateVectors.data[k]} :: 1 <= k <= t ==>
                  stateVectors.data[k] == [Rec(Snapshot(w.tracks.latest(states[k], 2), w.tracks.speed))]
      invariant forall k :: 0 <= k < t ==> Ticked(w, c, opts, states, actions, stateVectors.data, k)
    {
      ghost var data, before, done := stateVectors.data, states, actions;
      var action;
      action, state := Tick(w, c, opts, stateVectors, state);
      states := states + [state];
      actions := actions + [action.data];
      assert stateVectors.data[..t + 1] == data;
      assert states[..t + 1] == before && actions[..t] == done;
      forall k | 0 <= k < t + 1
        ensures Ticked(w, c, opts, states, actions, stateVectors.data, k)
      {
        if k < t {
          assert Ticked(w, c, opts, before, done, data, k);
        }
      }
    }
    log := stateVectors.data;
    forall k | 0 <= k < |actions|
      ensures actions[k] == TickAction(w, c, opts, states[k], log[k]).data
      ensures states[k + 1] == Advance(w, c, opts, states[k], log[k])
    {
      assert Ticked(w, c, opts, states, actions, log, k);
    }
  }
}
