# run_sim: the bookkeeping around a multi-agent simulation loop

`run_sim.py` steps a Waymax traffic scenario one timestep at a time. Two actors decide each
tick: an expert (log-replay) actor that drives every object except object 4, and a controlled
actor that hands a kinematic snapshot to an external Julia controller and drives object 4 with
its answer. The script merges the two outputs, steps the environment, and keeps three growing
lists: the states, the merged action data, and a log of kinematic snapshots
(`state_vectors["data"]`) whose latest entry is what the controller is fed.

This project models what the script itself does around the library calls:

- `kinematics.dfy` (module `Kinematics`): the snapshot log as a class `SnapshotLog` whose field
  `data` is grown in place. The tick-0 entry is one flat list of (x, y, speed, yaw) per tracked
  id `[4, 3, 8, 2]`, 16 numbers. After each step one entry is appended; the per-id loop that
  fills it pops the entry's last element before every append, so the entry ends as a list
  holding a single 4-value list, that of the last tracked id (object 2). The model keeps this
  behaviour exactly: `Item` distinguishes the bare numbers of the first entry from the 4-value
  lists of the later ones.
- `actors.dfy` (module `Actors`): the expert actor's control mask, the controlled actor's
  `valid` and `is_controlled` flags, and `get_action`, which always pads the controller's
  command to 16 rows (row 4 the command, the rest zero vectors of the same length) while the
  flags follow the scenario's object count.
- `sim_loop.dfy` (module `SimLoop`): the `for t` loop, proved to run exactly
  `max(0, remaining_timesteps)` times, to grow the state list to one more element than the
  action list, to step state k to state k + 1 under the action merged from the controller's
  answer to log entry k, and to leave the log with one entry per state.
- `command_line.dfy` (module `CommandLine`): the argument loop of the entry point, with the
  fold it follows and lemmas for its promises: defaults off/script, any `-v`/`--verbose` turns
  verbosity on, the last of `-m`/`--module` and `-s`/`--script` decides the loading mode, and
  every other argument is ignored.

Values are reals. The square root that gives a speed, the Waymax library (step, the
expert actor, the merge, `remaining_timesteps`, the simulated trajectory) and the Julia
controller are parameters: uninterpreted functions bundled in the datatypes `Trajectories`,
`Sim` and `Controller`. The simulator state is a type parameter.

The log entries the controller is fed change shape after tick 0. The tick-0 entry is a flat
list of 16 numbers, (x, y, speed, yaw) for each of the four tracked ids. The post-step loop
pops the entry's last element before every append, so from tick 1 on the controller is fed a
one-element list holding object 2's 4-value record (`Kinematics.EntryShapes`,
`SimLoop.RunSim`). `get_action` does not check the length of the controller's answer: it pads
whatever vector comes back.

## Model

| member | source | states |
|---|---|---|
| `Kinematics.LoggedEntry` | run_sim.py:44-53 | the tick-t log entry has 4 items per tracked id, and item i is field i mod 4 (x, y, speed, yaw) of tracked id i div 4 at logged tick t, as a bare number |
| `Kinematics.Snapshot` | run_sim.py:53 | the record of a pose has four values: x, y, the speed of its velocity, yaw, in that order |
| `Kinematics.PopThenAppend` | run_sim.py:105-107 | one pass of the post-step loop body: the entry ends with the new item, keeps every element before its old last one, and its length stays the same (becomes 1 from empty) |
| `Kinematics.StepEntry` | run_sim.py:97-112 | the post-step entry as the loop builds it: empty exactly when no id is tracked, otherwise ending with the last tracked id's record |
| `Kinematics.StepEntryKeepsLastRecord` | run_sim.py:97-112 | popping before each append leaves a post-step entry holding only the last tracked id's record, as one 4-value list (empty when no id is tracked) |
| `Kinematics.EntryShapes` | run_sim.py:98-112 | with ids [4, 3, 8, 2] the tick-0 entry has 16 numbers and each post-step entry is the single record of object 2 |
| `Kinematics.SnapshotLog.constructor` | run_sim.py:43 | the log starts empty |
| `Kinematics.SnapshotLog.RecordLogged` | run_sim.py:44-53 | the pass over tick range 0..1 appends exactly one entry, the tick-0 logged entry, of length 4 per tracked id, and leaves earlier entries unchanged |
| `Kinematics.SnapshotLog.RecordStep` | run_sim.py:97-112 | the post-step pass appends exactly one entry, leaves earlier entries unchanged, and that entry is the last tracked id's record alone |
| `Actors.ExpertMask` | run_sim.py:62-64 | one flag per object, set exactly at the indices other than 4 |
| `Actors.ControlledMask` | run_sim.py:84 | one flag per object, set exactly at index 4; nothing set when there are at most 4 objects |
| `Actors.ValidMask` | run_sim.py:82 | one one-element row per object, holding the controlled flag of that object |
| `Actors.GetAction` | run_sim.py:68-74 | 16 rows; row 4 is the answer of the script-style or module-style controller entry point, as use_script selects, fed the given entry and verbosity; every row has that answer's length and every other row is all zeros |
| `Actors.ControlledOutput` | run_sim.py:76-85 | the controlled actor's data is the padded rows; its is_controlled and valid flags have one entry per object and are set exactly where the expert mask is not |
| `Actors.MasksPartition` | run_sim.py:62-84 | for each object index below num_objects exactly one of the expert mask and the controlled flags is set, and the valid flags equal the controlled flags |
| `Actors.ControlledClaimsOne` | run_sim.py:82-84 | the controlled actor claims exactly one object when the scenario has an object 4, and none otherwise |
| `Actors.ClaimsCoverAll` | run_sim.py:62-84 | the counts of objects claimed by the two actors add up to num_objects |
| `Actors.PaddedRowsMatchObjects` | run_sim.py:74-84 | the padded data has one row per object exactly when num_objects is 16 |
| `Actors.NonZeroRowsAreValid` | run_sim.py:73-82 | a padded row with a non-zero value is one whose valid flag the controlled actor sets |
| `CommandLine.ApplyArg` | run_sim.py:130-135 | one argument: verbosity is on iff it was or the argument is -v/--verbose; a mode flag sets script mode iff it is -s/--script; any other argument keeps the mode |
| `CommandLine.ApplyArgs` | run_sim.py:129-135 | the arguments read in order: verbosity once on stays on, and arguments that are none of the six flags change nothing |
| `CommandLine.UserArgs` | run_sim.py:129 | the arguments after the program name: argument i is argv[i + 1], none when argv is empty |
| `CommandLine.ApplyArgsAppend` | run_sim.py:129-135 | reading a + b equals reading a and then b |
| `CommandLine.VerboseIffFlagGiven` | run_sim.py:127-131 | verbosity ends on iff it started on or some argument is -v or --verbose |
| `CommandLine.ModeKeptWithoutModeFlag` | run_sim.py:128-135 | without -m, --module, -s or --script the loading mode is unchanged |
| `CommandLine.LastModeFlagWins` | run_sim.py:132-135 | the last mode flag decides the loading mode: script for -s/--script, module for -m/--module |
| `CommandLine.OtherArgIgnored` | run_sim.py:129-135 | inserting an argument that is none of the six flags changes nothing |
| `CommandLine.ParseArgs` | run_sim.py:127-135 | the loop over the arguments after the program name yields the fold of the flags over the defaults (off, script): verbose iff a verbosity flag occurs, script when no mode flag occurs, otherwise as the last mode flag says |
| `SimLoop.Iterations` | run_sim.py:90 | the number of passes of range(remaining_timesteps): that number when it is not negative, 0 otherwise |
| `SimLoop.TickOutputs` | run_sim.py:92 | the two actors' outputs in list order: the expert actor's under the mask of every index but 4, then the controlled actor's output as `Actors.ControlledOutput` builds it: its data is get_action of the fed entry, and its is_controlled flags and one-element valid rows are n long and set exactly where the expert mask is not |
| `SimLoop.TickAction` | run_sim.py:92-93 | the tick's merged action: the merge of those two outputs |
| `SimLoop.Advance` | run_sim.py:92-94 | the next state: the environment's step from the state under the tick's merged action |
| `SimLoop.Tick` | run_sim.py:91-112 | one pass: the action is the merge of the expert's and the controlled actor's outputs with the controller fed the latest log entry, the next state is the step under it, and the log gains exactly object 2's record of the next state |
| `SimLoop.RunSim` | run_sim.py:43-112 | max(0, remaining_timesteps) iterations; R + 1 states starting at the initial one, R actions, R + 1 log entries; action k is the merged action from state k and log entry k, and state k + 1 its step; entry 0 is the 16-number logged entry and every later entry k is object 2's record of state k |

## Left out

- The Julia runtime: loading the controller script or module (run_sim.py:12-14, 20-24) and the `seval` string evaluation (70-72). The two controller entry points are uninterpreted functions of the fed entry and the verbosity flag. The printed form of the entry that the call passes is not modelled.
- Waymax: the environment's construction, `step`, `create_expert_actor` and `merge_actions` (29-37, 63-66, 93-94) are uninterpreted. `actor_core_factory` (76-77, 86) is taken to build an actor whose `select_action` returns exactly the output of the lambda at 78-85, which `Actors.ControlledOutput` computes. `register_actor_core` (87) is not modelled. The merge is given no precedence contract, so nothing is proved about which actor's row ends up in the merged action.
- The initial state: `env.reset` followed by setting the timestep to 1 (42, 55-58) is the parameter `s0` of `SimLoop.RunSim`.
- The controlled actor's initial actor state (`lambda random_state: [0.0]`, 77) is not modelled; the loop passes no previous actor state.
- Floating point: `jnp.sqrt`, the `float()` casts and JAX array shapes. Values are reals and the speed is an uninterpreted function of the two velocity components.
- Indexing of trajectories: the logged and simulated trajectories are total functions of object index and tick, so JAX's clamping of out-of-range indices is not modelled.
- I/O: the pickle load (26-27), progress printing (91, 114-115, 123-124), rendering and video writing (116-122).
- `id_to_idx_map` (40) is built and never used.
- `run_sim`'s own default arguments (18) are not modelled: the entry point always passes both flags, and the scenario path only feeds the load.
- Failures: nothing in run_sim.py:90-112 catches an exception, so a Julia call (70, 72), `merge_actions` (93) or `env.step` (94) that raises ends the run with no video. Such a failure can come from the 16 padded rows meeting a scenario whose `num_objects` is not 16, or from a dynamics model that refuses the command's length. Every collaborator in the model is a total function, so the model describes only runs in which every call returns.
- Controller state: the two controller entry points are functions of the fed entry and the verbosity flag alone. State the Julia side keeps between calls is not modelled, and the ensures of `SimLoop.RunSim` that decide action k from state k and log entry k rely on that.
