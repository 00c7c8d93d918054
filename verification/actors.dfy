/** The two actors of run_sim.py: the expert actor, which owns every object except the
    controlled one, and the controlled actor, which asks the external controller for the
    controlled object's command and pads it to one row per object slot. */
module Actors {
  import opened Kinematics

  /** The object index driven by the external controller. */
  const ControlledIndex: nat := 4

  /** The number of rows the controlled actor's action data always has. */
  const PaddedRows: nat := 16

  /** An action proposal: a control vector per object row, and a one-element validity flag
      per object. */
  datatype Action = Action(data: seq<seq<real>>, valid: seq<seq<bool>>)

  /** What an actor returns for one tick. */
  datatype ActorOutput = ActorOutput(actorState: seq<real>, action: Action, isControlled: seq<bool>)

  /** The external controller's two entry points: the function the script defines, and the
      one the module exports. Each takes the latest log entry and the verbosity flag. */
  datatype Controller = Controller(
    viaScript: (Entry, bool) -> seq<real>,
    viaModule: (Entry, bool) -> seq<real>)

  /** The expert actor's authority: every object index but the controlled one. */
  function ExpertMask(n: nat): (m: seq<bool>)
    ensures |m| == n && forall i :: 0 <= i < n ==> (m[i] <==> i != ControlledIndex)
  {
    seq(n, i => i != ControlledIndex)
  }

  /** The controlled actor's `is_controlled`: true at the controlled index only. An index
      past the last object is dropped, so with `n <= 4` nothing is set. */
  function ControlledMask(n: nat): (m: seq<bool>)
    ensures |m| == n && forall i :: 0 <= i < n ==> (m[i] <==> i == ControlledIndex)
    ensures ControlledIndex < n ==> m[ControlledIndex]
  {
    seq(n, i => i == ControlledIndex)
  }

  /** The controlled actor's `valid`, an `n` by 1 array true at the controlled index only. */
  function ValidMask(n: nat): (v: seq<seq<bool>>)
    ensures |v| == n && forall i :: 0 <= i < n ==> v[i] == [ControlledMask(n)[i]]
  {
    seq(n, i => [i == ControlledIndex])
  }

  function Zeros(d: nat): (z: seq<real>)
    ensures |z| == d && forall j :: 0 <= j < d ==> z[j] == 0.0
  {
    seq(d, _ => 0.0)
  }

  /** `get_action`: call the controller entry point that `useScript` selects, then spread
      its command over 16 rows, the controller's command at the controlled index and a zero
      vector of the same length everywhere else. */
  function GetAction(c: Controller, useScript: bool, verbose: bool, fed: Entry): (rows: seq<seq<real>>)
    ensures |rows| == PaddedRows
    ensures useScript ==> rows[ControlledIndex] == c.viaScript(fed, verbose)
    ensures !useScript ==> rows[ControlledIndex] == c.viaModule(fed, verbose)
    ensures forall i :: 0 <= i < |rows| ==> |rows[i]| == |rows[ControlledIndex]|
    ensures forall i, j :: 0 <= i < |rows| && i != ControlledIndex && 0 <= j < |rows[i]| ==> rows[i][j] == 0.0
  {
    var command := if useScript then c.viaScript(fed, verbose) else c.viaModule(fed, verbose);
    var rows := seq(PaddedRows, i => if i == ControlledIndex then command else Zeros(|command|));
    assert forall i :: 0 <= i < PaddedRows && i != ControlledIndex ==> rows[i] == Zeros(|command|);
    rows
  }

  /** The controlled actor's output for one tick, given the rows `get_action` produced:
      those rows as data, and validity and control flags that claim exactly the indices the
      expert actor leaves out. */
  function ControlledOutput(n: nat, rows: seq<seq<real>>): (out: ActorOutput)
    ensures out.action.data == rows
    ensures |out.isControlled| == n && |out.action.valid| == n
    ensures forall i :: 0 <= i < n ==> (out.isControlled[i] <==> !ExpertMask(n)[i])
    ensures forall i :: 0 <= i < n ==> out.action.valid[i] == [out.isControlled[i]]
  {
    ActorOutput([0.0], Action(rows, ValidMask(n)), ControlledMask(n))
  }

  /** The number of true flags in a mask. */
  function CountTrue(m: seq<bool>): nat
    decreases |m|
  {
    if m == [] then 0 else CountTrue(m[..|m| - 1]) + (if m[|m| - 1] then 1 else 0)
  }

  /** Every object index is claimed by exactly one of the two actors. */
  lemma MasksPartition(n: nat)
    ensures |ExpertMask(n)| == |ControlledMask(n)| == |ValidMask(n)| == n
    ensures forall i :: 0 <= i < n ==> ExpertMask(n)[i] != ControlledMask(n)[i]
    ensures forall i :: 0 <= i < n ==> ValidMask(n)[i] == [ControlledMask(n)[i]]
  {
  }

  /** The controlled actor claims one object when the scenario has an index 4, none otherwise. */
  lemma {:induction false} ControlledClaimsOne(n: nat)
    ensures CountTrue(ControlledMask(n)) == if n > ControlledIndex then 1 else 0
  {
    if n > 0 {
      assert ControlledMask(n)[..n - 1] == ControlledMask(n - 1);
      ControlledClaimsOne(n - 1);
    }
  }

  /** Between them, the two actors claim each of the `n` objects once. */
  lemma {:induction false} ClaimsCoverAll(n: nat)
    ensures CountTrue(ExpertMask(n)) + CountTrue(ControlledMask(n)) == n
  {
    if n > 0 {
      assert ExpertMask(n)[..n - 1] == ExpertMask(n - 1);
      assert ControlledMask(n)[..n - 1] == ControlledMask(n - 1);
      ClaimsCoverAll(n - 1);
    }
  }

  /** The padded data has one row per object exactly when the scenario has 16 objects: the
      row count is fixed while the masks follow the object count. */
  lemma PaddedRowsMatchObjects(c: Controller, useScript: bool, verbose: bool, fed: Entry, n: nat)
    ensures |ControlledOutput(n, GetAction(c, useScript, verbose, fed)).action.data| == n <==> n == PaddedRows
  {
  }

  /** Within the rows both arrays have, a row may carry a non-zero value only where the
      controlled actor's validity flag is set. */
  lemma {:induction false} NonZeroRowsAreValid(c: Controller, useScript: bool, verbose: bool, fed: Entry, n: nat, i: nat, j: nat)
    requires i < n && i < PaddedRows
    requires j < |GetAction(c, useScript, verbose, fed)[i]|
    requires GetAction(c, useScript, verbose, fed)[i][j] != 0.0
    ensures ControlledOutput(n, GetAction(c, useScript, verbose, fed)).action.valid[i] == [true]
  {
  }
}
