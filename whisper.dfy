/**
 * `get_whisper_model`: the process-wide speech-recognition model, built on
 * first use and shared afterwards. Building it (`WhisperModel(...)`) is the
 * abstract function `load`. It is applied to the number of builds run
 * before this one, then to the size, device and compute type. The build
 * number stands in for the world outside, such as a download that fails
 * once and works later. `load` gives `None` when the constructor raises. The
 * exception then leaves `get_whisper_model`, nothing is stored, and the next
 * call builds again.
 */
module Whisper {
  import opened Wrappers

  type Loader<M> = (nat, string, string, string) -> Option<M>

  /** The module-level `_WHISPER` dictionary, reduced to its "model" slot. */
  class ModelSlot<M> {
    var model: Option<M>
    /** How many times `WhisperModel(...)` has been run, successfully or not. */
    var builds: nat
    /** How many times a model has been built successfully. */
    ghost var loads: nat

    /** At most one build ever succeeds: exactly one when a model is held. */
    ghost predicate Valid()
      reads this
    {
      loads == if model.None? then 0 else 1
    }

    constructor ()
      ensures Valid() && model == None && builds == 0
    {
      model := None;
      builds := 0;
      loads := 0;
    }

    /** Build the model unless one is already held, then return the held one.
        A result `None` is the constructor's exception propagating. */
    method GetWhisperModel(load: Loader<M>, modelSize: string, device: string, computeType: string)
      returns (m: Option<M>)
      requires Valid()
      modifies this
      ensures Valid()
      ensures old(model).None? ==>
        && m == load(old(builds), modelSize, device, computeType)
        && model == m && builds == old(builds) + 1
      ensures old(model).Some? ==>
        m == old(model) && model == old(model) && builds == old(builds) && loads == old(loads)
    {
      if model.None? {
        var built := load(builds, modelSize, device, computeType);
        builds := builds + 1;
        if built.None? {
          return None;
        }
        model := built;
        loads := loads + 1;
      }
      m := model;
    }
  }

  /** The slot after calls with the argument triples `args`, in order, on a new
      slot: what it holds and how many builds were run. */
  function Run<M>(load: Loader<M>, args: seq<(string, string, string)>): (Option<M>, nat) {
    if args == [] then (None, 0)
    else
      var before := Run(load, args[..|args| - 1]);
      var a := args[|args| - 1];
      if before.0.Some? then before else (load(before.1, a.0, a.1, a.2), before.1 + 1)
  }

  function Held<M>(load: Loader<M>, args: seq<(string, string, string)>): Option<M> {
    Run(load, args).0
  }

  /** Until a model is held, every call runs a build, so the build number of
      call i is i. */
  lemma {:induction false} BuildsWhileEmpty<M>(load: Loader<M>, args: seq<(string, string, string)>)
    requires Held(load, args).None?
    ensures Run(load, args).1 == |args|
  {
    if args != [] {
      BuildsWhileEmpty(load, args[..|args| - 1]);
    }
  }

  /** Once a model is held, every later call returns that same model,
      whatever arguments it passes. */
  lemma {:induction false} HeldStays<M>(load: Loader<M>, args: seq<(string, string, string)>, i: nat, j: nat)
    requires i <= j <= |args| && Held(load, args[..i]).Some?
    ensures Held(load, args[..j]) == Held(load, args[..i])
    decreases j - i
  {
    if i < j {
      HeldStays(load, args, i, j - 1);
      assert args[..j][..j - 1] == args[..j - 1];
    }
  }

  /** A model is held iff some call's build succeeded. Call i, reached with
      the slot empty, runs build number i. */
  lemma {:induction false} HeldIffSomeSuccess<M>(load: Loader<M>, args: seq<(string, string, string)>)
    ensures Held(load, args).Some? <==>
      exists i :: 0 <= i < |args| && load(i, args[i].0, args[i].1, args[i].2).Some?
  {
    if args != [] {
      var init := args[..|args| - 1];
      HeldIffSomeSuccess(load, init);
      forall i | 0 <= i < |init| ensures init[i] == args[i] { }
      if Held(load, init).None? {
        BuildsWhileEmpty(load, init);
      }
    }
  }

  /** A build that succeeds while the slot is empty gives the model held
      from then on. */
  lemma HeldIsFirst<M>(load: Loader<M>, args: seq<(string, string, string)>, i: nat)
    requires i < |args| && Held(load, args[..i]).None?
    requires load(i, args[i].0, args[i].1, args[i].2).Some?
    ensures Held(load, args) == load(i, args[i].0, args[i].1, args[i].2)
  {
    assert args[..i + 1][..i] == args[..i];
    BuildsWhileEmpty(load, args[..i]);
    HeldStays(load, args, i + 1, |args|);
    assert args[..|args|] == args;
  }

  /** A model is held iff some call's build succeeded, and the held model is
      the first successful build. */
  lemma HeldIsFirstSuccess<M>(load: Loader<M>, args: seq<(string, string, string)>)
    ensures Held(load, args).Some? <==>
      exists i :: 0 <= i < |args| && load(i, args[i].0, args[i].1, args[i].2).Some?
    ensures forall i ::
      (0 <= i < |args| && Held(load, args[..i]).None? && load(i, args[i].0, args[i].1, args[i].2).Some?)
      ==> Held(load, args) == load(i, args[i].0, args[i].1, args[i].2)
  {
    HeldIffSomeSuccess(load, args);
    forall i | 0 <= i < |args| && Held(load, args[..i]).None? && load(i, args[i].0, args[i].1, args[i].2).Some?
      ensures Held(load, args) == load(i, args[i].0, args[i].1, args[i].2)
    {
      HeldIsFirst(load, args, i);
    }
  }

  /** Two calls on a fresh slot. The first builds the model from its own
      arguments. The second returns that same handle whatever it passes, or,
      if the first build raised, runs a second build from its own arguments. */
  method FirstCallWins<M>(load: Loader<M>,
                          size1: string, device1: string, type1: string,
                          size2: string, device2: string, type2: string)
    returns (first: Option<M>, second: Option<M>)
    ensures first == load(0, size1, device1, type1)
    ensures first.Some? ==> second == first
    ensures first.None? ==> second == load(1, size2, device2, type2)
  {
    var slot := new ModelSlot<M>();
    first := slot.GetWhisperModel(load, size1, device1, type1);
    second := slot.GetWhisperModel(load, size2, device2, type2);
  }

  /** A download that fails once and then works: with the default arguments
      both times, the first call raises and the second returns the model. */
  method RetryAfterFailedBuild() returns (first: Option<nat>, second: Option<nat>)
    ensures first == None && second == Some(1)
  {
    var flaky: Loader<nat> := (k: nat, size: string, device: string, computeType: string) =>
      if k == 0 then None else Some(k);
    first, second := FirstCallWins(flaky, "small", "cpu", "int8", "small", "cpu", "int8");
  }

  /** A sequence of calls on a fresh slot: call i returns what the slot holds
      after the first i+1 calls. */
  method ManyCalls<M>(load: Loader<M>, args: seq<(string, string, string)>)
    returns (handles: seq<Option<M>>)
    ensures |handles| == |args|
    ensures forall i :: 0 <= i < |handles| ==> handles[i] == Held(load, args[..i + 1])
  {
    var slot := new ModelSlot<M>();
    handles := [];
    var i := 0;
    while i < |args|
      invariant 0 <= i <= |args|
      invariant slot.Valid()
      invariant (slot.model, slot.builds) == Run(load, args[..i])
      invariant |handles| == i
      invariant forall j :: 0 <= j < i ==> handles[j] == Held(load, args[..j + 1])
    {
      assert args[..i + 1][..i] == args[..i];
      var h := slot.GetWhisperModel(load, args[i].0, args[i].1, args[i].2);
      handles := handles + [h];
      i := i + 1;
    }
  }
}
