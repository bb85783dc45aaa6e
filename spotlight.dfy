/** A model of the single-owner "spotlight" contract: a persisted record holding
    an owner address and a 64-bit value, a bootstrap transition that creates it,
    and one guarded action (selector 0x01) that lets only the owner replace the
    value with a strictly positive one. */
module Spotlight {

  /** The chain's account identity; only equality on addresses is used. */
  type Address(==)

  /** Rust's `u64`. The contract does no arithmetic, so no wrap-around arises. */
  newtype U64 = x: int | 0 <= x < 0x1_0000_0000_0000_0000

  const U64_MAX: U64 := 0xFFFF_FFFF_FFFF_FFFF

  /** The invocation context, reduced to the calling identity; chain metadata is not used. */
  datatype ContractContext = ContractContext(sender: Address)

  /** The state the runtime persists between invocations. */
  datatype ContractState = ContractState(owner: Address, value: U64)

  /** The outcome of an action: the next state, or which `assert!` aborted the call.
      An abort carries no state, so the only state left is the caller's own copy. */
  datatype ActionResult =
    | Ok(state: ContractState)
    | AuthorizationError   // "Only the owner of the contract can change the value"
    | ValidationError      // "Value must be > 0"

  /** The mutable local `new_state` of the action: a `ContractState` moved into a
      place that the in-place setter `ContractState::set_value` can update. */
  class MutableContractState {
    var owner: Address
    var value: U64

    /** The current contents as a persisted-state value. */
    function Snapshot(): (s: ContractState)
      reads this
    {
      ContractState(owner, value)
    }

    /** Moves a persisted state into the local that the in-place setter updates. */
    constructor (state: ContractState)
      ensures Snapshot() == state
    {
      owner := state.owner;
      value := state.value;
    }

    /** `ContractState::set_value`: assigns `value` and touches nothing else. */
    method SetValue(newValue: U64)
      modifies this`value
      ensures value == newValue
      ensures owner == old(owner)
      ensures Snapshot() == old(Snapshot()).(value := newValue)
    {
      value := newValue;
    }
  }

  /** `initialize`: the caller becomes the owner and the initial value is taken as
      given, zero included. It cannot fail. */
  function Initialize(ctx: ContractContext, initialValue: U64): (s: ContractState)
    ensures s.owner == ctx.sender
    ensures s.value == initialValue
  {
    ContractState(ctx.sender, initialValue)
  }

  /** The `set_value` action as a by-value transition. The owner check comes
      first, so a foreign sender is refused whatever the value, zero included. */
  function SetValue(ctx: ContractContext, state: ContractState, value: U64): (r: ActionResult)
    ensures ctx.sender != state.owner ==> r == AuthorizationError
    ensures ctx.sender == state.owner && value == 0 ==> r == ValidationError
    ensures r.Ok? <==> ctx.sender == state.owner && value > 0
    ensures r.Ok? ==> r.state.owner == state.owner && r.state.value == value
  {
    if ctx.sender != state.owner then AuthorizationError
    else if !(value > 0) then ValidationError
    else Ok(state.(value := value))
  }

  /** The action as the source executes it: both guards, then the move into a
      mutable local, the in-place setter, and the local returned. */
  method SetValueAction(ctx: ContractContext, state: ContractState, value: U64)
    returns (r: ActionResult)
    ensures r == SetValue(ctx, state, value)
  {
    if ctx.sender != state.owner {
      return AuthorizationError;
    }
    if !(value > 0) {
      return ValidationError;
    }
    var newState := new MutableContractState(state);
    newState.SetValue(value);
    r := Ok(newState.Snapshot());
  }

  /** Repeating a successful action changes nothing further. */
  lemma SetValueIdempotent(ctx: ContractContext, state: ContractState, value: U64)
    requires SetValue(ctx, state, value).Ok?
    ensures SetValue(ctx, SetValue(ctx, state, value).state, value) == SetValue(ctx, state, value)
  {
  }

  /** Two successful actions in a row leave the same state as the second alone. */
  lemma SetValueLastWriteWins(ctx: ContractContext, state: ContractState, first: U64, second: U64)
    requires SetValue(ctx, state, first).Ok?
    ensures SetValue(ctx, SetValue(ctx, state, first).state, second) == SetValue(ctx, state, second)
  {
  }

  /** One invocation of the action, with its own context and argument. */
  datatype Action = Action(ctx: ContractContext, value: U64)

  /** The guards of `set_value` for a state owned by `owner`. */
  predicate Accepted(owner: Address, a: Action) {
    a.ctx.sender == owner && a.value > 0
  }

  /** Applies the actions in order and stops at the first abort. */
  function Run(state: ContractState, actions: seq<Action>): ActionResult
    decreases |actions|
  {
    if actions == [] then Ok(state)
    else
      match SetValue(actions[0].ctx, state, actions[0].value)
      case Ok(next) => Run(next, actions[1..])
      case failure => failure
  }

  /** A run succeeds exactly when every action comes from the owner with a
      strictly positive value. */
  lemma {:induction false} RunOkIff(state: ContractState, actions: seq<Action>)
    ensures Run(state, actions).Ok? <==>
      forall i :: 0 <= i < |actions| ==> Accepted(state.owner, actions[i])
    decreases |actions|
  {
    if actions != [] {
      var a := actions[0];
      var r := SetValue(a.ctx, state, a.value);
      if r.Ok? {
        RunOkIff(r.state, actions[1..]);
        assert forall i :: 1 <= i < |actions| ==> actions[i] == actions[1..][i - 1];
      }
    }
  }

  /** A successful run keeps the owner and leaves the value of the last action,
      or the starting value when there was none. */
  lemma {:induction false} RunOutcome(state: ContractState, actions: seq<Action>)
    requires Run(state, actions).Ok?
    ensures Run(state, actions).state.owner == state.owner
    ensures actions == [] ==> Run(state, actions).state.value == state.value
    ensures actions != [] ==> Run(state, actions).state.value == actions[|actions| - 1].value
    decreases |actions|
  {
    if actions != [] {
      var next := SetValue(actions[0].ctx, state, actions[0].value).state;
      RunOutcome(next, actions[1..]);
    }
  }

  /** When a run aborts, the error is the one the first refused action raises:
      the earlier actions leave the owner, and so the guards, as they were. */
  lemma {:induction false} RunAbortsAt(state: ContractState, actions: seq<Action>, k: nat)
    requires k < |actions|
    requires forall i :: 0 <= i < k ==> Accepted(state.owner, actions[i])
    requires !Accepted(state.owner, actions[k])
    ensures Run(state, actions) == SetValue(actions[k].ctx, state, actions[k].value)
    ensures !Run(state, actions).Ok?
    decreases k
  {
    if k > 0 {
      var next := SetValue(actions[0].ctx, state, actions[0].value).state;
      assert forall i :: 0 <= i < k - 1 ==> actions[1..][i] == actions[i + 1];
      RunAbortsAt(next, actions[1..], k - 1);
    }
  }

  /** The contract's lifecycle: from `initialize(ctx, iv)`, after any sequence of
      actions that all succeed, every intermediate state is owned by the
      initializer and holds `iv` before any action and the latest, positive,
      argument after, and every action was sent by it with a positive value. */
  lemma Lifecycle(ctx: ContractContext, initialValue: U64, actions: seq<Action>)
    requires Run(Initialize(ctx, initialValue), actions).Ok?
    ensures forall i :: 0 <= i < |actions| ==>
      actions[i].ctx.sender == ctx.sender && actions[i].value > 0
    ensures forall k :: 0 <= k <= |actions| ==>
      Run(Initialize(ctx, initialValue), actions[..k]).Ok? &&
      Run(Initialize(ctx, initialValue), actions[..k]).state.owner == ctx.sender &&
      Run(Initialize(ctx, initialValue), actions[..k]).state.value ==
        (if k == 0 then initialValue else actions[k - 1].value)
    ensures actions == [] ==>
      Run(Initialize(ctx, initialValue), actions).state.value == initialValue
    ensures actions != [] ==>
      Run(Initialize(ctx, initialValue), actions).state.value == actions[|actions| - 1].value > 0
  {
    var init := Initialize(ctx, initialValue);
    RunOkIff(init, actions);
    forall k | 0 <= k <= |actions|
      ensures Run(init, actions[..k]).Ok? && Run(init, actions[..k]).state.owner == ctx.sender
      ensures Run(init, actions[..k]).state.value == (if k == 0 then initialValue else actions[k - 1].value)
    {
      RunOkIff(init, actions[..k]);
      RunOutcome(init, actions[..k]);
      if k > 0 {
        assert actions[..k][k - 1] == actions[k - 1];
      }
    }
    RunOutcome(init, actions);
  }

  /** Concrete runs for two distinct addresses: creation, an update by the owner,
      a refusal of each kind, and the largest 64-bit value. */
  lemma Scenarios(a: Address, b: Address)
    requires a != b
    ensures Initialize(ContractContext(a), 10) == ContractState(a, 10)
    ensures SetValue(ContractContext(a), ContractState(a, 10), 20) == Ok(ContractState(a, 20))
    ensures SetValue(ContractContext(b), ContractState(a, 10), 20) == AuthorizationError
    ensures SetValue(ContractContext(a), ContractState(a, 10), 0) == ValidationError
    ensures SetValue(ContractContext(a), ContractState(a, 10), U64_MAX) == Ok(ContractState(a, U64_MAX))
  {
  }
}
