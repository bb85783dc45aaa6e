# Spotlight contract model

This project models the single-owner smart contract of the spotlight repository.
The contract persists one record: an owner address and an unsigned 64-bit value.
`initialize` creates the record, and the caller becomes the owner.
The `set_value` action (selector 0x01) lets only the owner replace the value, and only with a strictly positive one.

Everything is in `spotlight.dfy`, module `Spotlight`:

- `Address` is an opaque type with equality. `ContractContext` keeps only `sender`.
- `U64` is a newtype bounded to `0 .. 2^64 - 1`. The contract does no arithmetic on it, so wrap-around never arises.
- `ContractState` is the persisted record. It is a datatype, so a copy passed to an action can never be changed by it.
- Each `assert!` of the action becomes an error constructor of `ActionResult`: `AuthorizationError` for the owner check and `ValidationError` for the positivity check. An error carries no state, so after an abort the caller's own copy is the only state.
- `MutableContractState` is the mutable local `new_state` of the action. Its method `SetValue` is the in-place setter `ContractState::set_value`, and its frame `modifies this`value` lets it change that one field only.
- `SetValue` (a function) is the action as a by-value transition. `SetValueAction` (a method) runs the action as the source does: the two guards, the move into a mutable local, the setter call, and the return of the local. The method is proved equal to the function.
- `Run` applies a sequence of actions in order and stops at the first abort. The lifecycle lemmas are stated over it.

## Model

| member | source | states |
|---|---|---|
| Spotlight.Initialize | src/lib.rs:46-57 | never fails; the owner is the sender of the context and the value is the initial value, zero included |
| Spotlight.SetValue | src/lib.rs:75-87 | a sender other than the owner gets the authorization error for every value, zero included, so the owner check comes first; the owner with value 0 gets the validation error; the action succeeds exactly when the sender is the owner and the value is positive, and then the new state has the new value and the same owner |
| Spotlight.SetValueAction | src/lib.rs:80-86 | running the guards, moving the state into a mutable local and calling the in-place setter gives exactly the by-value transition `SetValue` |
| Spotlight.MutableContractState.SetValue | src/lib.rs:27-29 | the setter assigns `value`, may modify no other field, and leaves `owner` as it was |
| Spotlight.MutableContractState.constructor | src/lib.rs:83 | moving a state into the mutable local keeps both fields |
| Spotlight.SetValueIdempotent | src/lib.rs:83-86 | applying the same successful action again to its result gives the same result |
| Spotlight.SetValueLastWriteWins | src/lib.rs:80-86 | after a successful action, a second action by the same sender gives the same outcome as the second action alone |
| Spotlight.RunOkIff | src/lib.rs:80-81 | a sequence of actions succeeds if and only if every action is sent by the owner and carries a positive value |
| Spotlight.RunOutcome | src/lib.rs:80-86 | after a successful sequence the owner is unchanged, and the value is the starting one when the sequence is empty and the last action's argument otherwise |
| Spotlight.RunAbortsAt | src/lib.rs:80-81 | a sequence whose first refused action is at index k aborts, with the error that action alone raises against the starting state |
| Spotlight.Lifecycle | src/lib.rs:46-86 | starting from `initialize(ctx, iv)`, when all actions succeed: every action came from `ctx.sender` with a positive value, every intermediate state is owned by `ctx.sender` and holds `iv` before any action and the latest argument after it, and the final value is `iv` when no action ran and otherwise the last, positive, argument |
| Spotlight.Scenarios | src/lib.rs:46-86 | for two distinct addresses A and B: initialize by A with 10 gives {A, 10}; A setting 20 gives {A, 20}; B setting 20 is an authorization error; A setting 0 is a validation error; A may set the largest u64 value |

## Left out

- The `#[state]`, `#[init]` and `#[action(shortname = 0x01)]` macros: they generate serialization and selector dispatch in an external crate that is not part of this model.
- `Address` and `ContractContext` internals: foreign types; only `sender` and address equality are kept, and the chain metadata in the context is dropped.
- Persistence of the state and rollback of a panicking transaction: both are done by the hosting runtime. An abort is modelled as an error result, and `Run` stops at it instead of modelling the runtime carrying on.
- The panic messages of the two `assert!`s: they appear only as comments on the error constructors.
- That `initialize` runs once per instance: the runtime enforces this, not the contract. The lifecycle lemma simply starts from one `Initialize`.
