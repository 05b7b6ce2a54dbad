/** The failure vocabulary of the game engine.

    The source throws shared `Error` objects whose message is rewritten before
    each throw; here every failure is a value naming its kind. A JavaScript
    exception does not roll back what the method already mutated, so a stateful
    operation returns an `Outcome` whose `state` is the object state the call
    leaves behind, whether it returned or threw. Operations whose throws happen
    before any mutation return a plain `Result`. So does `Topology.SetNeighbor`,
    although its mirrored link can throw after the first link is written: the
    constructor, its only caller, never takes that path.
 */
module Outcomes {

  datatype Error =
    // Cell.ERROR (tridice.js:338-344)
    | AlreadyFull | EmptyCell | NeighborAlreadySet | InvalidNeighbor | DiceDoesntFit
    // Dice.ERROR (tridice.js:228-234)
    | InvalidDirection | NoMoves | NoMovesLeft | HasMovesLeft
    // Tridice.ERROR (tridice.ts:22-26)
    | UndefinedCell | WrongTurnMove | NoSelectedDice
    // the plain `Error` thrown by DiceFaces.move for an illegal up/down tip
    | IllegalTip
    // a TypeError: reading a property of `null` or `undefined`
    | NullDereference

  datatype Option<+T> = None | Some(value: T)

  /** The result of a computation that either yields a value or throws
      without having changed anything. */
  datatype Result<+T> = Ok(value: T) | Err(error: Error)

  /** The result of a call on a stateful object: the state after the call,
      and either the returned value or the thrown error. */
  datatype Outcome<+S, +V> =
    | Returned(state: S, value: V)
    | Threw(error: Error, state: S)
}
