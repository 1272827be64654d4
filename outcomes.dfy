/** Option, Result and the one error the registry raises (Python's KeyError). */
module Outcomes {

  datatype Option<+T> = None | Some(value: T)

  /** Why a registry call raised KeyError: the game code is not a key of the
      registry, or no member of the game has the given name. */
  datatype KeyError =
    | MissingGame(code: string)
    | MissingPlayer(code: string, name: string)

  datatype Result<+T> = Ok(value: T) | Err(error: KeyError)

  /** What a registry call that returns nothing reports: it completed, or it raised. */
  datatype Outcome = Done | Raised(error: KeyError)

  function OutcomeOf<T>(r: Result<T>): Outcome {
    match r
    case Ok(_) => Done
    case Err(e) => Raised(e)
  }
}
