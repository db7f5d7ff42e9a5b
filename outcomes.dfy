/** Result shapes shared by the whole model: an optional value, and the
    outcome of a call that either returns or raises one of the errors the
    repository's code raises. */
module Outcomes {

  datatype Option<+T> = None | Some(value: T)

  /** The exceptions the modelled code raises (all are Python ValueErrors). */
  datatype Error =
    | ThresholdTooLarge   // threshold greater than the number of members / shares
    | SecretTooLarge      // Shamir: secret >= prime
    | NoShares            // Shamir: reconstruct from an empty share list
    | NotInvertible       // pow(x, -1, m) with gcd(x, m) != 1

  /** What a call that may raise produced. */
  datatype Outcome<+T> = Returned(value: T) | Raised(error: Error)
}
