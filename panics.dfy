/** The ways shamir-combine stops with a panic. The program never recovers
    from one, so the model returns the first one reached as an error value
    and does nothing after it. */
module Panics {
  datatype Panic =
    | WrongFieldCount      // a line does not split into five '='-separated fields
    | BadNumber            // K, W or S is not an unsigned integer of its type
    | TrailingData         // something follows the last '='
    | ZeroWidth            // W = 0: the remainder by W divides by zero
    | NotMultipleOfWidth   // 4 * (hex length) is not a multiple of W
    | MissingPadding       // W = 4 and an odd number of hex digits
    | InvalidHex           // the share data is not an even run of hex digits
    | BadFieldWidth        // the first line's W is not 4, 8, 16 or 32
    | BadQuorum            // the first line's K is outside 1 .. 2^(W-1)
    | MismatchedWidth      // a later line's W differs from the first line's
    | MismatchedQuorum     // a later line's K differs from the first line's
    | WrongShareLength     // a later line's hex length differs from the first line's
    | BadShareIndex        // S is outside 1 .. 2^(W-1)
    | UnsupportedWidth     // storing an x-value for W other than 8 is unimplemented
    | MissingShares        // pass 1 indexes past the x-values it has
    | DivisionByZero       // pass 1 divides by x_j ^ x_l = 0 (two equal x-values)
    | LinearIndependence   // pass 1 computed a zero coefficient
    | MissingShareData     // pass 2 indexes past the share bytes it has
    | MissingCoefficients  // pass 2 indexes past the coefficients it has
    | FieldNotImplemented  // W is 4, 16 or 32: the solver for that field panics
    | NoFieldWidth         // no line was read, so W is still 0
}
