/** The exceptions the modelled code can raise, by kind. */
module Errors {

  datatype Error =
    | InvalidPredicateOp          // InvalidPredicateOpException
    | InefficientQuery            // InefficientQueryError
    | DatabaseError(message: string)
    | TypeError                   // e.g. slicing or searching an int
    | AttributeError              // e.g. calling `.lower()` on an int or on None
    | IndexError                  // e.g. `value[-1]` on an empty string
    | ValueError                  // `chr` out of range, or a non-ASCII byte joined to unicode
    | UnboundLocalError           // a local read before any assignment
    | RegexError                  // re.error: a pattern that does not compile
}
