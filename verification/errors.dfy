/** Failures the modelled code can raise, and a result type carrying them.

The Python code signals every failure with an exception; the model returns
`Err` instead, so that each error path is an explicit, checkable branch.
 */
module Errors {

  datatype Error =
    /** `ValueError`: `fit_area` was asked for an area that is not positive. */
    | AreaNotPositive
    /** `ValueError`: no candidate of the `fit_area` search fits the area. */
    | AreaUnfittable
    /** `ZeroDivisionError` from a ratio whose denominator is zero. */
    | DivisionByZero
    /** `ValueError` from `math.sqrt` of a negative area ratio. */
    | MathDomain
    /** `TypeError`: a dimension size was built with a width <= 0. */
    | NonPositiveWidth
    /** `TypeError`: a dimension size was built with a height <= 0. */
    | NonPositiveHeight
    /** `NameError`: the code refers to a name that is never bound. */
    | UndefinedName
    /** `TypeError`: a constructor was called with the wrong number of arguments. */
    | WrongArgumentCount
    /** `OverflowError`: a negative value was stored into an unsigned C field. */
    | NegativeUnsigned
    /** A field of the null image pointer of an empty image was dereferenced. */
    | NullStack
    /** The image engine reported a failure (raised through `magick_try`). */
    | EngineFailure

  datatype Result<+T> = Ok(value: T) | Err(error: Error)
}
