/** The exceptions the builder can raise, and the values that carry them. */
module Outcomes {

  datatype Error =
    /** IndexOutOfBoundsException from fixIndex on an empty list ("use addFirst(str) instead"). */
    | EmptyList
    /** IndexOutOfBoundsException from fixIndex: the index lies outside low <= x <= high. */
    | OutOfRange(index: int, low: int, high: int)
    /** IllegalArgumentException from removeBatch: the resolved start lies after the resolved end. */
    | StartAfterEnd(start: nat, end: nat)
    /** NoSuchElementException from LinkedList.removeFirst/removeLast/getFirst/getLast on an empty list. */
    | NoSuchElement

  /** A value, or the exception that prevented computing it. */
  datatype Result<+T> = Success(value: T) | Failure(error: Error)

  /** Whether a state-changing call completed or threw. */
  datatype Outcome = Pass | Fail(error: Error)
}
