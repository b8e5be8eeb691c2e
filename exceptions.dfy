/**
 * The exception classes of indj/exceptions.py, plus the built-in TypeError and
 * ValueError that the modelled code can raise, as one error datatype carrying
 * the message.
 */
module Exceptions {

  datatype IndjError =
    | DjangoIndexError(message: string)
    | LookupHandlerError(message: string)
    | ExactMatchNotFound(message: string)
    | FuzzyMatchNotFound(message: string)
    | TypeError(message: string)
    | ValueError(message: string)
}
