/**
 * Outcome types shared by every component: Python's `None` becomes `Option.None`, and every
 * exception the core raises becomes a `Failure` carried by `Result.Err`.
 */
module Failures {

  datatype Option<+T> = None | Some(value: T)

  /** The exceptions the preparation tool raises, one constructor per distinct raise site kind. */
  datatype Failure =
    // ParseException('Redefining ...'): \newcommand of a name that is already defined
    | Redefinition(name: string)
    // ParseException / InvalidIncludeException: a required file does not exist
    | FileNotFound(path: string)
    // ParseException: no file `path + ext` exists for any allowed extension
    | NoFileWithExtension(path: string)
    // ParseException (main2.py) / FileSearchException (main.py): zero or several candidates
    | NotExactlyOneMatch(path: string, count: nat)
    // InvalidIncludeException: the written extension differs from the directive's extension
    | ExtensionMismatch(expected: string, path: string)
    // ValueError: a definition body that is not closed within the lookahead bound
    | LookaheadExceeded
    // ValueError / StopIteration: the input ends before the bracket is closed
    | UnclosedBracket
    // ValueError (main.py): the first line closes more brackets than it opens
    | MoreClosingThanOpening
    // AssertionError: the balancer's first line does not start with `{` or end with a newline
    | MalformedDefinitionLine
    // AssertionError (main.py): no \newcommand header on the line handed to the definition parser
    | NoDefinitionHeader
    // AssertionError: `_copy` asked to copy a path that is not a file
    | NotAFile(path: string)
    // ParseException: an invocation whose argument count differs from the definition's
    | ArgumentCount(name: string, numArgs: nat, given: nat)
    // IndexError('no such group'): expansion of a command declared with an explicit `[0]`
    | NoSuchGroup(name: string)
    // re.error: the regular expression built from an empty command name does not compile
    | InvalidPattern(name: string)
    // RecursionError: macro expansion or include recursion deeper than the interpreter allows
    | RecursionLimit
    // ValueError (main.py): the output directory is too big to be deleted automatically
    | TooBigToDelete

  datatype Result<+T> = Ok(value: T) | Err(error: Failure)
}
