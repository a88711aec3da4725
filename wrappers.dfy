/** Option and Result, the failure-compatible wrappers the model uses for
    PHP's null and for the exceptions the renderer throws. */
module Wrappers {

  datatype Option<+T> = None | Some(value: T) {
    function GetOr(default: T): T {
      match this
      case Some(v) => v
      case None => default
    }
  }

  datatype Result<+T, +E> = Ok(value: T) | Err(error: E) {
    predicate IsFailure() {
      Err?
    }

    function PropagateFailure<U>(): Result<U, E>
      requires Err?
    {
      Err(error)
    }

    function Extract(): T
      requires Ok?
    {
      value
    }
  }
}

/** The exceptions `Hiccup::html` can end with. No render produces partial
    output: every error aborts the whole call. */
module Errors {
  import opened Wrappers
  import opened PhpText

  datatype Error =
      /** `InvalidArgumentException`: the spec has no tag name. */
    | InvalidTagName(spec: string)
      /** `InvalidArgumentException`: a `[class]` bracket attribute. */
    | ClassBracketNotAllowed
      /** `InvalidArgumentException`: a remainder that no token pattern matches;
          `trail` holds the texts matched so far, `rest` the unparsed remainder. */
    | InvalidTagSpec(trail: seq<string>, rest: string)
      /** `RuntimeException`: an override `class` entry that is neither null,
          a string nor an array; `kind` is PHP's `gettype` of it. */
    | InvalidClassType(kind: string)
      /** `TypeError`: an array given as the value of an attribute other than `class`. */
    | InvalidAttributeValue(name: string)
      /** `InvalidArgumentException`: children given to a void tag. */
    | VoidTagChildren(tag: string)
      /** `InvalidArgumentException`: an element that is not renderable;
          `key` is its position in the argument list of `html`. */
    | NotStringable(key: nat, description: string)

  /** The exception message the renderer writes itself (the misspelling
      "invalig" is the source's own). An array given for an attribute fails
      inside PHP with a `TypeError` whose text PHP writes, so it has none here. */
  function Message(e: Error): Option<string> {
    match e
    case InvalidTagName(spec) => Some("invalig tag name (" + spec + ")")
    case ClassBracketNotAllowed => Some("[class]... syntax not allowed")
    case InvalidTagSpec(trail, rest) => Some("invalid tag spec (" + JoinWith("|", trail) + "|HERE>" + rest + ")")
    case InvalidClassType(kind) => Some("invalid type of 'class' attribute: " + kind)
    case InvalidAttributeValue(_) => None
    case VoidTagChildren(tag) => Some("children found for self-closing (void) tag (" + tag + ")")
    case NotStringable(key, description) =>
      Some("Element " + IntToString(key) + " is not string(able): " + description)
  }
}
