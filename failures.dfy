/** Optional values, the load-time errors of the slide deck, and a Result
    type that carries either a value or one of those errors. */
module Failures {

  datatype Option<+T> = None | Some(value: T)

  /** Every way loading a presentation can fail. */
  datatype Error =
    | UnsupportedElement(kind: string, slide: nat)  // an AST node type with no element class; 1-based slide number
    | UnsupportedEffect(effect: string)             // effect name missing from the effect registry
    | UnsupportedColor(color: string)               // colour name missing from the colour table
    | EffectWithColor                               // an effect and an explicit fg/bg on one slide
    | EffectWithCode                                // an effect and a code block on one slide
    | MissingAsset(path: string)                    // image or codio script file that does not exist
    | EmptyCodeBlock                                // max() over the lines of a code block without lines
    | NotImplemented(kind: string)                  // size/render that the element class does not implement

  datatype Result<+T> = Ok(value: T) | Err(error: Error) {

    predicate IsFailure() {
      Err?
    }

    function PropagateFailure<U>(): Result<U>
      requires Err?
    {
      Err(error)
    }

    function Extract(): T
      requires Ok?
    {
      value
    }
  }
}
