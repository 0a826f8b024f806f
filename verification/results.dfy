/** Failure-carrying values for the converter.

    Java signals every failure of the tool with an exception that aborts the
    run. The model replaces those exceptions by a `Result` whose failure side
    names the kind of error; message texts are not modelled. */
module Results {

  /** A nullable Java reference: `None` is `null`. */
  datatype Option<+T> = None | Some(value: T)

  /** The ways a run of the tool can fail before or instead of writing output. */
  datatype Failure =
    /** A flag token that is already a key of the parameter map. */
    | DuplicatedParameter(token: string)
    /** A flag token in last position, so it has no value. */
    | BlankParameter(token: string)
    /** A flag token that does not start with two dashes. */
    | InvalidParameter(token: string)
    /** No path for the image rendered over a white background. */
    | MissingWhiteInput
    /** No path for the image rendered over a black background. */
    | MissingBlackInput
    /** No output path. */
    | MissingOutput
    /** A resolution part that `Integer.parseInt` rejects. */
    | InvalidResolution(spec: string)
    /** A parsed width or height that is zero or negative. */
    | NonPositiveResolution
    /** Two input images of different sizes and no explicit resolution. */
    | ResolutionMismatch
    /** A resolution without a separator whose whole text is a number:
        reading the missing second part raises
        `ArrayIndexOutOfBoundsException`, the one failure that is not an
        `IllegalArgumentException`. */
    | ResolutionIndexOutOfBounds

  datatype Result<+T> = Ok(value: T) | Err(error: Failure)
}
