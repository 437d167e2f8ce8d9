/**
 The policy the unbatched sink consults when the server reports a primary
 key violation. It concerns that one kind of failure only.
 */
module PrimaryKeyViolationBehaviour {

  /** Exactly two policies. */
  datatype Behaviour = Ignore | Throw

  /** What a policy promises to do with a primary key violation. */
  datatype Reaction =
    | SkipAndContinue     // the offending row is skipped, the remaining rows are still written
    | Propagate           // the standard ADO.NET behaviour: the exception reaches the caller

  /** The documented meaning of each policy. */
  function OnViolation(b: Behaviour): (r: Reaction)
    ensures r == SkipAndContinue <==> b == Ignore
    ensures r == Propagate <==> b == Throw
  {
    match b
    case Ignore => SkipAndContinue
    case Throw => Propagate
  }
}
