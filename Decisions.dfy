/**
 * The answer a model gives for one pair (data/EntailmentDecision is not part
 * of this model beyond its three string properties). A property never set
 * is None, the null a fresh decision object starts with.
 */
module Decisions {
  import opened Strings

  datatype Decision = Decision(decision: Option<string>, justification: Option<string>, model: Option<string>)

  /** The decision with all three properties set. */
  function Decided(decision: string, justification: string, model: string): (d: Decision)
    ensures d.decision == Some(decision) && d.justification == Some(justification) && d.model == Some(model)
  {
    Decision(Some(decision), Some(justification), Some(model))
  }
}
