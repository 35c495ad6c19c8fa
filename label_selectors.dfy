/**
 * A stand-in for the label-selector library the handler calls
 * (metav1.LabelSelectorAsSelector and Selector.Matches). Conversion fails on
 * a requirement whose operator is unknown or whose value list does not suit
 * its operator; matching is the conjunction of all terms.
 */
module LabelSelectors {
  import opened Common
  import opened ApiTypes

  const InvalidSelectorError: Error := Error("invalid label selector")

  predicate WellFormedRequirement(r: LabelSelectorRequirement) {
    match r.operator
    case In => r.values != []
    case NotIn => r.values != []
    case Exists => r.values == []
    case DoesNotExist => r.values == []
    case Unrecognised(_) => false
  }

  predicate WellFormed(ls: LabelSelector) {
    forall i :: 0 <= i < |ls.matchExpressions| ==> WellFormedRequirement(ls.matchExpressions[i])
  }

  /** LabelSelectorAsSelector: the selector itself when well formed, an error otherwise. */
  function AsSelector(ls: LabelSelector): (r: Result<LabelSelector, Error>)
    ensures r.Success? <==> WellFormed(ls)
    ensures r.Success? ==> r.value == ls
  {
    if WellFormed(ls) then Success(ls) else Failure(InvalidSelectorError)
  }

  predicate RequirementMatches(r: LabelSelectorRequirement, labels: map<string, string>) {
    match r.operator
    case In => r.key in labels && labels[r.key] in r.values
    case NotIn => r.key !in labels || labels[r.key] !in r.values
    case Exists => r.key in labels
    case DoesNotExist => r.key !in labels
    case Unrecognised(_) => false
  }

  /** Selector.Matches: every matchLabels pair is present and every requirement holds. */
  predicate Matches(ls: LabelSelector, labels: map<string, string>) {
    && (forall k :: k in ls.matchLabels ==> k in labels && labels[k] == ls.matchLabels[k])
    && (forall i :: 0 <= i < |ls.matchExpressions| ==> RequirementMatches(ls.matchExpressions[i], labels))
  }
}
