/** The records of the shared `common-types` crate that several services use. */
module CommonTypes {
  import opened Text

  datatype PolicyAction = Allow | Block | Warn | Monitor | Review | RequireApproval | ContentPending

  /** `Display` of an action: the text stored in the database. */
  function ActionName(action: PolicyAction): string {
    match action
    case Allow => "Allow"
    case Block => "Block"
    case Warn => "Warn"
    case Monitor => "Monitor"
    case Review => "Review"
    case RequireApproval => "RequireApproval"
    case ContentPending => "ContentPending"
  }

  datatype Verdict = Verdict(primaryCategory: string, subcategory: string, riskLevel: string,
                             confidence: real, recommendedAction: PolicyAction)

  datatype PolicyDecision = PolicyDecision(action: PolicyAction, cacheHit: bool,
                                           verdict: Option<Verdict>, decisionSource: Option<string>)
}
