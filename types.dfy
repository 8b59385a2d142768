/**
 * The entities shared by the backend and the dashboards: the hierarchical scope
 * tree, the assignment and project statuses, the three scope axes and the
 * dashboard tabs.
 */
module Types {

  import opened Wrappers

  /** A part of a division together with the work types chosen for it. */
  datatype ScopePart = ScopePart(name: string, workTypes: seq<string>)

  /** One division of a scope tree and the parts chosen in it. */
  datatype ScopeItem = ScopeItem(division: string, parts: seq<ScopePart>)

  /** The statuses an assignment can carry; member assignments never use Pending. */
  datatype Status = Pending | InProgress | PendingAck | Completed | Rejected | RejectionReq

  /** The statuses of a project. */
  datatype ProjectStatus = Active | OnHold | ProjectCompleted

  /** The three axes of a work unit: division, part number and work type. */
  datatype Axis = Div | Part | WorkType

  /** The filter tabs both dashboards offer. */
  datatype Tab = Ongoing | Recent | CompletedTab | HoldTab

  /** The literal string an assignment status is stored and sent as. */
  function WireName(s: Status): string {
    match s
    case Pending => "PENDING"
    case InProgress => "IN_PROGRESS"
    case PendingAck => "PENDING_ACK"
    case Completed => "COMPLETED"
    case Rejected => "REJECTED"
    case RejectionReq => "REJECTION_REQ"
  }

  /** Reads a wire string back; any other string is not a status. */
  function FromWire(w: string): (r: Option<Status>)
    ensures r.Some? ==> WireName(r.value) == w
  {
    if w == "PENDING" then Some(Pending)
    else if w == "IN_PROGRESS" then Some(InProgress)
    else if w == "PENDING_ACK" then Some(PendingAck)
    else if w == "COMPLETED" then Some(Completed)
    else if w == "REJECTED" then Some(Rejected)
    else if w == "REJECTION_REQ" then Some(RejectionReq)
    else None
  }

  /** Every status survives the trip to its wire string and back. */
  lemma WireRoundTrip(s: Status)
    ensures FromWire(WireName(s)) == Some(s)
  {
  }
}
