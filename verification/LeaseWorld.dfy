/** The two stores that must agree: the Akash chain and the deployment table. */
module LeaseWorld {
  import opened Option

  datatype Status =
    | CREATING | WAITING_BIDS | SELECTING_BID | CREATING_LEASE | SENDING_MANIFEST | DEPLOYING
    | ACTIVE | FAILED | CLOSED | SUSPENDED | PERMANENTLY_FAILED
    | CLOSE_FAILED | AWAITING_REGION_RESPONSE

  datatype Row = Row(id: string, dseq: int, status: Status, serviceId: string, policyId: Option<string>)

  /** `chain` holds the escrow state of every dseq the active-state query lists. */
  datatype World = World(chain: map<int, string>, rows: seq<Row>)

  /**
   What a call of the orchestrator's `closeDeployment` can do. A failed close
   may still have landed on chain: the transaction can be included after the
   poll for it gave up.
   */
  datatype CloseAnswer =
    | ReportedClosed
    | ReportedGone
    | ReportedFailed(landed: bool)
    | Threw(saysGone: bool, landed: bool)
  {
    /** The dseq is no longer listed once the call is over. */
    predicate Removes() {
      match this
      case ReportedClosed => true
      case ReportedGone => true
      case ReportedFailed(landed) => landed
      case Threw(saysGone, landed) => saysGone || landed
    }

    /** The call returned, with a chain status other than FAILED. */
    predicate Succeeded() {
      ReportedClosed? || ReportedGone?
    }
  }

  function ChainAfter(chain: map<int, string>, dseq: int, answer: CloseAnswer): map<int, string> {
    if answer.Removes() then chain - {dseq} else chain
  }
}
