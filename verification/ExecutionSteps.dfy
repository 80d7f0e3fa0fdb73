/** The step record the graph functions and the runner share. */
module ExecutionSteps {
  import opened Wrappers

  datatype StepAction = Discover | Export | Erase | Verify

  datatype StepStatus = Pending | Prepared | InFlight | Verifying | Succeeded | Failed | NeedsReview | Blocked

  datatype Expectation = Absent | Anonymized | Exported | Retained

  datatype ExecutionStep = ExecutionStep(
    id: string, operationKey: string, connector: string, action: StepAction, dependencies: seq<string>,
    status: StepStatus, attempts: nat, desiredState: Expectation, blockReason: Option<string>)

  predicate Bad(s: StepStatus) {
    s in {Failed, NeedsReview, Blocked}
  }
}
