/** Values shared by the research components: graph nodes and edges, research
    branches and their records. Timestamps, titles and free text that no branch
    of the code inspects are not part of the model. */
module Schema {

  import opened Wrappers

  datatype Error =
    | SelfLoop
    | UnknownNode(id: string)
    | WouldCycle
    | UnknownBranch(id: string)
    | UnknownRecord(id: string)
    | UnknownEvidence
    | GateRejected
    | TerminalState
    | NotChallenged
    | ChallengeClosed

  datatype Outcome = Ok | Err(error: Error)

  datatype EdgeKind =
    | Supports | Contradicts | Tests | DerivedFrom | Reviews | Verifies
    | Challenges | Revises | Supersedes | ForkedFrom

  datatype Edge = Edge(source: string, target: string, kind: EdgeKind, branch: Option<string>)

  datatype NodeKind =
    | Claim | Evidence | Counterexample | Experiment | Result | Review
    | CouncilReview | Knowledge | Challenge

  /** The parts of a node's metadata that are rewritten after creation. */
  datatype Metadata =
    | Plain
    | CounterexampleData(resolved: bool, resolution: Option<string>)
    | ExperimentData(status: ExperimentStatus, actualResult: Option<string>)

  datatype Node = Node(id: string, branch: Option<string>, kind: NodeKind, statement: string, metadata: Metadata)

  datatype ExperimentStatus = Planned | Running | Passed | Failed | Inconclusive

  datatype BranchStatus = Proposed | Active | Blocked | UnderReview | Verified | Rejected | Archived

  datatype EvidenceRecord = EvidenceRecord(id: string, claim: string)

  datatype CounterexampleRecord = CounterexampleRecord(
    id: string, description: string, source: string, resolved: bool, resolution: Option<string>)

  datatype ExperimentRecord = ExperimentRecord(
    id: string, protocol: string, status: ExperimentStatus, actualResult: Option<string>)

  datatype ReviewRecord = ReviewRecord(id: string, summary: string, checkedEvidence: seq<string>)

  datatype Branch = Branch(
    id: string,
    hypothesis: string,
    parent: Option<string>,
    evidence: seq<EvidenceRecord>,
    counterexamples: seq<CounterexampleRecord>,
    experiments: seq<ExperimentRecord>,
    result: Option<string>,
    status: BranchStatus,
    criticReviews: seq<ReviewRecord>,
    verifierReviews: seq<ReviewRecord>)
}
