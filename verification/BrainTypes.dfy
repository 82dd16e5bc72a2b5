/** The tables of the fact store: facts, beliefs, transactions and branches. */
module BrainTypes {
  import opened Wrappers
  import Text

  type TxId = nat

  /** Timestamps are strings compared lexicographically. */
  type Time = string

  /** The clock reading taken when the transaction with the given id is allocated. */
  type Clock = TxId -> Time

  const TX_MAX: nat := 0xFFFF_FFFF_FFFF_FFFF
  const MAIN_BRANCH := "main"
  const SESSION_CLOSED_FACT_ID := "session/closed_at"

  datatype FactValue = Str(text: string) | I64(number: int) | Sym(symbol: string)

  datatype Fact = Fact(
    factId: string,
    pred: string,
    value: FactValue,
    createdAt: Time,
    createdByTx: TxId,
    supersededByTx: Option<TxId>,
    revokedByTx: Option<TxId>,
    provenance: string,
    validFrom: Time,
    validTo: Option<Time>)
  {
    /** Neither revoked nor superseded. */
    predicate Unstamped() {
      revokedByTx.None? && supersededByTx.None?
    }

    /** The rows `assert_fact` closes: unstamped, with an open-ended valid time. */
    predicate OpenEnded() {
      Unstamped() && validTo.None?
    }
  }

  datatype BeliefStatus = Active | Superseded | Revoked

  datatype Belief = Belief(
    beliefId: string,
    claimText: string,
    status: BeliefStatus,
    supportedBy: seq<string>,
    createdByTx: TxId,
    validFrom: Time,
    validTo: Option<Time>,
    rationale: string)

  datatype TxAction = AssertFactAction | RetractFactAction | ReviseBeliefAction
                    | RevokeBeliefAction | CreateBranchAction | MergeAction

  datatype Tx = Tx(
    txId: TxId,
    txTime: Time,
    action: TxAction,
    refs: seq<string>,
    parentTxId: Option<TxId>,
    branchId: string)

  datatype Branch = Branch(
    branchId: string,
    name: string,
    parentBranchId: Option<string>,
    createdTxId: TxId,
    archived: bool)

  /** The value of a brain: the contents of its five fields at one moment. */
  datatype Store = Store(
    facts: seq<Fact>,
    beliefs: seq<Belief>,
    transactions: seq<Tx>,
    branches: seq<Branch>,
    nextTx: TxId,
    txBranch: map<TxId, string>)

  datatype Error = UnknownBranch | SessionClosed | TxIdsExhausted | NoActiveFact | NoActiveBelief
                 | BranchTaken | InvalidPredicate | SourceNotFound | TargetNotFound | CannotArchiveMain

  const MAIN_ROW := Branch(MAIN_BRANCH, MAIN_BRANCH, None, 0, false)

  function NewStore(): Store {
    Store([], [], [], [MAIN_ROW], 1, map[])
  }

  /** What a caller asserts about one fact id. */
  datatype Claim = Claim(
    factId: string,
    pred: string,
    value: FactValue,
    provenance: string,
    validFrom: Option<Time>,
    validTo: Option<Time>)

  /** A belief revision; `supportedBy` of `None` inherits the visible belief's support. */
  datatype Revision = Revision(
    beliefId: string,
    claimText: string,
    supportedBy: Option<seq<string>>,
    rationale: string,
    validFrom: Option<Time>,
    validTo: Option<Time>)

  /** `tx_branch`: the branch a transaction was written on. */
  function TxBranch(s: Store, tx: TxId): Option<string> {
    if tx in s.txBranch then Some(s.txBranch[tx]) else None
  }

  /** Row `f` was written on `branch`. */
  predicate WrittenOn(s: Store, f: Fact, branch: string) {
    TxBranch(s, f.createdByTx) == Some(branch)
  }

  /** `validate_predicate_name`: non-empty, and free of whitespace and quote characters. */
  predicate ValidPredicateName(name: string) {
    && name != ""
    && forall i :: 0 <= i < |name| ==> !Text.IsWhitespace(name[i]) && name[i] != '\'' && name[i] != '"'
  }
}
