/** The status of a case stage (enum CaseStageStatus of prisma/schema.prisma). */
module Stages {
  datatype StageStatus = Pending | Ready | InProgress | WaitingExternal | Blocked | Completed | Skipped

  predicate Terminal(s: StageStatus) {
    s == Completed || s == Skipped
  }
}
