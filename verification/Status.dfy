/** Run and node statuses, and the predicates every gate is phrased in. */
module Status {

  datatype RunStatus =
    | Running | AwaitingUser | Completed | Failed | Skipped | Halted | Paused | Archived
  {
    predicate IsLive() {
      Running? || AwaitingUser? || Paused?
    }
  }

  datatype NodeStatus =
    | NodePending | NodeWaiting | NodeRunning | NodeAwaitingUser | NodeCompleted
    | NodeSkipped | NodeFailed | NodeStopped | NodeStale | NodeInterrupted
  {
    /** Nodes with a session take up an admission slot. */
    predicate HoldsSession() {
      NodeRunning? || NodeAwaitingUser?
    }

    predicate IsSettledComplete() {
      NodeCompleted? || NodeSkipped?
    }
  }
}
