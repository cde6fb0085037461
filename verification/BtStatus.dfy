/** The statuses of a behavior-tree node. */
module BtStatus {
  datatype NodeStatus = IDLE | RUNNING | SUCCESS | FAILURE | SKIPPED
}
