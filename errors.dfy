/**
 * The `E::` status codes (the `Status` enum of Err.h) that the modelled code
 * produces or tests for. Err.h itself is not part of this model: the codes are
 * named as the code uses them and carry no numeric value.
 */
module Errors {

  datatype Status =
    | OK
    | NOTFOUND
    | FAILED
    | AGAIN
    | UNKNOWN
    | INTERNAL
    | NOTCONN
    | ACCESS
    | VERSION_MISMATCH
    | SHUTDOWN
    | BADMSG
    | UPTODATE
    | INVALID_PARAM
    | INVALID_OPERATION
    | INVALID_CONFIG
    | PREEMPTED
    | NOTINSERVERCONFIG
    | EXISTS
    | EMPTY
    | DISABLED
    | TOOBIG
    | ABORTED
    | STALE
    | TIMEDOUT
    | NODE_NOT_READY
    | CONNFAILED
}
