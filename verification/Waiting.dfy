/** What `waitpid` reports about a child. */
module Waiting {
  datatype WaitStatus =
    | Exited(code: nat)
    | Signaled(signal: nat)
    | Stopped(signal: nat)
    | Continued
  {
    predicate Terminal() {
      Exited? || Signaled?
    }

    predicate Success() {
      Exited? && code == 0
    }
  }
}
