/**
 * The vocabulary a protocol task shares with its connection: the next step
 * of the connection's read/parse/process cycle.
 */
module Connection {

  /** `Read` waits for the next chunk of bytes; `Process` runs the task's
      post-processing without consuming new bytes. */
  datatype Action = Read | Process
}
