/** The states of a connection. The source also names CONNECTING, which no code enters. */
module ReadyStates {
  datatype ReadyState = OPEN | CLOSING | CLOSED
}
