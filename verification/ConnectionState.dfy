/** The protocol state of a connection (`ZincConnection::State`). */
module ConnectionState {
  datatype State = Handshake | Status | Login | Transfer | Config | Play

  /** `(State) value`: the enumeration is stored in one byte, so only the low byte counts. Codes of no
      state are kept apart. */
  datatype StateCode = Known(state: State) | OutOfRange

  function StateOf(value: int): StateCode {
    match value % 256
    case 0 => Known(Handshake)
    case 1 => Known(Status)
    case 2 => Known(Login)
    case 3 => Known(Transfer)
    case 4 => Known(Config)
    case 5 => Known(Play)
    case _ => OutOfRange
  }

  /** The state a handshake asks for; anything but status, login and transfer becomes status. */
  function HandshakeTarget(value: int): (s: State)
    ensures s.Status? || s.Login? || s.Transfer?
  {
    match StateOf(value)
    case Known(Login) => Login
    case Known(Transfer) => Transfer
    case _ => Status
  }
}
