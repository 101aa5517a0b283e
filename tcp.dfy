/**
 * Action.TCP: the reachability probe. The socket connection itself is
 * outside the model; what the connection attempt ended with is supplied by
 * an oracle, and the model keeps how that ending is classified.
 */
module Tcp {

  datatype TCPState = Online | Offline | Error | None

  /** How an attempt to open a TCP connection within the time limit ended. */
  datatype ConnectOutcome =
    | Connected
    | TimedOut       // OperationCanceledException from the 600 ms token
    | SocketFailure  // SocketException: refused, unreachable, ...
    | OtherFailure   // any other exception, e.g. name resolution

  /** The answer of a probe of host:port, given by the environment. */
  type Probe = (string, int) -> ConnectOutcome

  /** CanConnectAsync's catch clauses: a timeout and a socket error mean
      Offline, any other failure means Error. A probe never reports None. */
  function Classify(o: ConnectOutcome): (s: TCPState)
    ensures s != None
    ensures s == Online <==> o == Connected
    ensures s == Error <==> o == OtherFailure
  {
    match o
    case Connected => Online
    case TimedOut => Offline
    case SocketFailure => Offline
    case OtherFailure => Error
  }

  /** The enum member's name, as string interpolation prints it. */
  function StateName(s: TCPState): (name: string)
    ensures name != [] && (name[|name| - 1] == 'e' || name[|name| - 1] == 'r')
  {
    match s
    case Online => "Online"
    case Offline => "Offline"
    case Error => "Error"
    case None => "None"
  }
}
