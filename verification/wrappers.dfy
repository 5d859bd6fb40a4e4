/** Small shared vocabulary: an Option type and the identifiers the relay passes around. */
module Wrappers {

  datatype Option<+T> = None | Some(value: T) {
    function GetOr(default: T): T {
      match this
      case Some(v) => v
      case None => default
    }
  }

  /** A socket.io connection id (an opaque string assigned when the channel opens). */
  type SocketId = string

  /** A room id. The relay draws room ids from uuid(); the model draws them from a counter,
      which keeps the only property the code relies on: a new id is not already a key. */
  type RoomId = nat
}
