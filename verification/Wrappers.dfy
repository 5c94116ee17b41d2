/** The two result shapes the client library needs. */
module Wrappers {

  datatype Option<+T> = None | Some(value: T)

  /** The error codes of typedef.h that the modelled paths can return. */
  datatype Code =
    | Success
    | Failed
    | MallocFailed
    | InvalidParameter
    | ParseAddressFailed
    | BuildCoreCmdFailed
    | SocketSendFailed
    | SocketRecvFailed
    | ResponseHeaderFailed
    | ConnectionClosed
}
