/** The nullable references of the source (`TcpClient?`, `NetworkStream?`) become Option values. */
module Wrappers {

  datatype Option<+T> = None | Some(value: T)
}
