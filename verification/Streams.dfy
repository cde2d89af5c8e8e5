/** A connected byte stream, as the proxy handshakes use it. */
module Streams {
  import opened Text

  datatype ProxyError =
    | Closed
    | InvalidVersion
    | MethodsRejected
    | UnsupportedMethod(code: byte)
    | CredentialsTooLong
    | AuthenticationFailed
    | HostTooLong
    | ConnectFailed
    | UnsupportedAddressType(atyp: byte)
    | ResponseTooLarge
    | ConnectRefused(response: Text)

  class Stream {
    /** What the peer sends and has not been read yet. */
    var unread: Text
    /** Everything written so far. */
    var sent: Text

    constructor (incoming: Text)
      ensures unread == incoming && sent == []
    {
      unread := incoming;
      sent := [];
    }

    /** `write_all` */
    method WriteAll(bytes: Text)
      modifies this`sent
      ensures sent == old(sent) + bytes
    {
      sent := sent + bytes;
    }

    /** `read_exact`: fails when the peer closes before n bytes have come. */
    method ReadExact(n: nat) returns (r: Result<Text, ProxyError>)
      modifies this`unread
      ensures |old(unread)| >= n ==> r == Ok(old(unread)[..n]) && unread == old(unread)[n..]
      ensures |old(unread)| < n ==> r == Err(Closed) && unread == []
    {
      if |unread| >= n {
        r := Ok(unread[..n]);
        unread := unread[n..];
      } else {
        r := Err(Closed);
        unread := [];
      }
    }

    /** `read` into a buffer of one byte; nothing is read once the peer has closed. */
    method ReadByte() returns (b: Option<byte>)
      modifies this`unread
      ensures old(unread) != [] ==> b == Some(old(unread)[0]) && unread == old(unread)[1..]
      ensures old(unread) == [] ==> b == None && unread == []
    {
      if unread == [] { return None; }
      b := Some(unread[0]);
      unread := unread[1..];
    }
  }
}
