/** What the kernel side says of a network event, apart from the captured bytes. */
module NetworkEvent {

  const SOCKET := 1
  const ACCEPT := 3
  const CLOSE := 6
  const SENDTO := 7
  const RECVFROM := 8
  const SOCKETPAIR := 10
  const ACCEPT4 := 11
  const SENDMSG := 16
  const RECVMSG := 17
  const READ := 18
  const WRITE := 19
  const READV := 20
  const WRITEV := 21
  const SENDMMSG := 22
  const RECVMMSG := 23

  /** The transport that stands for TCP. */
  const TCP := 1

  /** The size of the payload buffer. */
  const PAYLOAD_LEN: nat := 128

  /** The fields the protocol decoders look at, apart from the payload buffer. */
  datatype NetMeta = NetMeta(kind: int, transport: int, remotePort: nat, localPort: nat, payloadLen: nat)
}
