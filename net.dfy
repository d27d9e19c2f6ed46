/** Values shared by the two probing components: IPv4 host addresses and the
    outcomes of the socket calls, which the model takes as oracles. */
module Net {

  /** An IPv4 address as its 32-bit number; ordering is numeric. */
  type Host = h: int | 0 <= h < 0x1_0000_0000

  /** 127.0.0.1 */
  const Loopback: Host := 0x7F00_0001

  /** What one TCP `connect_ex` attempt does: return a result code (0 when
      the handshake completed), raise `socket.error`/`socket.timeout`, or
      raise some other exception. */
  datatype Connect = Code(errno: int) | SocketError | Fault

  /** What a probe call does: return a boolean, or raise out of the call. */
  datatype Outcome = Returned(value: bool) | Raised
}
