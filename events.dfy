// Dispatcher event kinds and the outcome of one socket system call, shared by
// the async socket and the reactor.

module SocketEvents {

  /** The five dispatcher events. */
  datatype Event = EvRead | EvWrite | EvConnect | EvClose | EvAccept

  /** An event mask: the events whose bits are set. */
  type Mask = set<Event>

  /** The bit each event has in the dispatcher's 32-bit event word. */
  function Code(e: Event): nat
  {
    match e
    case EvRead => 0x01
    case EvWrite => 0x02
    case EvConnect => 0x04
    case EvClose => 0x08
    case EvAccept => 0x10
  }

  /** The 32-bit event word a mask stands for. */
  function Word(m: Mask): nat
  {
    (if EvRead in m then Code(EvRead) else 0) + (if EvWrite in m then Code(EvWrite) else 0) +
    (if EvConnect in m then Code(EvConnect) else 0) + (if EvClose in m then Code(EvClose) else 0) +
    (if EvAccept in m then Code(EvAccept) else 0)
  }

  /** Every mask's word is below 0x20, and it is 0 exactly for the empty mask. */
  lemma WordFaithful(m: Mask)
    ensures Word(m) < 0x20
    ensures Word(m) == 0 <==> m == {}
  {
    if m != {} {
      var e :| e in m;
      match e
      case EvRead =>
      case EvWrite =>
      case EvConnect =>
      case EvClose =>
      case EvAccept =>
    }
  }

  /**
   * What one send or recv call returned: its result, the error code the socket
   * recorded afterwards, and whether that code is a would-block error.
   */
  datatype SysResult = SysResult(res: int, error: int, blocking: bool)
}
