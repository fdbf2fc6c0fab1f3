/**
 One connection of the server, on its own: the reference machine that src/server_impl.cpp is
 proved to run once per accepted socket, however sockets are interleaved and descriptors reused.
 */
module Connection {
  import opened Bytes
  import opened Frames
  import opened Handshake

  /** What a connection does to the outside: octets handed to `send`, and the callbacks. */
  datatype Out = Send(bytes: seq<byte>) | OnOpen | OnMessage(data: seq<byte>, isText: bool) | OnClose

  /**
   What the operating system supplies when a descriptor is ready: for the listening socket the
   descriptor `accept` would hand out, for a client what its `recv` calls return, one after
   another, and whether `send` succeeds.
   */
  datatype Io = Io(candidate: int, chunks: seq<seq<byte>>, sendOk: bool)

  /** A message of which some fragments have arrived. */
  datatype Partial = Partial(isText: bool, data: seq<byte>)

  datatype Conn = Handshaking | Open(partial: Option<Partial>) | Closed

  datatype Reaction = Reaction(conn: Conn, outs: seq<Out>)

  /** Size of the buffer `handle_frame` receives into. */
  const FRAME_BUFFER := 4096

  /** Conversion of the signed payload limit to the unsigned size it is compared as. */
  function SizeT(n: int): int
  {
    if n < 0 then n + 0x1_0000_0000_0000_0000 else n
  }

  function CloseWith(code: nat, reason: string): seq<byte>
  {
    Encode(CloseFrame(code, Octets(reason)))
  }

  function MessageFrame(data: seq<byte>, isText: bool): seq<byte>
  {
    Encode(Frame(true, if isText then OP_TEXT else OP_BINARY, data))
  }

  /** A message is passed to the callback and then echoed in one frame. */
  function Deliver(data: seq<byte>, isText: bool): seq<Out>
  {
    [OnMessage(data, isText), Send(MessageFrame(data, isText))]
  }

  function Goodbye(code: nat, reason: string): Reaction
  {
    Reaction(Closed, [Send(CloseWith(code, reason)), OnClose])
  }

  function Shake(io: Io): Reaction
  {
    match ReadHead("", io.chunks)
    case None => Reaction(Closed, [OnClose])
    case Some(raw) =>
      match ServerReply(raw)
      case None => Reaction(Closed, [OnClose])
      case Some(resp) =>
        if io.sendOk then Reaction(Open(None), [Send(Octets(resp)), OnOpen])
        else Reaction(Closed, [Send(Octets(resp)), OnClose])
  }

  function OnFrame(p: Option<Partial>, f: Frame): Reaction
  {
    if f.opcode == OP_TEXT || f.opcode == OP_BINARY then
      if f.fin then Reaction(Open(p), Deliver(f.payload, f.opcode == OP_TEXT))
      else Reaction(Open(Some(Partial(f.opcode == OP_TEXT, f.payload))), [])
    else if f.opcode == OP_CONT then
      match p
      case None => Reaction(Open(None), [])
      case Some(m) =>
        var whole := m.data + f.payload;
        if f.fin then Reaction(Open(None), Deliver(whole, m.isText))
        else Reaction(Open(Some(Partial(m.isText, whole))), [])
    else if f.opcode == OP_PING then
      Reaction(Open(p), [Send(Encode(Frame(true, OP_PONG, f.payload)))])
    else if f.opcode == OP_CLOSE then Goodbye(1000, "normal closure")
    else Goodbye(1002, "protocol error")
  }

  /** One `recv` of an open connection: one frame is parsed, what follows it is dropped. */
  function OnData(p: Option<Partial>, data: seq<byte>, maxPayload: int): Reaction
  {
    if data == [] then Reaction(Closed, [OnClose])
    else
      match Parse(data)
      case None => Goodbye(1002, "protocol error")
      case Some(x) =>
        if |x.frame.payload| > SizeT(maxPayload) then Goodbye(1009, "message too big")
        else OnFrame(p, x.frame)
  }

  /** The octets the next `recv` into a frame buffer returns. */
  function FirstRecv(io: Io): seq<byte>
  {
    if io.chunks == [] then [] else Recv(io.chunks[0], FRAME_BUFFER)
  }

  function React(c: Conn, io: Io, maxPayload: int): Reaction
  {
    match c
    case Handshaking => Shake(io)
    case Open(p) => OnData(p, FirstRecv(io), maxPayload)
    case Closed => Reaction(Closed, [])
  }

  /** The reference machine: what a connection in state `c` does with its inputs, first to last. */
  function RunFrom(c: Conn, ios: seq<Io>, maxPayload: int): Reaction
    decreases |ios|
  {
    if ios == [] then Reaction(c, [])
    else
      var before := RunFrom(c, ios[..|ios| - 1], maxPayload);
      var r := React(before.conn, ios[|ios| - 1], maxPayload);
      Reaction(r.conn, before.outs + r.outs)
  }

  /** A connection's whole life, from being accepted. */
  function Life(ios: seq<Io>, maxPayload: int): Reaction
  {
    RunFrom(Handshaking, ios, maxPayload)
  }
}
