/** src/server/forwarding.c and src/server/closing.c: relaying between the two ends of a session, and its end. */
module Relay {
  import opened Bytes
  import opened States
  import opened Buffers

  datatype Side = ClientSide | RemoteSide

  function Other(s: Side): Side {
    if s.ClientSide? then RemoteSide else ClientSide
  }

  /** What the relay did on its sockets, in order. */
  datatype Io =
    | Received(from: Side, bytes: seq<Byte>)
    | ReceivedEof(from: Side)
    | SentTo(to: Side, bytes: seq<Byte>)
    | ShutWr(to: Side)

  /** The part of `client_t` the relay works on, the interests of the two descriptors, and what has been done so far. */
  datatype Relay = Relay(clientBuffer: Buf, destinyBuffer: Buf, clientClosed: bool, destClosed: bool,
                         clientInterest: Interest, destInterest: Interest, log: seq<Io>)
  {
    /** The buffer that holds what came from a side. */
    function From(s: Side): Buf { if s.ClientSide? then clientBuffer else destinyBuffer }

    predicate Closed(s: Side) { if s.ClientSide? then clientClosed else destClosed }

    function InterestOf(s: Side): Interest { if s.ClientSide? then clientInterest else destInterest }

    function WithFrom(s: Side, b: Buf): Relay {
      if s.ClientSide? then this.(clientBuffer := b) else this.(destinyBuffer := b)
    }

    function WithClosed(s: Side): Relay {
      if s.ClientSide? then this.(clientClosed := true) else this.(destClosed := true)
    }

    function WithInterest(s: Side, i: Interest): Relay {
      if s.ClientSide? then this.(clientInterest := i) else this.(destInterest := i)
    }

    function Log(e: Io): Relay { this.(log := log + [e]) }

    /** `connection_finished`, also the guard of `end_connection`. */
    predicate Finished() {
      clientClosed && destClosed && !clientBuffer.CanRead() && !destinyBuffer.CanRead()
    }
  }

  /** The relay on entry to FORWARDING: empty buffers, and both descriptors wait for input. */
  function Setup(cap: nat): Relay {
    Relay(Buf(cap, 0, []), Buf(cap, 0, []), false, false, OP_READ, OP_READ, [])
  }

  /** What `recv` may return when asked for as many bytes as the buffer has room for. */
  predicate RecvFits(r: Relay, s: Side, recv: Recv) {
    r.From(s).CanWrite() && recv.Data? ==> 0 < |recv.bytes| && r.From(s).Write() + |recv.bytes| <= r.From(s).cap
  }

  /** What `send` may return when given all the unread bytes. */
  predicate SendFits(r: Relay, s: Side, send: Send) {
    send.Sent? && r.From(Other(s)).CanRead() ==> 0 < send.count <= |r.From(Other(s)).bytes|
  }

  /** `forward_read` on the descriptor of side `s`. */
  function OnReadable(r: Relay, s: Side, recv: Recv, errnoAgain: bool): (Relay, ClientState)
    requires RecvFits(r, s, recv)
  {
    if !r.From(s).CanWrite() then (r.WithInterest(s, OP_READ_WRITE), FORWARDING)
    else
      match recv
      case Eof =>
        var r := r.WithClosed(s).Log(ReceivedEof(s));
        if r.Closed(Other(s)) then (r, DONE)
        else (r.WithInterest(Other(s), OP_WRITE).WithInterest(s, OP_NOOP), FORWARDING)
      case RecvFailed =>
        if errnoAgain then (r, FORWARDING) else (r.WithInterest(s, OP_NOOP), ERROR)
      case Data(bytes) =>
        (r.WithFrom(s, r.From(s).Wrote(bytes)).Log(Received(s, bytes)).WithInterest(Other(s), OP_READ_WRITE), FORWARDING)
  }

  /** `forward_write` on the descriptor of side `s`. */
  function OnWritable(r: Relay, s: Side, send: Send, errnoAgain: bool): (Relay, ClientState)
    requires SendFits(r, s, send)
  {
    var b, sourceClosed := r.From(Other(s)), r.Closed(Other(s));
    if !b.CanRead() then
      if r.Finished() then (r, DONE)
      else ((if sourceClosed then r.Log(ShutWr(s)) else r).WithInterest(s, OP_READ), FORWARDING)
    else
      match send
      case SendFailed =>
        if errnoAgain then (r, FORWARDING) else (r.WithInterest(s, OP_NOOP), ERROR)
      case Sent(n) =>
        AfterSend(r.WithFrom(Other(s), b.ReadOff(n)).Log(SentTo(s, b.bytes[..n])), s)
  }

  /** The end of `forward_write`: more to send, or perhaps the end of the output. */
  function AfterSend(r: Relay, s: Side): (Relay, ClientState) {
    var left := r.From(Other(s)).CanRead();
    var r := if !left && r.Closed(Other(s)) then r.Log(ShutWr(s)) else r;
    (r.WithInterest(s, if left then OP_READ_WRITE else OP_READ), if r.Finished() then DONE else FORWARDING)
  }

  /** `error_handler`: both sides count as closed and unsent bytes are dropped. */
  function Discard(r: Relay): Relay {
    r.(clientClosed := true, destClosed := true,
       clientBuffer := Buf(r.clientBuffer.cap, r.clientBuffer.Write(), []),
       destinyBuffer := Buf(r.destinyBuffer.cap, r.destinyBuffer.Write(), []))
  }

  class Client {
    var clientFd: int
    var destinationFd: int
    const clientBuffer: Buffer
    const destinyBuffer: Buffer
    var clientClosed: bool
    var destClosed: bool
    var clientInterest: Interest
    var destInterest: Interest
    ghost var log: seq<Io>

    /** The positions of both buffers are in order. */
    ghost predicate InBounds()
      reads clientBuffer, destinyBuffer
    {
      && clientBuffer.read <= clientBuffer.write <= clientBuffer.data.Length
      && destinyBuffer.read <= destinyBuffer.write <= destinyBuffer.data.Length
    }

    ghost predicate Valid()
      reads this, clientBuffer, destinyBuffer
    {
      && clientBuffer.Valid() && destinyBuffer.Valid()
      && clientBuffer != destinyBuffer && clientBuffer.data != destinyBuffer.data
      && clientFd != destinationFd
    }

    ghost function Model(): Relay
      requires InBounds()
      reads this, clientBuffer, clientBuffer.data, destinyBuffer, destinyBuffer.data
    {
      Relay(clientBuffer.View(), destinyBuffer.View(), clientClosed, destClosed, clientInterest, destInterest, log)
    }

    /** The side a descriptor belongs to. */
    function SideOf(fd: int): Side
      reads this`clientFd
    {
      if fd == clientFd then ClientSide else RemoteSide
    }

    constructor (clientFd: int, destinationFd: int, cap: nat)
      requires clientFd != destinationFd
      ensures Valid() && Model() == Setup(cap)
      ensures this.clientFd == clientFd && this.destinationFd == destinationFd
    {
      this.clientFd, this.destinationFd := clientFd, destinationFd;
      var a := new Byte[cap](_ => 0);
      var b := new Byte[cap](_ => 0);
      clientBuffer := new Buffer(a);
      destinyBuffer := new Buffer(b);
      clientClosed, destClosed := false, false;
      clientInterest, destInterest := OP_READ, OP_READ;
      log := [];
    }

    method SetInterest(fd: int, i: Interest)
      requires fd == clientFd || fd == destinationFd
      modifies this`clientInterest, this`destInterest
      ensures clientInterest == if fd == clientFd then i else old(clientInterest)
      ensures destInterest == if fd == clientFd then old(destInterest) else i
    {
      if fd == clientFd {
        clientInterest := i;
      } else {
        destInterest := i;
      }
    }

    /** What `recv` does to the memory it is given. */
    method Fill(b: Buffer, ptr: nat, bytes: seq<Byte>)
      requires ptr + |bytes| <= b.data.Length
      modifies b.data
      ensures b.data[..] == old(b.data[..ptr]) + bytes + old(b.data[ptr + |bytes|..])
    {
      forall i | 0 <= i < |bytes| {
        b.data[ptr + i] := bytes[i];
      }
    }

    /** The end of input on one side. */
    method EndOfInput(fd: int) returns (next: ClientState)
      requires Valid() && (fd == clientFd || fd == destinationFd) && Model().From(SideOf(fd)).CanWrite()
      modifies this
      ensures Valid() && clientFd == old(clientFd) && destinationFd == old(destinationFd)
      ensures (Model(), next) == OnReadable(old(Model()), SideOf(fd), Eof, false)
    {
      var fromClient := fd == clientFd;
      log := log + [ReceivedEof(SideOf(fd))];
      if fromClient {
        clientClosed := true;
        if destClosed {
          return DONE;
        }
      } else {
        destClosed := true;
        if clientClosed {
          return DONE;
        }
      }
      var otherFd := if fromClient then destinationFd else clientFd;
      SetInterest(otherFd, OP_WRITE);
      SetInterest(fd, OP_NOOP);
      next := FORWARDING;
    }

    /** The buffer that holds what comes in on a descriptor. */
    method BufferFrom(fd: int) returns (b: Buffer)
      requires Valid() && (fd == clientFd || fd == destinationFd)
      ensures b == (if fd == clientFd then clientBuffer else destinyBuffer)
      ensures b.View() == Model().From(SideOf(fd))
    {
      b := if fd == clientFd then clientBuffer else destinyBuffer;
    }

    method ForwardRead(fd: int, recv: Recv, errnoAgain: bool) returns (next: ClientState)
      requires Valid() && (fd == clientFd || fd == destinationFd)
      requires RecvFits(Model(), SideOf(fd), recv)
      modifies this, clientBuffer, clientBuffer.data, destinyBuffer, destinyBuffer.data
      ensures Valid() && clientFd == old(clientFd) && destinationFd == old(destinationFd)
      ensures (Model(), next) == OnReadable(old(Model()), SideOf(fd), recv, errnoAgain)
    {
      var b := BufferFrom(fd);
      var canWrite := b.CanWrite();
      if !canWrite {
        SetInterest(fd, OP_READ_WRITE);
        return FORWARDING;
      }
      var ptr, nbytes := b.WritePtr();
      if recv.Eof? {
        next := EndOfInput(fd);
        return;
      }
      if recv.RecvFailed? {
        if errnoAgain {
          return FORWARDING;
        }
        SetInterest(fd, OP_NOOP);
        return ERROR;
      }
      Store(fd, b, ptr, recv.bytes);
      next := FORWARDING;
    }

    /** The end of `forward_read` for `n` > 0: the bytes are kept and the other side is asked to take them. */
    method Store(fd: int, b: Buffer, ptr: nat, bytes: seq<Byte>)
      requires Valid() && (fd == clientFd || fd == destinationFd)
      requires b == (if fd == clientFd then clientBuffer else destinyBuffer) && ptr == b.write
      requires 0 < |bytes| <= b.data.Length - ptr
      modifies this, b, b.data
      ensures Valid() && clientFd == old(clientFd) && destinationFd == old(destinationFd)
      ensures (Model(), FORWARDING) == OnReadable(old(Model()), SideOf(fd), Data(bytes), false)
    {
      Receive(b, ptr, bytes);
      log := log + [Received(SideOf(fd), bytes)];
      var otherFd := if fd == clientFd then destinationFd else clientFd;
      SetInterest(otherFd, OP_READ_WRITE);
    }

    /** The bytes `recv` has stored at the write position become part of the buffer. */
    method Receive(b: Buffer, ptr: nat, bytes: seq<Byte>)
      requires b.Valid() && ptr == b.write && |bytes| <= b.data.Length - ptr
      modifies b, b.data
      ensures b.Valid() && b.View() == old(b.View()).Wrote(bytes)
    {
      Fill(b, ptr, bytes);
      assert b.data[ptr..ptr + |bytes|] == bytes;
      assert b.data[b.read..b.write] == old(b.data[b.read..b.write]);
      b.WriteAdv(|bytes|);
    }

    method ConnectionFinished() returns (r: bool)
      requires InBounds()
      ensures r == Model().Finished()
    {
      var c := clientBuffer.CanRead();
      var d := destinyBuffer.CanRead();
      r := clientClosed && destClosed && !c && !d;
    }

    /** A descriptor with nothing to send: the session is over, or the side may have to learn of the end of input. */
    method NothingToSend(fd: int, sourceClosed: bool) returns (next: ClientState)
      requires Valid() && (fd == clientFd || fd == destinationFd)
      requires sourceClosed == Model().Closed(Other(SideOf(fd))) && !Model().From(Other(SideOf(fd))).CanRead()
      modifies this
      ensures Valid() && clientFd == old(clientFd) && destinationFd == old(destinationFd)
      ensures (Model(), next) == OnWritable(old(Model()), SideOf(fd), SendFailed, false)
    {
      var finished := ConnectionFinished();
      if finished {
        return DONE;
      }
      if sourceClosed {
        log := log + [ShutWr(SideOf(fd))];
      }
      SetInterest(fd, OP_READ);
      next := FORWARDING;
    }

    /** `n` bytes have gone out on a descriptor and leave the buffer. */
    method MarkSent(fd: int, b: Buffer, ptr: nat, n: nat)
      requires Valid() && (fd == clientFd || fd == destinationFd)
      requires b == (if fd == clientFd then destinyBuffer else clientBuffer)
      requires ptr == b.read && n <= |Model().From(Other(SideOf(fd))).bytes|
      modifies this`log, b, b.data
      ensures Valid() && b.Valid()
      ensures var from := Other(SideOf(fd));
              var was := old(Model());
              Model() == was.WithFrom(from, was.From(from).ReadOff(n)).Log(SentTo(SideOf(fd), was.From(from).bytes[..n]))
    {
      assert b.View().bytes == b.data[ptr..b.write] && ptr + n <= b.write;
      assert b.data[ptr..b.write][..n] == b.data[ptr..ptr + n];
      log := log + [SentTo(SideOf(fd), b.data[ptr..ptr + n])];
      b.ReadAdv(n);
    }

    method ForwardWrite(fd: int, send: Send, errnoAgain: bool) returns (next: ClientState)
      requires Valid() && (fd == clientFd || fd == destinationFd)
      requires SendFits(Model(), SideOf(fd), send)
      modifies this, clientBuffer, clientBuffer.data, destinyBuffer, destinyBuffer.data
      ensures Valid() && clientFd == old(clientFd) && destinationFd == old(destinationFd)
      ensures (Model(), next) == OnWritable(old(Model()), SideOf(fd), send, errnoAgain)
    {
      var toClient := fd == clientFd;
      var b := BufferFrom(if toClient then destinationFd else clientFd);
      var sourceClosed := if toClient then destClosed else clientClosed;
      var canRead := b.CanRead();
      if !canRead {
        next := NothingToSend(fd, sourceClosed);
        return;
      }
      var ptr, readable := b.ReadPtr();
      if send.SendFailed? {
        if errnoAgain {
          return FORWARDING;
        }
        SetInterest(fd, OP_NOOP);
        return ERROR;
      }
      MarkSent(fd, b, ptr, send.count);
      next := FinishWrite(fd, b, sourceClosed);
    }

    method FinishWrite(fd: int, b: Buffer, sourceClosed: bool) returns (next: ClientState)
      requires Valid() && (fd == clientFd || fd == destinationFd)
      requires b == (if fd == clientFd then destinyBuffer else clientBuffer)
      requires sourceClosed == Model().Closed(Other(SideOf(fd)))
      modifies this
      ensures Valid() && clientFd == old(clientFd) && destinationFd == old(destinationFd)
      ensures (Model(), next) == AfterSend(old(Model()), SideOf(fd))
    {
      assert b.View() == Model().From(Other(SideOf(fd)));
      var interest := OP_READ;
      var canRead := b.CanRead();
      if canRead {
        interest := OP_READ_WRITE;
      } else if sourceClosed {
        log := log + [ShutWr(SideOf(fd))];
      }
      SetInterest(fd, interest);
      var finished := ConnectionFinished();
      next := if finished then DONE else FORWARDING;
    }

    /** Frees the session when both ends are closed and nothing is left to send; otherwise does nothing. */
    method EndConnection() returns (freed: bool)
      requires InBounds()
      modifies this`clientFd, this`destinationFd
      ensures freed == old(Model()).Finished() && Model() == old(Model())
      ensures if freed then clientFd == destinationFd == -1
              else clientFd == old(clientFd) && destinationFd == old(destinationFd)
    {
      freed := ConnectionFinished();
      if freed {
        clientFd := -1;
        destinationFd := -1;
      }
    }

    /** Drops whatever is unsent, so that the session is always freed. */
    method ErrorHandler() returns (freed: bool)
      requires Valid()
      modifies this, clientBuffer, destinyBuffer
      ensures freed && clientFd == destinationFd == -1
      ensures InBounds() && Model() == Discard(old(Model()))
    {
      clientClosed := true;
      destClosed := true;
      clientBuffer.read := clientBuffer.write;
      destinyBuffer.read := destinyBuffer.write;
      freed := EndConnection();
    }
  }
}
