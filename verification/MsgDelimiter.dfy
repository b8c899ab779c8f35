/** The delimiter classes of msg_delimiter*.cpp, proved to compute the functions of Reframing. */
module MsgDelimiters {
  import opened Bytes
  import opened ByteCircularBuffers
  import opened Reframing
  import opened Dispatch

  /** A connection, whether its server has a `received` callback registered, and what that has been given for it. */
  class TcpClient {
    const msgDelimiter: MsgDelimiter?
    const registered: bool
    var received: seq<seq<byte>>

    ghost function Repr(): set<object> {
      {this as object} + if msgDelimiter == null then {} else msgDelimiter.Parts()
    }

    /** A delimiter calls back without asking whether there is a callback (msg_delimiter_var.cpp:41). */
    ghost predicate Valid()
      reads this, Repr()
    {
      msgDelimiter != null ==> registered && msgDelimiter.Valid()
    }

    ghost function State(): Endpoint
      requires Valid()
      reads this, Repr()
    {
      if msgDelimiter == null then Raw(registered, received)
      else Framed(msgDelimiter.Config(), msgDelimiter.State(received))
    }

    constructor (delimiter: MsgDelimiter?, registered: bool)
      ensures msgDelimiter == delimiter && this.registered == registered && received == []
    {
      msgDelimiter, this.registered, received := delimiter, registered, [];
    }
  }

  /** MsgDelimiter with its two subclasses; `framing` says which of them an object is. */
  class MsgDelimiter {
    const framing: Framing
    const bcb: ByteCircularBuffer
    const buf: array<byte>

    ghost predicate Valid()
      reads this, bcb, buf
    {
      bcb.Valid() && buf.Length == BUFFER_SIZE && buf != bcb.buffer
    }

    ghost function Parts(): set<object> {
      {this, bcb, bcb.buffer, buf}
    }

    ghost function Config(): Machine {
      Machine(framing, bcb.bufferSize as nat, bcb.splitRead)
    }

    /** The abstract state, for a client whose callback has been given `received`. */
    ghost function State(received: seq<seq<byte>>): (v: View)
      requires Valid()
      reads this, bcb, bcb.buffer, buf
      ensures ValidView(Config(), v)
    {
      View(bcb.Contents(), bcb.rear as nat, buf[..], received)
    }

    constructor (framing: Framing, bufLen: uint16, split: SplitRead)
      ensures Valid() && fresh(Parts())
      ensures Config() == Machine(framing, bufLen as nat, split) && State([]) == Fresh()
      ensures bcb.Contents() == [] && bcb.rear == 0 && forall i :: 0 <= i < buf.Length ==> buf[i] == 0
    {
      this.framing := framing;
      bcb := new ByteCircularBuffer(bufLen, split);
      buf := new byte[BUFFER_SIZE](i => 0);
      new;
      assert buf[..] == Zeros(BUFFER_SIZE);
    }

    method FixedIsFlushable() returns (flushable: bool)
      requires Valid() && framing.Fixed?
      ensures flushable <==> Flushable(framing, bcb.Contents())
    {
      flushable := bcb.currentSize as int / framing.size > 0;
    }

    /** Peeks at the header; the local it is read into has not been set before. As written, a header that straddles
        the end of the array leaves its second byte in the place of the first, and nothing in its own. */
    method PeekHeader() returns (size: uint16)
      requires Valid() && framing.Variable? && |bcb.Contents()| > HEADER_SIZE
      ensures !HeaderStraddles(Config(), State([])) ==> size as int == Header(bcb.Contents())
      ensures HeaderStraddles(Config(), State([])) ==>
                exists unset :: size as int == LittleEndian(bcb.Contents()[1], unset)
    {
      var local := new byte[HEADER_SIZE];
      ghost var header, unset := bcb.Contents()[..HEADER_SIZE], local[..];
      var peeked := bcb.Read(local, HEADER_SIZE as uint16, false);
      PeekedBytes(bcb.splitRead, (bcb.bufferSize - bcb.rear) as int, header, unset, local[..]);
      size := local[0] as uint16 + 0x100 * local[1] as uint16;
      assert size as int == LittleEndian(local[..][0], local[..][1]);
    }

    /** A consuming read into the scratch buffer. */
    method Consume(size: uint16, ghost received: seq<seq<byte>>) returns (read: uint16)
      requires Valid() && (size as int <= |bcb.Contents()| ==> size as int <= BUFFER_SIZE)
      modifies bcb, buf
      ensures Valid() && read == if size as int <= |old(bcb.Contents())| then size else 0
      ensures read < size ==> State(received) == old(State(received))
      ensures read == size ==>
                State(received + [buf[..size]]) == Deliver(Config(), old(State(received)), size as nat)
    {
      ghost var before := State(received);
      read := bcb.Read(buf, size, true);
      if read == size {
        if size == 0 {
          CopyNothing(bcb.splitRead, Config().capacity - before.rear, before.scratch);
        }
        IsDelivery(Config(), before, size as nat, State(received + [buf[..size]]));
      }
    }

    method VarIsFlushable() returns (flushable: bool)
      requires Valid() && framing.Variable?
      ensures flushable ==> |bcb.Contents()| > HEADER_SIZE
      ensures !HeaderStraddles(Config(), State([])) ==> (flushable <==> Flushable(framing, bcb.Contents()))
    {
      if bcb.currentSize as int <= HEADER_SIZE {
        return false;
      }
      var msgSize := PeekHeader();
      return msgSize <= bcb.currentSize;
    }

    method IsFlushable() returns (flushable: bool)
      requires Valid()
      ensures !HeaderStraddles(Config(), State([])) ==> (flushable <==> Flushable(framing, bcb.Contents()))
    {
      match framing {
        case Fixed(_) => flushable := FixedIsFlushable();
        case Variable => flushable := VarIsFlushable();
      }
    }

    /** MsgDelimiterFixed::ProcessMsg. */
    method FixedProcessMsg(client: TcpClient)
      requires Valid() && framing.Fixed? && Drain(Config(), State(client.received)).Running?
      modifies bcb, buf, client`received
      ensures Valid() && Running(State(client.received)) == old(Drain(Config(), State(client.received)))
    {
      ghost var outcome := Drain(Config(), State(client.received));
      var flushable := FixedIsFlushable();
      if !flushable {
        return;
      }
      var k := framing.size as uint16;
      var readSize := Consume(k, client.received);
      while readSize != 0
        invariant Valid() && readSize in {0, k}
        invariant readSize == 0 ==> !Flushable(framing, bcb.Contents()) && outcome == Running(State(client.received))
        invariant readSize != 0 ==> k as int <= BUFFER_SIZE
        invariant readSize != 0 ==> outcome == Drain(Config(), State(client.received + [buf[..k]]))
        decreases readSize, bcb.currentSize
      {
        client.received := client.received + [buf[..readSize]];
        readSize := Consume(k, client.received);
      }
    }

    /** One turn of the loop of MsgDelimiterVar::ProcessMsg, on any header that fits the scratch buffer, 0 included;
        `again` is the value of the loop's guard after it. */
    method VarTurn(client: TcpClient) returns (again: bool)
      requires Valid() && framing.Variable? && Flushable(framing, bcb.Contents())
      requires !HeaderStraddles(Config(), State([])) && HeadLength(framing, bcb.Contents()) <= BUFFER_SIZE
      modifies bcb, buf, client`received
      ensures Valid()
      ensures State(client.received) ==
              old(Deliver(Config(), State(client.received), HeadLength(framing, bcb.Contents())))
      ensures !HeaderStraddles(Config(), State([])) ==> (again <==> Flushable(framing, bcb.Contents()))
    {
      var readSize := PeekHeader();
      var taken := Consume(readSize, client.received);
      assert readSize == taken;  // msg_delimiter_var.cpp:39
      client.received := client.received + [buf[..readSize]];
      again := VarIsFlushable();
    }

    /** MsgDelimiterVar::ProcessMsg. */
    method VarProcessMsg(client: TcpClient)
      requires Valid() && framing.Variable? && Drain(Config(), State(client.received)).Running?
      modifies bcb, buf, client`received
      ensures Valid() && Running(State(client.received)) == old(Drain(Config(), State(client.received)))
    {
      ghost var outcome := Drain(Config(), State(client.received));
      var flushable := VarIsFlushable();
      while flushable
        invariant Valid() && outcome == Drain(Config(), State(client.received))
        invariant flushable <==> Flushable(framing, bcb.Contents())
        decreases bcb.currentSize
      {
        flushable := VarTurn(client);
      }
    }

    method ProcessMsg(client: TcpClient)
      requires Valid() && Drain(Config(), State(client.received)).Running?
      modifies bcb, buf, client`received
      ensures Valid() && Running(State(client.received)) == old(Drain(Config(), State(client.received)))
    {
      match framing {
        case Fixed(_) => FixedProcessMsg(client);
        case Variable => VarProcessMsg(client);
      }
    }

    /** Whether a call of Process stays inside defined behaviour. */
    ghost predicate Defined(client: TcpClient, msg: array<byte>, size: uint16)
      requires Valid()
      reads this, bcb, bcb.buffer, buf, client, msg
    {
      Fits(size) ==>
        size as int <= msg.Length &&
        Reframing.Process(Config(), State(client.received), msg[..size]) !in {Spins, Overruns, Indeterminate}
    }

    ghost predicate Fits(size: uint16)
      requires Valid()
      reads this, bcb, bcb.buffer, buf
    {
      size as int <= bcb.bufferSize as int - |bcb.Contents()|
    }

    /** MsgDelimiter::Process; `ok` says that the assertion at msg_delimiter.cpp:38 held. */
    method Process(client: TcpClient, msg: array<byte>, size: uint16) returns (ok: bool)
      requires Valid() && msg !in Parts()
      requires client.msgDelimiter == this && Defined(client, msg, size)
      modifies bcb, bcb.buffer, buf, client`received
      ensures Valid()
      ensures ok <==> 0 < size && old(Fits(size))
      ensures !ok ==> State(client.received) == old(State(client.received))
      ensures ok ==> Running(State(client.received)) ==
                     old(Reframing.Process(Config(), State(client.received), msg[..size]))
    {
      var written := bcb.Write(msg, size);
      if written == 0 {
        return false;
      }
      var flushable := IsFlushable();
      if flushable {
        ProcessMsg(client);
      }
      return true;
    }
  }

  lemma CopyNothing(split: SplitRead, lead: nat, dest: seq<byte>)
    ensures CopyOut(split, lead, [], dest) == dest
  {
  }

  lemma IsDelivery(m: Machine, v: View, n: nat, after: View)
    requires ValidView(m, v) && n <= |v.fifo| && n <= BUFFER_SIZE == |after.scratch|
    requires after.fifo == v.fifo[n..] && after.rear == Wrap(v.rear + n, m.capacity)
    requires after.scratch == CopyOut(m.split, m.capacity - v.rear, v.fifo[..n], v.scratch)
    requires after.received == v.received + [after.scratch[..n]]
    ensures after == Deliver(m, v, n)
  {
  }

  lemma PeekedBytes(split: SplitRead, lead: nat, header: seq<byte>, unset: seq<byte>, peeked: seq<byte>)
    requires lead > 0 && |header| == |unset| == HEADER_SIZE
    requires peeked == CopyOut(split, lead, header, unset)
    ensures peeked[0] == if split.AsWritten? && lead < HEADER_SIZE then header[1] else header[0]
    ensures peeked[1] == if split.AsWritten? && lead < HEADER_SIZE then unset[1] else header[1]
  {
  }
}
