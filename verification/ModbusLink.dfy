/** The two ends of a connection as objects: handleConnection of the server, and the client's device state. */
module ModbusLink {
  import opened Common
  import opened Bytes
  import opened ModbusStore
  import opened ModbusServer
  import opened ModbusWire

  class ServerConnection {
    const server: TcpServer
    const failAt: Option<nat>
    var buf: seq<byte>
    var sent: seq<seq<byte>>
    var status: Status

    ghost function View(): Conn<Registers>
      reads this, server.store
    {
      Conn(buf, server.store.Contents(), sent, status)
    }

    ghost function Settings(): Setup<Registers> {
      Setup(server.unitId, failAt, HandlePdu)
    }

    constructor (s: TcpServer, fail: Option<nat>)
      ensures server == s && failAt == fail && buf == [] && sent == [] && status == Open
    {
      server, failAt, buf, sent, status := s, fail, [], [], Open;
    }

    /** One read from the socket and the frame loop after it. */
    method Receive(chunk: seq<byte>)
      modifies this, server.store
      ensures View() == ModbusWire.Receive(Settings(), old(View()), chunk)
    {
      if status != Open {
        return;
      }
      buf := buf + chunk;
      ghost var goal := Feed(Settings(), View());
      while status == Open && |buf| >= 7
        invariant Feed(Settings(), View()) == goal
        decreases |buf|
      {
        var totalLen := 6 + LengthField(buf);
        if |buf| < totalLen {
          return;
        }
        ghost var before := View();
        if totalLen < 7 {
          buf, status := [], Panicked;
        } else {
          var txn, unit, pdu := Get16(buf[0], buf[1]), buf[6], buf[7..totalLen];
          buf := buf[totalLen..];
          HandleFrame(txn, unit, pdu);
        }
        assert View() == TakeFrame(Settings(), before);
      }
    }

    method HandleFrame(txn: u16, unit: byte, pdu: seq<byte>)
      modifies this, server.store
      ensures View() == Answer(Settings(), old(View()), txn, unit, pdu)
    {
      if unit != server.unitId && unit != 0 {
        return;
      }
      var response := server.HandlePDU(pdu);
      if failAt == Some(|sent|) {
        buf, status := [], Closed;
      } else {
        sent := sent + [Frame(txn, unit, response)];
      }
    }
  }

  /** The data bytes of a read response, as readRegisters and readCoils take them. */
  function PayloadOf(reply: Reply): (r: Result<seq<byte>>)
    ensures r.Ok? ==> |r.value| < 256
  {
    match reply
    case ReadFailed => Err("read")
    case WriteFailed => Err("write")
    case Exception(_, _) => Err("modbus exception")
    case Normal(f) =>
      if |f.data| < 1 then Err("empty response data")
      else if |f.data| < 1 + f.data[0] as int then Err("truncated response")
      else Ok(f.data[1..1 + f.data[0] as int])
  }

  class ModbusClient {
    const unitId: byte
    var txnId: u16
    var readBuf: seq<byte>

    constructor (unit: byte)
      ensures unitId == unit && txnId == 0 && readBuf == []
    {
      unitId, txnId, readBuf := unit, 0, [];
    }

    method NextTxnId() returns (id: u16)
      modifies this`txnId
      ensures id == old(txnId) && txnId == Field(old(txnId) as int + 1)
    {
      id := txnId;
      txnId := Field(txnId as int + 1);
    }

    /**
    Writes a request and waits. `written` says whether the write and its deadlines succeed; `arrivals` are
    the reads to come, an exhausted list a read error.
    */
    method SendAndReceive(pdu: seq<byte>, written: bool, arrivals: seq<seq<byte>>)
      returns (request: seq<byte>, reply: Reply, rest: seq<seq<byte>>)
      modifies this
      ensures request == Frame(old(txnId), unitId, pdu) && txnId == Field(old(txnId) as int + 1)
      ensures Outcome(reply, readBuf, rest) ==
              if written then Await(old(readBuf), arrivals) else Outcome(WriteFailed, old(readBuf), arrivals)
    {
      var id := NextTxnId();
      request := Frame(id, unitId, pdu);
      if !written {
        return request, WriteFailed, arrivals;
      }
      reply, rest := ReadReply(arrivals);
    }

    method ReadReply(arrivals: seq<seq<byte>>) returns (reply: Reply, rest: seq<seq<byte>>)
      modifies this`readBuf
      ensures Outcome(reply, readBuf, rest) == Await(old(readBuf), arrivals)
    {
      rest := arrivals;
      while true
        invariant Await(readBuf, rest) == Await(old(readBuf), arrivals)
        decreases |rest|
      {
        AwaitStep(readBuf, rest);
        var d := DecodeMBAP(readBuf);
        if d.Complete? {
          readBuf := readBuf[d.consumed..];
          return Sorted(d.frame), rest;
        }
        if rest == [] {
          return ReadFailed, rest;
        }
        readBuf := readBuf + rest[0];
        rest := rest[1..];
      }
    }

    /** readRegisters and readCoils, which differ in nothing but their function code. */
    method ReadData(fc: byte, start: u16, quantity: u16, written: bool, arrivals: seq<seq<byte>>)
      returns (request: seq<byte>, data: Result<seq<byte>>, rest: seq<seq<byte>>)
      modifies this
      ensures request == Frame(old(txnId), unitId, ReadPdu(fc, start, quantity))
      ensures var o := if written then Await(old(readBuf), arrivals) else Outcome(WriteFailed, old(readBuf), arrivals);
        data == PayloadOf(o.reply) && readBuf == o.buf && rest == o.arrivals
    {
      var reply;
      request, reply, rest := SendAndReceive(ReadPdu(fc, start, quantity), written, arrivals);
      data := PayloadOf(reply);
    }
  }
}
