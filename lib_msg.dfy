/** The buffered log stream of `libMsg`: text accumulates in a stream's
    buffer and is handed, on `flush` or `endl`, to whatever receiver the
    process-wide `globalMessager` points to at that moment. */
module LibMsg {

  /** `M_TEXT` and `M_ERROR`. */
  datatype Kind = Text | Error

  /** One message as a receiver gets it. */
  datatype LogEntry = LogEntry(text: string, kind: Kind)

  /** A receiver of messages.  The real receivers (the GUI's log window) are
      not part of this model; this one records what it is given, in order. */
  class Messager {
    var received: seq<LogEntry>

    constructor()
      ensures received == []
    {
      received := [];
    }

    method Message(text: string, kind: Kind)
      modifies this
      ensures received == old(received) + [LogEntry(text, kind)]
    {
      received := received + [LogEntry(text, kind)];
    }
  }

  /** The variable `globalMessager`: a cell holding a receiver or null.
      Streams keep a reference to the cell, not to its contents. */
  class GlobalMessager {
    var messager: Messager?

    constructor()
      ensures messager == null
    {
      messager := null;
    }

    method Set(m: Messager?)
      modifies this
      ensures messager == m
    {
      messager := m;
    }
  }

  /** The precision `setprecision(p)` stores: p, but never less than 2. */
  function ClampPrecision(p: int): (q: int)
    ensures q >= 2
    ensures q == p || q == 2
    ensures p >= 2 ==> q == p
  {
    if p > 2 then p else 2
  }

  /** The stream manipulators that `operator<<` accepts. */
  datatype Manip = FlushManip | EndlManip

  /** `libMsg::ostream`: a text buffer (`ss`), the precision used for
      numbers, and the receiver cell, read at every flush. */
  class OStream {
    const receiverMsg: GlobalMessager
    var buffer: string
    var precision: int

    /** A new stream is empty, has precision 6, and reads its receiver
        through `msg`. */
    constructor(msg: GlobalMessager)
      ensures receiverMsg == msg && buffer == [] && precision == 6
    {
      receiverMsg := msg;
      buffer := [];
      precision := 6;
    }

    /** `operator<<(const char *)`: append the text; nothing is delivered. */
    method AppendText(value: string) returns (r: OStream)
      modifies this`buffer
      ensures buffer == old(buffer) + value
      ensures r == this
    {
      buffer := buffer + value;
      r := this;
    }

    /** `operator<<(char)`: append one character; nothing is delivered. */
    method AppendChar(value: char) returns (r: OStream)
      modifies this`buffer
      ensures buffer == old(buffer) + [value]
      ensures r == this
    {
      buffer := buffer + [value];
      r := this;
    }

    /** `flush`: when the cell holds a receiver, deliver the whole buffer to
        it as one text message, even an empty one, and empty the buffer;
        otherwise change nothing. */
    method Flush() returns (r: OStream)
      modifies this`buffer, receiverMsg.messager
      ensures r == this
      ensures receiverMsg.messager != null ==>
        && receiverMsg.messager.received == old(receiverMsg.messager.received) + [LogEntry(old(buffer), Text)]
        && buffer == []
      ensures receiverMsg.messager == null ==> buffer == old(buffer)
    {
      var m := receiverMsg.messager;
      if m != null {
        m.Message(buffer, Text);
        buffer := [];
      }
      r := this;
    }

    /** `endl`: append a newline, then flush. */
    method Endl() returns (r: OStream)
      modifies this`buffer, receiverMsg.messager
      ensures r == this
      ensures receiverMsg.messager != null ==>
        && receiverMsg.messager.received
           == old(receiverMsg.messager.received) + [LogEntry(old(buffer) + "\n", Text)]
        && buffer == []
      ensures receiverMsg.messager == null ==> buffer == old(buffer) + "\n"
    {
      buffer := buffer + "\n";
      r := Flush();
    }

    /** `setprecision(p)`: store p, raised to 2 when smaller.  It declares
        a stream result but returns none, so this returns nothing. */
    method SetPrecision(p: int)
      modifies this`precision
      ensures precision == ClampPrecision(p)
    {
      precision := if p > 2 then p else 2;
    }

    /** `operator<<(manipulator)`: apply the manipulator to this stream. */
    method Apply(manip: Manip) returns (r: OStream)
      modifies this`buffer, receiverMsg.messager
      ensures r == this
      ensures receiverMsg.messager != null ==>
        && receiverMsg.messager.received
           == old(receiverMsg.messager.received)
              + [LogEntry(old(buffer) + (if manip == EndlManip then "\n" else ""), Text)]
        && buffer == []
      ensures receiverMsg.messager == null ==>
        buffer == old(buffer) + (if manip == EndlManip then "\n" else "")
    {
      match manip {
        case FlushManip =>
          assert old(buffer) + "" == old(buffer);
          r := FlushStream(this);
        case EndlManip =>
          r := EndlStream(this);
      }
    }
  }

  /** The free manipulator `flush(os)`: delegates to `os.flush()`. */
  method FlushStream(os: OStream) returns (r: OStream)
    modifies os`buffer, os.receiverMsg.messager
    ensures r == os
    ensures os.receiverMsg.messager != null ==>
      && os.receiverMsg.messager.received
         == old(os.receiverMsg.messager.received) + [LogEntry(old(os.buffer), Text)]
      && os.buffer == []
    ensures os.receiverMsg.messager == null ==> os.buffer == old(os.buffer)
  {
    r := os.Flush();
  }

  /** The free manipulator `endl(os)`: delegates to `os.endl()`. */
  method EndlStream(os: OStream) returns (r: OStream)
    modifies os`buffer, os.receiverMsg.messager
    ensures r == os
    ensures os.receiverMsg.messager != null ==>
      && os.receiverMsg.messager.received
         == old(os.receiverMsg.messager.received) + [LogEntry(old(os.buffer) + "\n", Text)]
      && os.buffer == []
    ensures os.receiverMsg.messager == null ==> os.buffer == old(os.buffer) + "\n"
  {
    r := os.Endl();
  }

  /** `MyException`: carries the message it was built with. */
  datatype MyException = MyException(what: string)

  /** `error(msg)`: report msg as an error message to the receiver when there
      is one, then throw; the thrown exception is the result. */
  method ReportError(global: GlobalMessager, msg: string) returns (thrown: MyException)
    modifies global.messager
    ensures thrown == MyException(msg)
    ensures global.messager != null ==>
      global.messager.received == old(global.messager.received) + [LogEntry(msg, Error)]
  {
    var m := global.messager;
    if m != null {
      m.Message(msg, Error);
    }
    thrown := MyException(msg);
  }

  /** `cout` is built while `globalMessager` is still null: a flush then
      keeps the text.  Once a receiver is assigned to the cell, the next
      flush of the same stream delivers everything kept so far. */
  method LateReceiver(text: string) returns (keptBeforeReceiver: string, delivered: seq<LogEntry>)
    ensures keptBeforeReceiver == text
    ensures delivered == [LogEntry(text + "\n", Text)]
  {
    var global := new GlobalMessager();
    var cout := new OStream(global);
    var _ := cout.AppendText(text);
    var _ := cout.Flush();
    keptBeforeReceiver := cout.buffer;
    var receiver := new Messager();
    global.Set(receiver);
    var _ := cout.Endl();
    delivered := receiver.received;
  }
}
