/** Receiving a clipboard in chunks: the state machine of ClipboardChunk::assemble.
 */
module ClipboardAssembly {
  import opened Bytes

  /** A clipboard message as the stream's reader hands it over. */
  datatype Message = Message(id: Byte, sequence: nat, mark: Byte, data: seq<Byte>)

  const DATA_START: Byte := 1
  const DATA_CHUNK: Byte := 2
  const DATA_END: Byte := 3
  const CLIPBOARD_END: nat := 2

  /** What the reader gives: nothing when the message cannot be parsed. */
  datatype Input = Unreadable | Read(message: Message)

  datatype Size = Invalid | Bytes(bytes: nat)

  /** The receiver's settings, and the conversion of a size header to a number. */
  datatype Config = Config(limit: nat, skipOversized: bool, parse: seq<Byte> -> Size)

  datatype Outcome = Started | InProgress | Finished | Error | Skipped

  datatype State = State(expectedSize: nat, receivedSize: nat, active: bool, discarding: bool)

  const INITIAL: State := State(0, 0, false, false)

  /** The assembly state and the data kept so far. */
  datatype Receiver = Receiver(state: State, cached: seq<Byte>)

  const RESET: Receiver := Receiver(INITIAL, [])

  function WouldExceed(currentSize: nat, extraSize: nat, limit: nat): bool {
    currentSize > limit || extraSize > limit - currentSize
  }

  function Step(cfg: Config, r: Receiver, input: Input): (Receiver, Outcome) {
    if input.Unreadable? || input.message.id as nat >= CLIPBOARD_END then (RESET, Error)
    else
      var m := input.message;
      if m.mark == DATA_START then StartStep(cfg, m)
      else if m.mark == DATA_CHUNK then
        if !r.state.active || WouldExceed(r.state.receivedSize, |m.data|, r.state.expectedSize) then (RESET, Error)
        else (Receiver(r.state.(receivedSize := r.state.receivedSize + |m.data|),
                       if r.state.discarding then r.cached else r.cached + m.data),
              InProgress)
      else if m.mark == DATA_END then
        if !r.state.active || r.state.expectedSize != r.state.receivedSize then (RESET, Error)
        else if r.state.discarding then (RESET, Skipped)
        else (r.(state := r.state.(active := false)), Finished)
      else (RESET, Error)
  }

  function StartStep(cfg: Config, m: Message): (Receiver, Outcome) {
    match cfg.parse(m.data)
    case Invalid => (RESET, Error)
    case Bytes(size) =>
      if size <= cfg.limit then (Receiver(State(size, 0, true, false), []), Started)
      else if cfg.skipOversized then (Receiver(State(size, 0, true, true), []), Started)
      else (RESET, Error)
  }

  /** The state machine as the source has it: the state and the cached data are the caller's,
      and one message changes them in place. */
  class Assembly {
    var expectedSize: nat
    var receivedSize: nat
    var active: bool
    var discarding: bool
    var dataCached: seq<Byte>

    ghost function View(): Receiver
      reads this
    {
      Receiver(State(expectedSize, receivedSize, active, discarding), dataCached)
    }

    constructor ()
      ensures View() == RESET
    {
      expectedSize, receivedSize, active, discarding, dataCached := 0, 0, false, false, [];
    }

    method Reset()
      modifies this
      ensures View() == RESET
    {
      expectedSize, receivedSize, active, discarding, dataCached := 0, 0, false, false, [];
    }

    method Assemble(cfg: Config, input: Input) returns (outcome: Outcome, id: Byte, sequence: nat)
      modifies this
      ensures (View(), outcome) == Step(cfg, old(View()), input)
      ensures input.Read? ==> id == input.message.id && sequence == input.message.sequence
    {
      id, sequence := 0, 0;
      if input.Unreadable? {
        Reset();
        return Error, id, sequence;
      }
      var m := input.message;
      id, sequence := m.id, m.sequence;
      if m.id as nat >= CLIPBOARD_END {
        Reset();
        return Error, id, sequence;
      }
      if m.mark == DATA_START {
        var expected := cfg.parse(m.data);
        if expected.Invalid? {
          Reset();
          return Error, id, sequence;
        }
        Reset();
        expectedSize := expected.bytes;
        active := true;
        if expectedSize > cfg.limit {
          if cfg.skipOversized {
            discarding := true;
            return Started, id, sequence;
          }
          Reset();
          return Error, id, sequence;
        }
        return Started, id, sequence;
      } else if m.mark == DATA_CHUNK {
        if !active {
          Reset();
          return Error, id, sequence;
        }
        if WouldExceed(receivedSize, |m.data|, expectedSize) {
          Reset();
          return Error, id, sequence;
        }
        receivedSize := receivedSize + |m.data|;
        if !discarding {
          dataCached := dataCached + m.data;
        }
        return InProgress, id, sequence;
      } else if m.mark == DATA_END {
        if !active {
          Reset();
          return Error, id, sequence;
        }
        active := false;
        if expectedSize != receivedSize {
          Reset();
          return Error, id, sequence;
        }
        if discarding {
          Reset();
          return Skipped, id, sequence;
        }
        return Finished, id, sequence;
      }
      Reset();
      return Error, id, sequence;
    }
  }
}
