/** A clipboard's way from one machine to the other: marshalled, cut into chunks, assembled
    and taken apart again.
 */
module ClipboardTransfer {
  import opened Bytes
  import opened ClipboardMarshal
  import opened ClipboardAssembly
  import opened ClipboardRuns
  import opened ClipboardSender
  import ClipboardLimits

  /** The messages as the reader at the other end hands them over. */
  function Arriving(messages: seq<Message>): (r: seq<Input>)
    ensures |r| == |messages| && forall i | 0 <= i < |messages| :: r[i] == Read(messages[i])
  {
    seq(|messages|, i requires 0 <= i < |messages| => Read(messages[i]))
  }

  lemma ArrivingConcat(a: seq<Message>, b: seq<Message>)
    ensures Arriving(a + b) == Arriving(a) + Arriving(b)
  {
    assert forall i | 0 <= i < |a + b| :: Arriving(a + b)[i] == (Arriving(a) + Arriving(b))[i];
  }

  lemma PayloadConsStep(x: Input, b: seq<Input>, y: Input)
    requires IsData(x) && AllData(b) && IsData(y) && AllData([x] + b)
    requires Payload([x] + b) == x.message.data + Payload(b)
    ensures AllData([x] + (b + [y])) && AllData(b + [y])
    ensures Payload([x] + (b + [y])) == x.message.data + Payload(b + [y])
  {
    PayloadSnoc(b, y);
    PayloadSnoc([x] + b, y);
    Regroup([x], b, [y]);
  }

  lemma Regroup(a: seq<Input>, b: seq<Input>, c: seq<Input>)
    ensures a + (b + c) == (a + b) + c
  {
  }

  lemma {:induction false} PayloadCons(x: Input, b: seq<Input>)
    requires IsData(x) && AllData(b)
    ensures AllData([x] + b) && Payload([x] + b) == x.message.data + Payload(b)
  {
    if b == [] {
      PayloadSnoc([], x);
      assert [] + [x] == [x] == [x] + b;
    } else {
      var b', y := b[..|b| - 1], b[|b| - 1];
      assert b == b' + [y];
      DataBefore(b', y);
      PayloadCons(x, b');
      PayloadConsStep(x, b', y);
    }
  }

  /** The data messages carry the payload from `offset` on, all of it and in order. */
  lemma {:induction false} DataCovers(id: Byte, sequence: nat, data: seq<Byte>, offset: nat)
    requires (id as nat) < CLIPBOARD_END && offset <= |data|
    ensures var inputs := Arriving(DataFrom(id, sequence, data, offset));
            AllData(inputs) && Payload(inputs) == data[offset..]
    decreases |data| - offset
  {
    if offset < |data| {
      var end := offset + SliceLength(|data| - offset);
      var first, later := Message(id, sequence, DATA_CHUNK, data[offset..end]), DataFrom(id, sequence, data, end);
      DataCovers(id, sequence, data, end);
      DataFirst(first, later, data[end..]);
      assert data[offset..] == data[offset..end] + data[end..];
    }
  }

  lemma DataFirst(first: Message, later: seq<Message>, rest: seq<Byte>)
    requires IsData(Read(first)) && AllData(Arriving(later)) && Payload(Arriving(later)) == rest
    ensures var inputs := Arriving([first] + later);
            AllData(inputs) && Payload(inputs) == Read(first).message.data + rest
  {
    ArrivingConcat([first], later);
    assert Arriving([first]) == [Read(first)];
    PayloadCons(Read(first), Arriving(later));
  }

  /** A transmission that is not refused at its announcement runs to completion. */
  lemma TransmissionCompletes(cfg: Config, id: Byte, sequence: nat, data: seq<Byte>)
    requires (id as nat) < CLIPBOARD_END && cfg.parse(Decimal(|data|)) == Size.Bytes(|data|)
    requires |data| <= cfg.limit || cfg.skipOversized
    ensures var inputs := Arriving(Transmission(id, sequence, data));
            Complete(cfg, inputs, 0, |data|) && Payload(inputs[..|inputs| - 1][1..]) == data
  {
    var start := Message(id, sequence, DATA_START, Decimal(|data|));
    var slices, end := DataFrom(id, sequence, data, 0), Message(id, sequence, DATA_END, []);
    var inputs := Arriving(Transmission(id, sequence, data));
    ArrivingConcat([start], slices + [end]);
    ArrivingConcat(slices, [end]);
    assert Arriving([end]) == [Read(end)] && Arriving([start]) == [Read(start)];
    assert inputs == [Read(start)] + (Arriving(slices) + [Read(end)]);
    assert inputs[..|inputs| - 1][1..] == Arriving(slices);
    DataCovers(id, sequence, data, 0);
    assert data[0..] == data;
  }

  /** Whatever the receiver was doing, a transmission within its limit leaves it with the
      payload; one above the limit is skipped, or refused at once. */
  lemma TransmissionArrives(cfg: Config, r: Receiver, id: Byte, sequence: nat, data: seq<Byte>)
    requires (id as nat) < CLIPBOARD_END && cfg.parse(Decimal(|data|)) == Size.Bytes(|data|)
    ensures var inputs := Arriving(Transmission(id, sequence, data));
            var after := Run(cfg, r, inputs);
            && inputs != []
            && (|data| <= cfg.limit ==> Last(cfg, r, inputs) == Finished && after.cached == data)
            && (|data| > cfg.limit ==> after == RESET)
            && (|data| > cfg.limit && cfg.skipOversized ==> Last(cfg, r, inputs) == Skipped)
            && (|data| > cfg.limit && !cfg.skipOversized ==> Last(cfg, r, inputs) == Error)
  {
    var inputs := Arriving(Transmission(id, sequence, data));
    if |data| <= cfg.limit || cfg.skipOversized {
      TransmissionCompletes(cfg, id, sequence, data);
      CompleteEnds(cfg, r, inputs, 0, |data|);
    } else {
      RefusedTransmission(cfg, r, id, sequence, data);
    }
  }

  lemma RefusedTransmission(cfg: Config, r: Receiver, id: Byte, sequence: nat, data: seq<Byte>)
    requires (id as nat) < CLIPBOARD_END && cfg.parse(Decimal(|data|)) == Size.Bytes(|data|)
    requires |data| > cfg.limit && !cfg.skipOversized
    ensures var inputs := Arriving(Transmission(id, sequence, data));
            Run(cfg, r, inputs) == RESET && Last(cfg, r, inputs) == Error
  {
    var ms, inputs := Transmission(id, sequence, data), Arriving(Transmission(id, sequence, data));
    var slices := DataFrom(id, sequence, data, 0);
    DataCovers(id, sequence, data, 0);
    forall i | 0 < i < |inputs| ensures IsData(inputs[i]) || IsEnd(inputs[i]) {
      if i < |inputs| - 1 {
        assert ms[i] == slices[i - 1] && IsData(Arriving(slices)[i - 1]);
      }
    }
    RefusedStaysRefused(cfg, r, inputs);
  }

  /** After a start that was refused, data and end messages are refused too. */
  lemma {:induction false} RefusedStaysRefused(cfg: Config, r: Receiver, inputs: seq<Input>)
    requires inputs != [] && Step(cfg, r, inputs[0]) == (RESET, Error)
    requires forall i | 0 < i < |inputs| :: IsData(inputs[i]) || IsEnd(inputs[i])
    ensures Run(cfg, r, inputs) == RESET && Last(cfg, r, inputs) == Error
  {
    var before := inputs[..|inputs| - 1];
    if before == [] {
      assert Run(cfg, r, before) == r;
    } else {
      RefusedStaysRefused(cfg, r, before);
      assert IsData(inputs[|inputs| - 1]) || IsEnd(inputs[|inputs| - 1]);
    }
  }

  // ---- the size header ----

  const SIZE_MAX: nat := 0xFFFF_FFFF_FFFF_FFFF

  function Value(s: seq<Byte>): nat {
    if s == [] then 0 else Value(s[..|s| - 1]) * 10 + (if 48 <= s[|s| - 1] <= 57 then s[|s| - 1] - 48 else 0)
  }

  predicate AllDigits(s: seq<Byte>) {
    forall i | 0 <= i < |s| :: 48 <= s[i] <= 57
  }

  /** A reader of size headers agrees with every plain decimal number of 64 bits. */
  ghost predicate ReadsDecimals(parse: seq<Byte> -> Size) {
    forall s: seq<Byte> | s != [] && AllDigits(s) && Value(s) <= SIZE_MAX :: parse(s) == Size.Bytes(Value(s))
  }

  /** Such a reader: nothing but digits is a number. */
  function PlainDecimal(s: seq<Byte>): Size {
    if s != [] && AllDigits(s) && Value(s) <= SIZE_MAX then Size.Bytes(Value(s)) else Invalid
  }

  lemma PlainDecimalReads()
    ensures ReadsDecimals(PlainDecimal)
  {}

  lemma {:induction false} DecimalValue(n: nat)
    ensures Decimal(n) != [] && AllDigits(Decimal(n)) && Value(Decimal(n)) == n
  {
    if n >= 10 {
      DecimalValue(n / 10);
      assert Decimal(n)[..|Decimal(n)| - 1] == Decimal(n / 10);
    } else {
      assert Decimal(n)[..0] == [];
    }
  }

  // ---- the whole way ----

  /** A clipboard whose marshalled form is within the receiver's limit arrives from any state
      the receiver may be in, and the receiver sees the same formats with the same data
      exactly when they all fit 32-bit sizes. */
  lemma ClipboardArrives(cfg: Config, r: Receiver, id: Byte, sequence: nat, c: Content)
    requires c.Valid() && (id as nat) < CLIPBOARD_END && ReadsDecimals(cfg.parse)
    requires |Marshalled(c)| <= cfg.limit <= SIZE_MAX
    ensures var inputs := Arriving(Transmission(id, sequence, Marshalled(c)));
            && inputs != [] && Last(cfg, r, inputs) == Finished
            && (Parsed(Run(cfg, r, inputs).cached) == c <==> Readable(c))
  {
    DecimalValue(|Marshalled(c)|);
    TransmissionArrives(cfg, r, id, sequence, Marshalled(c));
    MarshalRoundTrip(c);
  }

  /** The limit the client applies, on top of its own setting. */
  function ReceiveLimit(setting: nat): nat {
    if setting < ClipboardLimits.MAXIMUM_BYTES then setting else ClipboardLimits.MAXIMUM_BYTES
  }

  /** A client that sets no lower limit takes over every clipboard that may be sent. */
  lemma AllowedClipboardArrives(cfg: Config, r: Receiver, id: Byte, sequence: nat, c: Content, setting: nat)
    requires c.Valid() && (id as nat) < CLIPBOARD_END && ReadsDecimals(cfg.parse)
    requires ClipboardLimits.Allowed(c) && cfg.limit == ReceiveLimit(setting)
    ensures var inputs := Arriving(Transmission(id, sequence, Marshalled(c)));
            && inputs != []
            && (setting >= |Marshalled(c)| ==>
                  var received := Parsed(Run(cfg, r, inputs).cached);
                  Last(cfg, r, inputs) == Finished && received == c && ClipboardLimits.Allowed(received))
            && (setting < |Marshalled(c)| ==> Last(cfg, r, inputs) in {Skipped, Error})
  {
    DecimalValue(|Marshalled(c)|);
    TransmissionArrives(cfg, r, id, sequence, Marshalled(c));
    ClipboardLimits.AllowedRoundTrip(c);
  }
}
