/** What is true of every run of the clipboard receiver.
 */
module ClipboardRuns {
  import opened Bytes
  import opened ClipboardAssembly

  /** The receiver after a run of messages under fixed settings. */
  function Run(cfg: Config, r: Receiver, inputs: seq<Input>): Receiver {
    if inputs == [] then r
    else Step(cfg, Run(cfg, r, inputs[..|inputs| - 1]), inputs[|inputs| - 1]).0
  }

  /** What the last message of a run gives. */
  function Last(cfg: Config, r: Receiver, inputs: seq<Input>): Outcome
    requires inputs != []
  {
    Step(cfg, Run(cfg, r, inputs[..|inputs| - 1]), inputs[|inputs| - 1]).1
  }

  // ---- safety ----

  /** What holds of the receiver between messages. */
  ghost predicate Safe(cfg: Config, r: Receiver) {
    && r.state.receivedSize <= r.state.expectedSize
    && (r.state.discarding ==> r.cached == [] && r.state.expectedSize > cfg.limit && cfg.skipOversized)
    && (!r.state.discarding ==> |r.cached| == r.state.receivedSize && r.state.expectedSize <= cfg.limit)
    && (!r.state.active ==> !r.state.discarding)
  }

  /** In every run the receiver never takes more than was announced, keeps exactly what it
      took, never keeps or announces more than the limit, and a transfer being skipped keeps
      nothing. */
  lemma {:induction false} AlwaysSafe(cfg: Config, r: Receiver, inputs: seq<Input>)
    requires Safe(cfg, r)
    ensures Safe(cfg, Run(cfg, r, inputs))
  {
    if inputs != [] {
      AlwaysSafe(cfg, r, inputs[..|inputs| - 1]);
    }
  }

  lemma InitiallySafe(cfg: Config)
    ensures Safe(cfg, RESET)
  {}

  // ---- when a transfer completes ----

  predicate Valid(input: Input) {
    input.Read? && input.message.id as nat < CLIPBOARD_END
  }

  /** A message announcing a transfer of `size` bytes that is not refused outright. */
  predicate IsStart(cfg: Config, input: Input, size: nat) {
    && Valid(input) && input.message.mark == DATA_START
    && cfg.parse(input.message.data) == Bytes(size)
    && (size <= cfg.limit || cfg.skipOversized)
  }

  predicate IsData(input: Input) {
    Valid(input) && input.message.mark == DATA_CHUNK
  }

  predicate IsEnd(input: Input) {
    Valid(input) && input.message.mark == DATA_END
  }

  ghost predicate AllData(inputs: seq<Input>) {
    forall i | 0 <= i < |inputs| :: IsData(inputs[i])
  }

  /** The data of a run of messages, one after the other. */
  ghost function Payload(inputs: seq<Input>): seq<Byte>
    requires AllData(inputs)
  {
    if inputs == [] then []
    else
      assert IsData(inputs[|inputs| - 1]);
      Payload(inputs[..|inputs| - 1]) + inputs[|inputs| - 1].message.data
  }

  /** Message `from` announces `size` bytes, and only data follows it, no more than that. */
  ghost predicate Open(cfg: Config, inputs: seq<Input>, from: nat, size: nat) {
    && from < |inputs| && IsStart(cfg, inputs[from], size)
    && AllData(inputs[from + 1..])
    && |Payload(inputs[from + 1..])| <= size
  }

  /** The run ends with an announcement, data adding up to the announced size, and the end. */
  ghost predicate Complete(cfg: Config, inputs: seq<Input>, from: nat, size: nat) {
    && inputs != [] && IsEnd(inputs[|inputs| - 1])
    && Open(cfg, inputs[..|inputs| - 1], from, size)
    && |Payload(inputs[..|inputs| - 1][from + 1..])| == size
  }

  lemma SnocOpen(cfg: Config, inputs: seq<Input>, from: nat, size: nat)
    requires from < |inputs| - 1
    ensures inputs[from + 1..] == inputs[..|inputs| - 1][from + 1..] + [inputs[|inputs| - 1]]
  {}

  lemma PayloadSnoc(a: seq<Input>, x: Input)
    requires AllData(a) && IsData(x)
    ensures AllData(a + [x])
    ensures Payload(a + [x]) == Payload(a) + x.message.data
  {
    assert (a + [x])[..|a + [x]| - 1] == a;
  }

  lemma DataBefore(a: seq<Input>, x: Input)
    requires AllData(a + [x])
    ensures AllData(a) && IsData(x)
  {
    forall i | 0 <= i < |a| ensures IsData(a[i]) {
      assert (a + [x])[i] == a[i];
    }
    assert (a + [x])[|a|] == x;
  }

  /** Whatever state it started in, the receiver is in the middle of an open transfer. */
  lemma {:induction false} OpenIsActive(cfg: Config, r: Receiver, inputs: seq<Input>, from: nat, size: nat)
    requires Open(cfg, inputs, from, size)
    ensures var p := Payload(inputs[from + 1..]);
            Run(cfg, r, inputs) == Receiver(State(size, |p|, true, size > cfg.limit),
                                            if size > cfg.limit then [] else p)
  {
    var before, x := inputs[..|inputs| - 1], inputs[|inputs| - 1];
    if from == |inputs| - 1 {
      assert inputs[from + 1..] == [];
    } else {
      SnocOpen(cfg, inputs, from, size);
      DataBefore(before[from + 1..], x);
      PayloadSnoc(before[from + 1..], x);
      OpenIsActive(cfg, r, before, from, size);
    }
  }

  /** A receiver that is in the middle of a transfer has an open one in its run. */
  lemma {:induction false} ActiveIsOpen(cfg: Config, r: Receiver, inputs: seq<Input>) returns (from: nat, size: nat)
    requires !r.state.active && Run(cfg, r, inputs).state.active
    ensures Open(cfg, inputs, from, size)
  {
    var before, x := inputs[..|inputs| - 1], inputs[|inputs| - 1];
    if x.message.mark == DATA_START {
      from, size := |inputs| - 1, cfg.parse(x.message.data).bytes;
      assert inputs[from + 1..] == [];
    } else {
      from, size := ActiveIsOpen(cfg, r, before);
      OpenIsActive(cfg, r, before, from, size);
      SnocOpen(cfg, inputs, from, size);
      PayloadSnoc(before[from + 1..], x);
    }
  }

  /** A complete transfer ends as it should from any state before it, with the data. */
  lemma CompleteEnds(cfg: Config, r: Receiver, inputs: seq<Input>, from: nat, size: nat)
    requires Complete(cfg, inputs, from, size)
    ensures Last(cfg, r, inputs) == if size <= cfg.limit then Finished else Skipped
    ensures Run(cfg, r, inputs).cached
            == if size <= cfg.limit then Payload(inputs[..|inputs| - 1][from + 1..]) else []
  {
    OpenIsActive(cfg, r, inputs[..|inputs| - 1], from, size);
  }

  /** A run of a receiver that starts idle ends in success exactly when its last messages are
      an announcement within the limit, data adding up to it, and the end; and the data is
      then what was kept. */
  lemma FinishedExactlyWhenComplete(cfg: Config, r: Receiver, inputs: seq<Input>)
    requires inputs != [] && !r.state.active
    ensures Last(cfg, r, inputs) == Finished
            <==> exists from: nat, size: nat :: Complete(cfg, inputs, from, size) && size <= cfg.limit
    ensures forall from: nat, size: nat | Complete(cfg, inputs, from, size) && size <= cfg.limit ::
              Run(cfg, r, inputs).cached == Payload(inputs[..|inputs| - 1][from + 1..])
  {
    EndedIsComplete(cfg, r, inputs);
    forall from: nat, size: nat | Complete(cfg, inputs, from, size)
      ensures Last(cfg, r, inputs) == if size <= cfg.limit then Finished else Skipped
      ensures size <= cfg.limit ==> Run(cfg, r, inputs).cached == Payload(inputs[..|inputs| - 1][from + 1..])
    {
      CompleteEnds(cfg, r, inputs, from, size);
    }
  }

  /** It reports a skipped transfer exactly when one above the limit ran to its end. */
  lemma SkippedExactlyWhenOversized(cfg: Config, r: Receiver, inputs: seq<Input>)
    requires inputs != [] && !r.state.active
    ensures Last(cfg, r, inputs) == Skipped
            <==> cfg.skipOversized
                 && exists from: nat, size: nat :: Complete(cfg, inputs, from, size) && size > cfg.limit
  {
    EndedIsComplete(cfg, r, inputs);
    forall from: nat, size: nat | Complete(cfg, inputs, from, size)
      ensures Last(cfg, r, inputs) == if size <= cfg.limit then Finished else Skipped
    {
      CompleteEnds(cfg, r, inputs, from, size);
    }
  }

  lemma EndedIsComplete(cfg: Config, r: Receiver, inputs: seq<Input>)
    requires inputs != [] && !r.state.active
    ensures Last(cfg, r, inputs) in {Finished, Skipped} ==>
              exists from: nat, size: nat :: Complete(cfg, inputs, from, size)
    ensures Last(cfg, r, inputs) == Finished ==>
              exists from: nat, size: nat :: Complete(cfg, inputs, from, size) && size <= cfg.limit
    ensures Last(cfg, r, inputs) == Skipped ==>
              exists from: nat, size: nat :: Complete(cfg, inputs, from, size) && size > cfg.limit
  {
    var before := inputs[..|inputs| - 1];
    if Last(cfg, r, inputs) in {Finished, Skipped} {
      var from, size := ActiveIsOpen(cfg, r, before);
      OpenIsActive(cfg, r, before, from, size);
      assert Complete(cfg, inputs, from, size);
    }
  }

  // ---- when a message is refused ----

  /** Data that continues an open transfer leaves it open, and only then is it taken. */
  lemma OpenBefore(cfg: Config, inputs: seq<Input>, from: nat, size: nat)
    requires inputs != [] && IsData(inputs[|inputs| - 1]) && Open(cfg, inputs, from, size)
    ensures var before, x := inputs[..|inputs| - 1], inputs[|inputs| - 1];
            && Open(cfg, before, from, size)
            && |Payload(before[from + 1..])| + |x.message.data| <= size
  {
    var before, x := inputs[..|inputs| - 1], inputs[|inputs| - 1];
    assert from < |inputs| - 1 by {
      assert inputs[from].message.mark == DATA_START;
    }
    SnocOpen(cfg, inputs, from, size);
    DataBefore(before[from + 1..], x);
    PayloadSnoc(before[from + 1..], x);
  }

  lemma OpenAfter(cfg: Config, inputs: seq<Input>, from: nat, size: nat)
    requires inputs != [] && IsData(inputs[|inputs| - 1]) && Open(cfg, inputs[..|inputs| - 1], from, size)
    requires |Payload(inputs[..|inputs| - 1][from + 1..])| + |inputs[|inputs| - 1].message.data| <= size
    ensures Open(cfg, inputs, from, size)
  {
    var before, x := inputs[..|inputs| - 1], inputs[|inputs| - 1];
    SnocOpen(cfg, inputs, from, size);
    PayloadSnoc(before[from + 1..], x);
  }

  /** The message announces a size that can be read, and is not refused for its size. */
  predicate Announces(cfg: Config, input: Input) {
    && Valid(input) && input.message.mark == DATA_START && cfg.parse(input.message.data).Bytes?
    && IsStart(cfg, input, cfg.parse(input.message.data).bytes)
  }

  /** A transfer is started exactly by an announcement that is not refused. */
  lemma StartedExactlyWhenAnnounced(cfg: Config, r: Receiver, inputs: seq<Input>)
    requires inputs != []
    ensures Last(cfg, r, inputs) == Started <==> Announces(cfg, inputs[|inputs| - 1])
  {
  }

  /** A transfer goes on exactly with data that, with what came since the announcement, is no
      more than was announced. */
  lemma InProgressExactlyWhenOpen(cfg: Config, r: Receiver, inputs: seq<Input>)
    requires inputs != [] && !r.state.active
    ensures Last(cfg, r, inputs) == InProgress
            <==> IsData(inputs[|inputs| - 1]) && exists from: nat, size: nat :: Open(cfg, inputs, from, size)
  {
    var before, x := inputs[..|inputs| - 1], inputs[|inputs| - 1];
    if Last(cfg, r, inputs) == InProgress {
      var from, size := ActiveIsOpen(cfg, r, before);
      OpenIsActive(cfg, r, before, from, size);
      OpenAfter(cfg, inputs, from, size);
    }
    if IsData(x) {
      forall from: nat, size: nat | Open(cfg, inputs, from, size) ensures Last(cfg, r, inputs) == InProgress {
        OpenBefore(cfg, inputs, from, size);
        OpenIsActive(cfg, r, before, from, size);
      }
    }
  }

  /** A message is refused exactly if it is no announcement of a size that is taken, no data
      within an open transfer, and not the end of a complete one; and then nothing is left of
      the transfer. */
  lemma ErrorExactly(cfg: Config, r: Receiver, inputs: seq<Input>)
    requires inputs != [] && !r.state.active
    ensures Last(cfg, r, inputs) == Error
            <==> !Announces(cfg, inputs[|inputs| - 1])
                 && !(IsData(inputs[|inputs| - 1]) && exists from: nat, size: nat :: Open(cfg, inputs, from, size))
                 && !(exists from: nat, size: nat :: Complete(cfg, inputs, from, size))
    ensures Last(cfg, r, inputs) == Error ==> Run(cfg, r, inputs) == RESET
  {
    StartedExactlyWhenAnnounced(cfg, r, inputs);
    InProgressExactlyWhenOpen(cfg, r, inputs);
    EndedIsComplete(cfg, r, inputs);
    forall from: nat, size: nat | Complete(cfg, inputs, from, size)
      ensures Last(cfg, r, inputs) in {Finished, Skipped}
    {
      CompleteEnds(cfg, r, inputs, from, size);
    }
  }
}
