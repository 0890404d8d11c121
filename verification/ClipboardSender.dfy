/** Sending a clipboard in chunks (ClipboardChunkPacer.h, StreamChunker.cpp) and the byte
    layout of a chunk (ClipboardChunk.cpp).
 */
module ClipboardSender {
  import opened Bytes
  import opened ClipboardAssembly

  const CHUNK_SIZE: nat := 512 * 1024
  const MAX_CHUNKS_PER_TURN: nat := 4
  const META_SIZE: nat := 7

  // ---- one chunk ----

  /** The bytes of a 32-bit value in a little-endian host's memory. */
  function Native(v: nat): (r: seq<Byte>)
    ensures |r| == 4
  {
    var d := Write32(v);
    [d[3], d[2], d[1], d[0]]
  }

  function NativeValue(s: seq<Byte>): nat
    requires |s| == 4
  {
    Read32([s[3], s[2], s[1], s[0]], 0)
  }

  lemma NativeRoundTrip(v: nat)
    requires v < UINT32
    ensures NativeValue(Native(v)) == v
  {
    var s := Native(v);
    assert [s[3], s[2], s[1], s[0]] == Write32(v);
    ReadWritten(v, [s[3], s[2], s[1], s[0]], 0);
  }

  class ClipboardChunk {
    const chunk: array<Byte>
    const dataSize: nat

    ghost predicate Valid() {
      chunk.Length == dataSize + META_SIZE
    }

    /** The chunk's buffer, laid out. */
    ghost predicate Holds(m: Message)
      reads chunk
    {
      && Valid() && m.sequence < UINT32
      && chunk[..] == [m.id] + Native(m.sequence) + [m.mark] + m.data + [0]
    }

    constructor (size: nat)
      requires size >= META_SIZE
      ensures Valid() && fresh(chunk) && chunk.Length == size
    {
      chunk := new Byte[size](_ => 0);
      dataSize := size - META_SIZE;
    }

    /** start, data and end, which differ in the mark and in what follows it. */
    static method Make(m: Message) returns (c: ClipboardChunk)
      requires m.sequence < UINT32
      ensures fresh(c) && fresh(c.chunk) && c.Holds(m)
    {
      var dataSize := |m.data|;
      c := new ClipboardChunk(dataSize + META_SIZE);
      c.chunk[0] := m.id;
      Memcpy(c.chunk, 1, Native(m.sequence));
      c.chunk[5] := m.mark;
      Memcpy(c.chunk, 6, m.data);
      c.chunk[dataSize + META_SIZE - 1] := 0;
    }

    /** send: the message is read back out of the buffer and written to the stream. */
    method Send(stream: seq<Message>, ghost m: Message) returns (r: seq<Message>)
      requires Holds(m)
      ensures r == stream + [m]
    {
      var id := chunk[0];
      var sequence := NativeValue(chunk[1..5]);
      var mark := chunk[5];
      var data := chunk[6..6 + dataSize];
      ghost var laid := [m.id] + Native(m.sequence) + [m.mark] + m.data + [0];
      assert laid[1..5] == Native(m.sequence) && laid[6..6 + dataSize] == m.data;
      assert chunk[1..5] == chunk[..][1..5] && data == chunk[..][6..6 + dataSize];
      NativeRoundTrip(m.sequence);
      r := stream + [Message(id, sequence, mark, data)];
    }
  }

  method Memcpy(a: array<Byte>, at: nat, s: seq<Byte>)
    requires at + |s| <= a.Length
    modifies a
    ensures a[..] == old(a[..at]) + s + old(a[at + |s|..])
  {
    forall i | 0 <= i < |s| {
      a[at + i] := s[i];
    }
  }

  // ---- pacing ----

  function SliceLength(left: nat): nat {
    if left > CHUNK_SIZE then CHUNK_SIZE else left
  }

  class Pacer {
    const size: nat
    var offset: nat
    var chunksThisTurn: nat

    ghost predicate Valid()
      reads this
    {
      offset <= size
    }

    constructor (size: nat)
      ensures this.size == size && offset == 0 && chunksThisTurn == 0
    {
      this.size, offset, chunksThisTurn := size, 0, 0;
    }

    /** Hands out the next slice, until all is handed out. */
    method Next() returns (more: bool, at: nat, length: nat)
      requires Valid()
      modifies this
      ensures Valid() && more == (old(offset) < size)
      ensures more ==> at == old(offset) && length == SliceLength(size - at) && offset == at + length
                       && chunksThisTurn == old(chunksThisTurn) + 1
      ensures !more ==> unchanged(this)
    {
      at, length := 0, 0;
      if offset >= size {
        return false, at, length;
      }
      at := offset;
      length := size - offset;
      if length > CHUNK_SIZE {
        length := CHUNK_SIZE;
      }
      offset := offset + length;
      chunksThisTurn := chunksThisTurn + 1;
      more := true;
    }

    predicate ShouldYield()
      reads this
    {
      offset < size && chunksThisTurn >= MAX_CHUNKS_PER_TURN
    }
  }

  // ---- what a whole transfer sends ----

  /** The data messages for what is left from `offset` on. */
  function DataFrom(id: Byte, sequence: nat, data: seq<Byte>, offset: nat): seq<Message>
    requires offset <= |data|
    decreases |data| - offset
  {
    if offset == |data| then []
    else
      var end := offset + SliceLength(|data| - offset);
      [Message(id, sequence, DATA_CHUNK, data[offset..end])] + DataFrom(id, sequence, data, end)
  }

  function RestFrom(id: Byte, sequence: nat, data: seq<Byte>, offset: nat): seq<Message>
    requires offset <= |data|
  {
    DataFrom(id, sequence, data, offset) + [Message(id, sequence, DATA_END, [])]
  }

  /** A size in decimal digits. */
  function Decimal(n: nat): seq<Byte> {
    if n < 10 then [48 + n] else Decimal(n / 10) + [48 + n % 10]
  }

  function Transmission(id: Byte, sequence: nat, data: seq<Byte>): seq<Message> {
    [Message(id, sequence, DATA_START, Decimal(|data|))] + RestFrom(id, sequence, data, 0)
  }

  ghost predicate WellCut(ms: seq<Message>) {
    forall i | 0 <= i < |ms| :: 1 <= |ms[i].data| <= CHUNK_SIZE && (i < |ms| - 1 ==> |ms[i].data| == CHUNK_SIZE)
  }

  /** The slices hold between 1 byte and 512 KiB, and only the last less than that. */
  lemma {:induction false} SliceSizes(id: Byte, sequence: nat, data: seq<Byte>, offset: nat)
    requires offset <= |data|
    ensures WellCut(DataFrom(id, sequence, data, offset))
    decreases |data| - offset
  {
    if offset < |data| {
      var end := offset + SliceLength(|data| - offset);
      var first, later := Message(id, sequence, DATA_CHUNK, data[offset..end]), DataFrom(id, sequence, data, end);
      SliceSizes(id, sequence, data, end);
      assert later != [] ==> end != |data|;
      WellCutCons(first, later);
    }
  }

  lemma WellCutCons(first: Message, later: seq<Message>)
    requires WellCut(later) && 1 <= |first.data| <= CHUNK_SIZE
    requires later != [] ==> |first.data| == CHUNK_SIZE
    ensures WellCut([first] + later)
  {
    var ms := [first] + later;
    assert forall i | 1 <= i < |ms| :: ms[i] == later[i - 1];
  }

  // ---- the sender ----

  /** The chunks a turn may send, when the turns before it sent `n`. */
  function Budget(n: nat): nat {
    if n < MAX_CHUNKS_PER_TURN then MAX_CHUNKS_PER_TURN - n else 1
  }

  class Sender {
    const data: seq<Byte>
    const id: Byte
    const sequence: nat
    const pacer: Pacer
    var cancelled: bool
    /** What has been written to the stream. */
    var stream: seq<Message>
    /** Whether an event asking for the next turn is queued. */
    var scheduled: bool

    ghost predicate Valid()
      reads this, pacer
    {
      pacer.Valid() && pacer.size == |data| && sequence < UINT32
    }

    /** What a transfer that is not cancelled has still to send. */
    ghost function Rest(): seq<Message>
      reads this, pacer
      requires Valid()
    {
      RestFrom(id, sequence, data, pacer.offset)
    }

    constructor (data: seq<Byte>, id: Byte, sequence: nat)
      requires sequence < UINT32
      ensures Valid() && fresh(pacer) && this.data == data && this.id == id && this.sequence == sequence
      ensures pacer.offset == pacer.chunksThisTurn == 0 && !cancelled && stream == [] && !scheduled
    {
      this.data, this.id, this.sequence, cancelled, stream, scheduled := data, id, sequence, false, [], false;
      pacer := new Pacer(|data|);
    }

    method Cancel()
      modifies `cancelled
      ensures cancelled
    {
      cancelled := true;
    }

    /** The announcement, then the first turn.  A sender that was cancelled still announces. */
    method Start()
      requires Valid() && stream == [] && pacer.offset == pacer.chunksThisTurn == 0 && !scheduled
      modifies this, pacer
      ensures Valid() && cancelled == old(cancelled)
      ensures cancelled ==> !scheduled && stream == Transmission(id, sequence, data)[..1]
      ensures !cancelled ==> stream + (if scheduled then Rest() else []) == Transmission(id, sequence, data)
      ensures scheduled ==> 0 < pacer.offset < |data| && pacer.chunksThisTurn == MAX_CHUNKS_PER_TURN
                            && |stream| == 1 + MAX_CHUNKS_PER_TURN
      ensures !scheduled ==> |stream| <= 2 + MAX_CHUNKS_PER_TURN
    {
      stream := Write(stream, Message(id, sequence, DATA_START, Decimal(|data|)));
      ghost var announced := stream;
      SendNext();
      assert announced + RestFrom(id, sequence, data, 0) == Transmission(id, sequence, data);
    }

    method Write(s: seq<Message>, m: Message) returns (r: seq<Message>)
      requires m.sequence < UINT32
      ensures r == s + [m]
    {
      var chunk := ClipboardChunk.Make(m);
      r := chunk.Send(s, m);
    }

    /** One turn: chunks until the budget is spent, or all of them and the end.  The budget
        counts the chunks of all turns so far, so each turn after the first sends one. */
    method SendNext()
      requires Valid() && !scheduled
      modifies this, pacer
      ensures Valid() && cancelled == old(cancelled)
      ensures cancelled ==> stream == old(stream) && !scheduled
      ensures !cancelled ==> stream + (if scheduled then Rest() else []) == old(stream) + old(Rest())
      ensures scheduled ==> !cancelled && old(pacer.offset) < pacer.offset < |data|
      ensures scheduled ==>
                var n := Budget(old(pacer.chunksThisTurn));
                && pacer.chunksThisTurn == old(pacer.chunksThisTurn) + n
                && |stream| == |old(stream)| + n
      ensures !scheduled && !cancelled && old(pacer.offset) < |data| ==>
                1 <= |stream| - |old(stream)| - 1 <= Budget(old(pacer.chunksThisTurn))
    {
      if cancelled {
        return;
      }
      var more, at, length := pacer.Next();
      while more
        invariant Valid() && !cancelled && !scheduled
        invariant |stream| >= |old(stream)|
        invariant more ==> old(pacer.offset) <= at < |data| && length == SliceLength(|data| - at)
                           && pacer.offset == at + length
        invariant pacer.chunksThisTurn
                  == old(pacer.chunksThisTurn) + (|stream| - |old(stream)|) + (if more then 1 else 0)
        invariant more && |stream| > |old(stream)| ==> pacer.chunksThisTurn <= MAX_CHUNKS_PER_TURN
        invariant !more && old(pacer.offset) < |data| ==>
                    1 <= |stream| - |old(stream)| <= Budget(old(pacer.chunksThisTurn))
        invariant !more ==> pacer.offset == |data|
        invariant stream + RestFrom(id, sequence, data, if more then at else |data|)
                  == old(stream) + old(Rest())
        decreases |data| - pacer.offset, more
      {
        var slice := Message(id, sequence, DATA_CHUNK, data[at..at + length]);
        ghost var before := stream;
        stream := Write(stream, slice);
        RestNext(before, at);
        if pacer.ShouldYield() {
          scheduled := true;
          return;
        }
        more, at, length := pacer.Next();
      }
      stream := Write(stream, Message(id, sequence, DATA_END, []));
    }

    lemma RestNext(before: seq<Message>, at: nat)
      requires at < |data|
      ensures var end := at + SliceLength(|data| - at);
              before + RestFrom(id, sequence, data, at)
              == before + [Message(id, sequence, DATA_CHUNK, data[at..end])] + RestFrom(id, sequence, data, end)
    {
      var end := at + SliceLength(|data| - at);
      var slice, later := Message(id, sequence, DATA_CHUNK, data[at..end]), DataFrom(id, sequence, data, end);
      var last := [Message(id, sequence, DATA_END, [])];
      assert before + (([slice] + later) + last) == before + [slice] + (later + last);
    }
  }

  /** A transfer nobody cancels: the queue brings back one turn after the other until nothing
      is scheduled.  It sends the whole transmission, and after the four chunks of the first
      turn every chunk costs a turn of its own. */
  method SendClipboard(data: seq<Byte>, id: Byte, sequence: nat) returns (stream: seq<Message>, turns: nat)
    requires sequence < UINT32
    ensures stream == Transmission(id, sequence, data)
    ensures var chunks := |DataFrom(id, sequence, data, 0)|;
            turns == if chunks <= MAX_CHUNKS_PER_TURN then 0 else chunks - MAX_CHUNKS_PER_TURN
  {
    var sender := new Sender(data, id, sequence);
    sender.Start();
    turns := 0;
    while sender.scheduled
      invariant sender.Valid() && !sender.cancelled && sender.data == data && sender.id == id
                && sender.sequence == sequence && fresh(sender) && fresh(sender.pacer)
      invariant sender.stream + (if sender.scheduled then sender.Rest() else []) == Transmission(id, sequence, data)
      invariant !sender.scheduled ==>
                  |sender.stream| == 2 + MAX_CHUNKS_PER_TURN + turns
                  || (turns == 0 && |sender.stream| <= 2 + MAX_CHUNKS_PER_TURN)
      invariant sender.scheduled ==>
                  && sender.pacer.offset < |data| && sender.pacer.chunksThisTurn >= MAX_CHUNKS_PER_TURN
                  && |sender.stream| == 1 + MAX_CHUNKS_PER_TURN + turns
      decreases sender.scheduled, |data| - sender.pacer.offset
    {
      sender.scheduled := false;
      sender.SendNext();
      turns := turns + 1;
    }
    stream := sender.stream;
  }
}
