/** Streaming an HTTP body into a file through a bounded queue, and resuming an interrupted download. */
module StreamingDownload {
  import opened Collections

  const WRITE_BATCH_BYTES: nat := 1024 * 1024
  const WRITE_QUEUE_DEPTH: nat := 2
  const HASH_BUFFER_BYTES: nat := 1024 * 1024

  // ----- producer, queue and writer

  datatype Batch = Batch(data: Bytes, offset: nat)

  /** Where the producer stands: it blocks in every state but `Receiving` and `Ended` until the queue has room. */
  datatype Producer = Receiving | FlushingBatch(chunk: Bytes) | Forwarding(chunk: Bytes) | FlushingLast | Ended

  datatype Writer = Idle | Writing(batch: Batch, done: nat)

  /** `fed` is what the chunk callback has seen, `written` what has reached the file, in order. */
  datatype Stream = Stream(
    chunks: seq<Bytes>, producer: Producer, batch: Bytes, writeOffset: nat,
    queue: seq<Batch>, writer: Writer, file: Bytes, fed: Bytes, written: Bytes)

  datatype Step = Receive | SendBatch | Forward | EndOfBody | SendLast | Take | WriteSome(count: nat)

  /** `data` replaces what `file` holds from `offset` on, for its own length. */
  function Splice(file: Bytes, offset: nat, data: Bytes): Bytes
    requires offset <= |file|
  {
    file[..offset] + data + if offset + |data| <= |file| then file[offset + |data|..] else []
  }

  function Open(file: Bytes, start: nat, chunks: seq<Bytes>): Stream {
    Stream(chunks, Receiving, [], start, [], Idle, file, [], [])
  }

  predicate Enabled(s: Stream, step: Step) {
    match step
    case Receive => s.producer.Receiving? && s.chunks != []
    case SendBatch => s.producer.FlushingBatch? && |s.queue| < WRITE_QUEUE_DEPTH
    case Forward => s.producer.Forwarding? && |s.queue| < WRITE_QUEUE_DEPTH
    case EndOfBody => s.producer.Receiving? && s.chunks == []
    case SendLast => s.producer.FlushingLast? && |s.queue| < WRITE_QUEUE_DEPTH
    case Take => s.writer.Idle? && s.queue != []
    case WriteSome(count) =>
      && s.writer.Writing? && 0 < count <= |s.writer.batch.data| - s.writer.done
      && s.writer.batch.offset + s.writer.done <= |s.file|
  }

  /** A chunk joins the batch, or goes to the queue by itself when it is large and nothing is batched. */
  function Absorb(s: Stream, chunk: Bytes): Stream {
    if s.batch == [] && |chunk| >= WRITE_BATCH_BYTES then s.(producer := Forwarding(chunk))
    else s.(producer := Receiving, batch := s.batch + chunk)
  }

  function Send(s: Stream, data: Bytes): Stream {
    s.(queue := s.queue + [Batch(data, s.writeOffset)], writeOffset := s.writeOffset + |data|)
  }

  function Next(s: Stream, step: Step): Stream
    requires Enabled(s, step)
  {
    match step
    case Receive =>
      var chunk := s.chunks[0];
      var r := s.(chunks := s.chunks[1..], fed := s.fed + chunk);
      if s.batch != [] && |s.batch| + |chunk| > WRITE_BATCH_BYTES then r.(producer := FlushingBatch(chunk))
      else Absorb(r, chunk)
    case SendBatch => Absorb(Send(s, s.batch).(batch := []), s.producer.chunk)
    case Forward => Send(s, s.producer.chunk).(producer := Receiving)
    case EndOfBody => s.(producer := if s.batch != [] then FlushingLast else Ended)
    case SendLast => Send(s, s.batch).(batch := [], producer := Ended)
    case Take => s.(queue := s.queue[1..], writer := Writing(s.queue[0], 0))
    case WriteSome(count) =>
      var b, done := s.writer.batch, s.writer.done;
      var data := b.data[done..done + count];
      s.(file := Splice(s.file, b.offset + done, data), written := s.written + data,
         writer := if done + count == |b.data| then Idle else Writing(b, done + count))
  }

  ghost predicate Runs(s: Stream, steps: seq<Step>, s': Stream)
    decreases |steps|
  {
    if steps == [] then s' == s
    else Enabled(s, steps[0]) && Runs(Next(s, steps[0]), steps[1..], s')
  }

  predicate Complete(s: Stream) {
    s.producer.Ended? && s.queue == [] && s.writer.Idle?
  }

  // ----- the invariant

  function Flatten(parts: seq<Bytes>): Bytes {
    if parts == [] then [] else parts[0] + Flatten(parts[1..])
  }

  function Queued(queue: seq<Batch>): Bytes {
    if queue == [] then [] else Queued(queue[..|queue| - 1]) + queue[|queue| - 1].data
  }

  function InFlight(w: Writer): Bytes {
    if w.Writing? && w.done <= |w.batch.data| then w.batch.data[w.done..] else []
  }

  function Held(p: Producer): Bytes {
    if p.FlushingBatch? || p.Forwarding? then p.chunk else []
  }

  /** The bytes received so far, by where they are now. */
  function Pipeline(written: Bytes, inFlight: Bytes, queued: Bytes, batch: Bytes, held: Bytes): Bytes {
    written + inFlight + queued + batch + held
  }

  /** Queued batches are non-empty and each starts where the one before it ends. */
  ghost predicate Contiguous(queue: seq<Batch>, end: nat)
    decreases |queue|
  {
    queue == [] ||
    var last := queue[|queue| - 1];
    last.data != [] && last.offset + |last.data| == end && Contiguous(queue[..|queue| - 1], last.offset)
  }

  ghost predicate ProducerOk(s: Stream) {
    && |s.batch| <= WRITE_BATCH_BYTES
    && (s.producer.FlushingBatch? || s.producer.FlushingLast? ==> s.batch != [])
    && (s.producer.Forwarding? ==> s.batch == [] && |s.producer.chunk| >= WRITE_BATCH_BYTES)
    && (s.producer.FlushingLast? || s.producer.Ended? ==> s.chunks == [])
    && (s.producer.Ended? ==> s.batch == [])
  }

  /** Nothing is lost, duplicated or reordered between the body and the file. */
  ghost predicate Inv(file0: Bytes, start: nat, body: Bytes, s: Stream) {
    && start <= |file0|
    && ProducerOk(s)
    && s.fed + Flatten(s.chunks) == body
    && s.fed == Pipeline(s.written, InFlight(s.writer), Queued(s.queue), s.batch, Held(s.producer))
    && s.file == Splice(file0, start, s.written)
    && |s.queue| <= WRITE_QUEUE_DEPTH && Contiguous(s.queue, s.writeOffset)
    && s.writeOffset == start + |s.written| + |InFlight(s.writer)| + |Queued(s.queue)|
    && (s.writer.Writing? ==>
          s.writer.done < |s.writer.batch.data| && s.writer.batch.offset + s.writer.done == start + |s.written|)
  }

  lemma SpliceExtends(file0: Bytes, start: nat, written: Bytes, data: Bytes)
    requires start <= |file0|
    ensures start + |written| <= |Splice(file0, start, written)|
    ensures Splice(Splice(file0, start, written), start + |written|, data) == Splice(file0, start, written + data)
  {
    var once, both := Splice(file0, start, written), Splice(file0, start, written + data);
    assert once[..start + |written|] == file0[..start] + written;
    if start + |written| + |data| <= |file0| {
      assert once[start + |written| + |data|..] == file0[start + |written| + |data|..];
    }
    assert file0[..start] + (written + data) == file0[..start] + written + data;
  }

  lemma Regroup(a: Bytes, b: Bytes, c: Bytes)
    ensures a + b + c == a + (b + c)
  {
  }

  lemma {:induction false} QueueFront(queue: seq<Batch>, end: nat)
    requires queue != [] && Contiguous(queue, end)
    ensures Queued(queue) == queue[0].data + Queued(queue[1..])
    ensures queue[0].data != [] && Contiguous(queue[1..], end)
    ensures queue[0].offset + |Queued(queue)| == end
    decreases |queue|
  {
    var last := queue[|queue| - 1];
    if |queue| == 1 {
      assert Queued(queue[..0]) == [] && queue[1..] == [];
    } else {
      var init := queue[..|queue| - 1];
      QueueFront(init, last.offset);
      assert queue[1..][..|queue| - 2] == init[1..] && init[0] == queue[0];
      Regroup(queue[0].data, Queued(init[1..]), last.data);
    }
  }

  lemma QueueBack(queue: seq<Batch>, end: nat, data: Bytes)
    requires Contiguous(queue, end) && data != []
    ensures Queued(queue + [Batch(data, end)]) == Queued(queue) + data
    ensures Contiguous(queue + [Batch(data, end)], end + |data|)
  {
    assert (queue + [Batch(data, end)])[..|queue|] == queue;
  }

  lemma PipelineReceives(w: Bytes, i: Bytes, q: Bytes, b: Bytes, chunk: Bytes)
    ensures Pipeline(w, i, q, b, []) + chunk == Pipeline(w, i, q, b, chunk) == Pipeline(w, i, q, b + chunk, [])
  {
    Regroup(w + i + q, b, chunk);
  }

  lemma PipelineQueues(w: Bytes, i: Bytes, q: Bytes, b: Bytes, h: Bytes)
    ensures Pipeline(w, i, q, b, h) == Pipeline(w, i, q + b, [], h) == Pipeline(w, i, q + b, h, [])
  {
    Regroup(w + i, q, b);
  }

  lemma PipelineTakes(w: Bytes, d: Bytes, q: Bytes, b: Bytes, h: Bytes)
    ensures Pipeline(w, [], d + q, b, h) == Pipeline(w, d, q, b, h)
  {
    Regroup(w, d, q);
  }

  lemma PipelineWrites(w: Bytes, d: Bytes, i: Bytes, q: Bytes, b: Bytes, h: Bytes)
    ensures Pipeline(w, d + i, q, b, h) == Pipeline(w + d, i, q, b, h)
  {
    Regroup(w, d, i);
  }

  lemma ReceiveHolds(file0: Bytes, start: nat, body: Bytes, s: Stream)
    requires Inv(file0, start, body, s) && Enabled(s, Receive)
    ensures Inv(file0, start, body, Next(s, Receive))
  {
    var chunk := s.chunks[0];
    Regroup(s.fed, chunk, Flatten(s.chunks[1..]));
    PipelineReceives(s.written, InFlight(s.writer), Queued(s.queue), s.batch, chunk);
    assert [] + chunk == chunk;
  }

  lemma SendBatchHolds(file0: Bytes, start: nat, body: Bytes, s: Stream)
    requires Inv(file0, start, body, s) && Enabled(s, SendBatch)
    ensures Inv(file0, start, body, Next(s, SendBatch))
  {
    hide Splice, Pipeline, Flatten, Queued, Contiguous, InFlight;
    QueueBack(s.queue, s.writeOffset, s.batch);
    PipelineQueues(s.written, InFlight(s.writer), Queued(s.queue), s.batch, s.producer.chunk);
    assert [] + s.producer.chunk == s.producer.chunk;
  }

  lemma ForwardHolds(file0: Bytes, start: nat, body: Bytes, s: Stream)
    requires Inv(file0, start, body, s) && Enabled(s, Forward)
    ensures Inv(file0, start, body, Next(s, Forward))
  {
    QueueBack(s.queue, s.writeOffset, s.producer.chunk);
    PipelineQueues(s.written, InFlight(s.writer), Queued(s.queue), s.producer.chunk, []);
    PipelineReceives(s.written, InFlight(s.writer), Queued(s.queue), [], s.producer.chunk);
    assert [] + s.producer.chunk == s.producer.chunk;
  }

  lemma SendLastHolds(file0: Bytes, start: nat, body: Bytes, s: Stream)
    requires Inv(file0, start, body, s) && Enabled(s, SendLast)
    ensures Inv(file0, start, body, Next(s, SendLast))
  {
    QueueBack(s.queue, s.writeOffset, s.batch);
    PipelineQueues(s.written, InFlight(s.writer), Queued(s.queue), s.batch, []);
  }

  lemma TakeHolds(file0: Bytes, start: nat, body: Bytes, s: Stream)
    requires Inv(file0, start, body, s) && Enabled(s, Take)
    ensures Inv(file0, start, body, Next(s, Take))
  {
    QueueFront(s.queue, s.writeOffset);
    PipelineTakes(s.written, s.queue[0].data, Queued(s.queue[1..]), s.batch, Held(s.producer));
  }

  lemma WriteHolds(file0: Bytes, start: nat, body: Bytes, s: Stream, count: nat)
    requires Inv(file0, start, body, s) && Enabled(s, WriteSome(count))
    ensures Inv(file0, start, body, Next(s, WriteSome(count)))
  {
    hide Splice, Pipeline, Flatten, Queued, Contiguous;
    var b, done := s.writer.batch, s.writer.done;
    var data := b.data[done..done + count];
    SpliceExtends(file0, start, s.written, data);
    assert b.data[done..] == data + b.data[done + count..];
    PipelineWrites(s.written, data, b.data[done + count..], Queued(s.queue), s.batch, Held(s.producer));
  }

  lemma StepHolds(file0: Bytes, start: nat, body: Bytes, s: Stream, step: Step)
    requires Inv(file0, start, body, s) && Enabled(s, step)
    ensures Inv(file0, start, body, Next(s, step))
  {
    match step
    case Receive => ReceiveHolds(file0, start, body, s);
    case SendBatch => SendBatchHolds(file0, start, body, s);
    case Forward => ForwardHolds(file0, start, body, s);
    case EndOfBody =>
    case SendLast => SendLastHolds(file0, start, body, s);
    case Take => TakeHolds(file0, start, body, s);
    case WriteSome(count) => WriteHolds(file0, start, body, s, count);
  }

  lemma {:induction false} RunHolds(file0: Bytes, start: nat, body: Bytes, s: Stream, steps: seq<Step>, s': Stream)
    requires Inv(file0, start, body, s) && Runs(s, steps, s')
    ensures Inv(file0, start, body, s')
    decreases |steps|
  {
    if steps != [] {
      StepHolds(file0, start, body, s, steps[0]);
      RunHolds(file0, start, body, Next(s, steps[0]), steps[1..], s');
    }
  }

  lemma OpenHolds(file0: Bytes, start: nat, chunks: seq<Bytes>)
    requires start <= |file0|
    ensures Inv(file0, start, Flatten(chunks), Open(file0, start, chunks))
  {
    assert [] + Flatten(chunks) == Flatten(chunks);
    assert file0[..start] + [] + file0[start..] == file0;
  }

  // ----- main results on streaming

  /**
   * At every moment of every interleaving, however small the writes, the file is the original with a prefix of
   * the body in place; the queue holds at most two batches, none empty.
   */
  lemma FileHoldsBodyPrefix(file0: Bytes, start: nat, chunks: seq<Bytes>, steps: seq<Step>, s: Stream)
    requires start <= |file0| && Runs(Open(file0, start, chunks), steps, s)
    ensures s.written <= s.fed <= Flatten(chunks) && s.file == Splice(file0, start, s.written)
    ensures |s.queue| <= WRITE_QUEUE_DEPTH && Contiguous(s.queue, s.writeOffset) && |s.batch| <= WRITE_BATCH_BYTES
  {
    OpenHolds(file0, start, chunks);
    RunHolds(file0, start, Flatten(chunks), Open(file0, start, chunks), steps, s);
  }

  /** When both sides are done, the whole body is in place, was hashed, and the total is its end offset. */
  lemma CompleteStream(file0: Bytes, start: nat, chunks: seq<Bytes>, steps: seq<Step>, s: Stream)
    requires start <= |file0| && Runs(Open(file0, start, chunks), steps, s) && Complete(s)
    ensures s.file == Splice(file0, start, Flatten(chunks)) && s.fed == Flatten(chunks)
    ensures s.writeOffset == start + |Flatten(chunks)|
  {
    OpenHolds(file0, start, chunks);
    RunHolds(file0, start, Flatten(chunks), Open(file0, start, chunks), steps, s);
    assert s.fed + [] == s.fed;
  }

  /** The bounded queue never deadlocks: until the stream is complete some side can move. */
  lemma StreamProgress(file0: Bytes, start: nat, body: Bytes, s: Stream) returns (step: Step)
    requires Inv(file0, start, body, s) && !Complete(s)
    ensures Enabled(s, step)
  {
    if s.writer.Writing? {
      SpliceExtends(file0, start, s.written, []);
      step := WriteSome(|s.writer.batch.data| - s.writer.done);
    } else if s.queue != [] {
      step := Take;
    } else {
      match s.producer
      case Receiving => step := if s.chunks == [] then EndOfBody else Receive;
      case FlushingBatch(_) => step := SendBatch;
      case Forwarding(_) => step := Forward;
      case FlushingLast => step := SendLast;
    }
  }

  function ProducerRank(p: Producer): nat {
    match p
    case FlushingBatch(_) => 4
    case Forwarding(_) => 3
    case Receiving => 2
    case FlushingLast => 1
    case Ended => 0
  }

  function Unwritten(w: Writer): int {
    if w.Writing? then |w.batch.data| - w.done else 0
  }

  /** Lexicographic order on chunks to come, the producer's state, queued batches and bytes of the batch in hand. */
  ghost predicate Closer(a: Stream, b: Stream) {
    || |a.chunks| < |b.chunks|
    || (|a.chunks| == |b.chunks| &&
        (|| ProducerRank(a.producer) < ProducerRank(b.producer)
         || (a.producer == b.producer &&
             (|| |a.queue| < |b.queue|
              || (|a.queue| == |b.queue| && 0 <= Unwritten(a.writer) < Unwritten(b.writer))))))
  }

  /** No stream goes on for ever. */
  lemma EveryStepIsCloser(s: Stream, step: Step)
    requires Enabled(s, step)
    ensures Closer(Next(s, step), s)
  {
  }

  /** From every state reached, the two sides can bring the stream to its end. */
  lemma {:induction false} StreamCanComplete(file0: Bytes, start: nat, body: Bytes, s: Stream)
    returns (steps: seq<Step>, s': Stream)
    requires Inv(file0, start, body, s)
    ensures Runs(s, steps, s') && Complete(s')
    decreases |s.chunks|, ProducerRank(s.producer), |s.queue|, if Unwritten(s.writer) < 0 then 0 else Unwritten(s.writer)
  {
    hide Inv;
    if Complete(s) {
      steps, s' := [], s;
    } else {
      var step := StreamProgress(file0, start, body, s);
      EveryStepIsCloser(s, step);
      StepHolds(file0, start, body, s, step);
      var rest;
      rest, s' := StreamCanComplete(file0, start, body, Next(s, step));
      steps := [step] + rest;
      assert steps[1..] == rest;
    }
  }

  // ----- how the body is cut into writes

  /** What has been handed over and is not completely written, oldest first. */
  function UnderWay(s: Stream): seq<Bytes> {
    (if s.writer.Writing? then [s.writer.batch.data] else [])
    + seq(|s.queue|, k requires 0 <= k < |s.queue| => s.queue[k].data)
  }

  /** The two would not have fitted into one batch. */
  predicate NeedTwo(a: Bytes, b: Bytes) {
    |a| + |b| > WRITE_BATCH_BYTES
  }

  /** None empty, none larger than a batch unless the server sent it in one piece, no two that should have been one. */
  ghost predicate WellCut(chunks: seq<Bytes>, sent: seq<Bytes>) {
    && (forall k :: 0 <= k < |sent| ==> sent[k] != [] && (|sent[k]| <= WRITE_BATCH_BYTES || sent[k] in chunks))
    && (forall k :: 0 < k < |sent| ==> NeedTwo(sent[k - 1], sent[k]))
  }

  ghost predicate SizesInv(chunks: seq<Bytes>, s: Stream) {
    var sent := UnderWay(s);
    && WellCut(chunks, sent) && |s.batch| <= WRITE_BATCH_BYTES && (forall c :: c in s.chunks ==> c in chunks)
    && (sent != [] && s.batch != [] ==> NeedTwo(sent[|sent| - 1], s.batch))
    && match s.producer
       case Receiving => s.batch == [] && sent != [] ==> |sent[|sent| - 1]| >= WRITE_BATCH_BYTES
       case FlushingBatch(chunk) => s.batch != [] && NeedTwo(s.batch, chunk) && chunk in chunks
       case Forwarding(chunk) => s.batch == [] && |chunk| >= WRITE_BATCH_BYTES && chunk in chunks
       case FlushingLast => s.batch != []
       case Ended => s.batch == []
  }

  lemma SendingIsWellCut(chunks: seq<Bytes>, s: Stream, data: Bytes)
    requires WellCut(chunks, UnderWay(s)) && data != [] && (|data| <= WRITE_BATCH_BYTES || data in chunks)
    requires UnderWay(s) != [] ==> NeedTwo(UnderWay(s)[|UnderWay(s)| - 1], data)
    ensures UnderWay(Send(s, data)) == UnderWay(s) + [data] && WellCut(chunks, UnderWay(s) + [data])
  {
    assert UnderWay(Send(s, data)) == UnderWay(s) + [data];
    hide UnderWay, Send;
    MoreIsWellCut(chunks, UnderWay(s), data);
  }

  lemma MoreIsWellCut(chunks: seq<Bytes>, sent: seq<Bytes>, data: Bytes)
    requires WellCut(chunks, sent) && data != [] && (|data| <= WRITE_BATCH_BYTES || data in chunks)
    requires sent != [] ==> NeedTwo(sent[|sent| - 1], data)
    ensures WellCut(chunks, sent + [data])
  {
    hide NeedTwo;
  }

  lemma TailIsWellCut(chunks: seq<Bytes>, sent: seq<Bytes>)
    requires WellCut(chunks, sent) && sent != []
    ensures WellCut(chunks, sent[1..])
  {
    assert forall k :: 0 <= k < |sent[1..]| ==> sent[1..][k] == sent[k + 1];
  }

  /** Producer steps hand over one batch at most, writer steps finish one at most. */
  lemma StepUnderWay(s: Stream, step: Step)
    requires Enabled(s, step)
    ensures var sent, next := UnderWay(s), UnderWay(Next(s, step));
            match step
            case SendBatch => next == sent + [s.batch]
            case Forward => next == sent + [s.producer.chunk]
            case SendLast => next == sent + [s.batch]
            case WriteSome(_) => sent != [] && (next == sent || next == sent[1..])
            case _ => next == sent
  {
    var sent, next := UnderWay(s), UnderWay(Next(s, step));
    match step
    case Take => assert next == sent;
    case WriteSome(count) => assert next == sent || next == sent[1..];
    case SendBatch => assert next == sent + [s.batch];
    case Forward => assert next == sent + [s.producer.chunk];
    case SendLast => assert next == sent + [s.batch];
    case _ => assert next == sent;
  }

  lemma SendStaysWellCut(chunks: seq<Bytes>, s: Stream, step: Step)
    requires SizesInv(chunks, s) && Enabled(s, step) && (step.SendBatch? || step.Forward? || step.SendLast?)
    ensures SizesInv(chunks, Next(s, step))
  {
    var sent := UnderWay(s);
    var data := if step.Forward? then s.producer.chunk else s.batch;
    StepUnderWay(s, step);
    assert sent != [] ==> sent[|sent| - 1] != [];
    SendingIsWellCut(chunks, s, data);
    hide UnderWay, WellCut;
  }

  lemma ReceiveStaysWellCut(chunks: seq<Bytes>, s: Stream)
    requires SizesInv(chunks, s) && Enabled(s, Receive)
    ensures SizesInv(chunks, Next(s, Receive))
  {
    StepUnderWay(s, Receive);
    assert s.chunks[0] in s.chunks;
    hide UnderWay, WellCut;
  }

  lemma StepStaysWellCut(chunks: seq<Bytes>, s: Stream, step: Step)
    requires SizesInv(chunks, s) && Enabled(s, step)
    ensures SizesInv(chunks, Next(s, step))
  {
    hide SizesInv, Next, Enabled;
    if step.Receive? {
      ReceiveStaysWellCut(chunks, s);
    } else if step.SendBatch? || step.Forward? || step.SendLast? {
      SendStaysWellCut(chunks, s, step);
    } else {
      OtherStaysWellCut(chunks, s, step);
    }
  }

  lemma OtherStaysWellCut(chunks: seq<Bytes>, s: Stream, step: Step)
    requires SizesInv(chunks, s) && Enabled(s, step) && (step.EndOfBody? || step.Take? || step.WriteSome?)
    ensures SizesInv(chunks, Next(s, step))
  {
    StepUnderWay(s, step);
    var sent := UnderWay(s);
    hide UnderWay, WellCut, NeedTwo, Splice;
    if step.WriteSome? {
      TailIsWellCut(chunks, sent);
      assert |sent| > 1 ==> sent[1..][|sent[1..]| - 1] == sent[|sent| - 1];
    }
  }

  lemma {:induction false} RunStaysWellCut(chunks: seq<Bytes>, s: Stream, steps: seq<Step>, s': Stream)
    requires SizesInv(chunks, s) && Runs(s, steps, s')
    ensures SizesInv(chunks, s')
    decreases |steps|
  {
    if steps != [] {
      StepStaysWellCut(chunks, s, steps[0]);
      RunStaysWellCut(chunks, Next(s, steps[0]), steps[1..], s');
    }
  }

  /** Small chunks are gathered into batches of a mebibyte as far as they fit; only what came in one piece is larger. */
  lemma BodyIsWellCut(file0: Bytes, start: nat, chunks: seq<Bytes>, steps: seq<Step>, s: Stream)
    requires Runs(Open(file0, start, chunks), steps, s)
    ensures WellCut(chunks, UnderWay(s))
  {
    RunStaysWellCut(chunks, Open(file0, start, chunks), steps, s);
  }

  /** A chunk as large as a batch is not copied into one: what is batched goes first, then the chunk as it came. */
  lemma LargeChunksGoAsTheyCame(s: Stream)
    requires Enabled(s, Receive) && |s.chunks[0]| >= 1024 * 1024
    ensures var chunk, r := s.chunks[0], Next(s, Receive);
            if s.batch == [] then r.producer == Forwarding(chunk)
            else r.producer == FlushingBatch(chunk) && r.batch == s.batch
                 && (Enabled(r, SendBatch) ==> Next(r, SendBatch).producer == Forwarding(chunk))
  {
  }

  // ----- hashing the prefix of a partial file

  /** Reads may be short; the loop either feeds exactly the first `len` bytes or reports where the file ended. */
  method HashFilePrefix(file: Bytes, len: nat) returns (r: Result<Bytes, nat>)
    ensures r == if len <= |file| then Ok(file[..len]) else Err(|file|)
  {
    var offset, fed: Bytes := 0, [];
    while offset < len
      invariant offset <= len && offset <= |file| && fed == file[..offset]
    {
      var requested := if len - offset < HASH_BUFFER_BYTES then len - offset else HASH_BUFFER_BYTES;
      var available := |file| - offset;
      var read: nat :| read <= requested && read <= available && (read == 0 <==> available == 0);
      if read == 0 {
        return Err(offset);
      }
      assert file[..offset] + file[offset..offset + read] == file[..offset + read];
      fed := fed + file[offset..offset + read];
      offset := offset + read;
    }
    return Ok(fed);
  }

  // ----- downloads

  datatype Existing = NoFile | NotAFile | File(content: Bytes)

  datatype DownloadError = DestinationNotAFile | HttpStatus(status: nat) | CannotOpen

  /** The opened file, the offset writing starts at, and what the digest has seen of it. */
  datatype Opened = Opened(file: Bytes, start: nat, hashed: Bytes)

  predicate IsSuccess(status: nat) {
    200 <= status < 300
  }

  function ExistingLength(existing: Existing, resume: bool): nat {
    if resume && existing.File? then |existing.content| else 0
  }

  /** Only a partial-content answer to a request for the rest of the file lets its bytes stand. */
  function KeptBytes(existing: Existing, resume: bool, status: nat): Bytes {
    if ExistingLength(existing, resume) > 0 && status == 206 then existing.content else []
  }

  /** Everything before the body is streamed: only a partial-content answer keeps the existing bytes. */
  method OpenDownload(existing: Existing, resume: bool, status: nat) returns (r: Result<Opened, DownloadError>)
    ensures r.Ok? <==> !existing.NotAFile? && status / 100 == 2
    ensures existing.NotAFile? && resume ==> r == Err(DestinationNotAFile)
    ensures !(existing.NotAFile? && resume) && !IsSuccess(status) ==> r == Err(HttpStatus(status))
    ensures r.Ok? ==> r.value.start == |r.value.file| && r.value.hashed == r.value.file
    ensures r.Ok? && resume && existing.File? && status == 206 ==> r.value.file == existing.content
    ensures r.Ok? && !(resume && existing.File? && status == 206) ==> r.value.file == []
  {
    if resume && existing.NotAFile? {
      return Err(DestinationNotAFile);
    }
    var existingLen := ExistingLength(existing, resume);
    if !IsSuccess(status) {
      return Err(HttpStatus(status));
    }
    if existingLen > 0 && status == 206 {
      var prefix := HashFilePrefix(existing.content, existingLen);
      assert existing.content[..existingLen] == existing.content;
      return Ok(Opened(existing.content, existingLen, prefix.value));
    }
    if existing.NotAFile? {
      return Err(CannotOpen);
    }
    return Ok(Opened([], 0, []));
  }

  /** The digest covers exactly the bytes of the finished file, resumed or not. */
  lemma DigestCoversFile(o: Opened, chunks: seq<Bytes>, steps: seq<Step>, s: Stream)
    requires o.start == |o.file| && o.hashed == o.file
    requires Runs(Open(o.file, o.start, chunks), steps, s) && Complete(s)
    ensures o.hashed + s.fed == s.file
  {
    CompleteStream(o.file, o.start, chunks, steps, s);
    assert o.file[..o.start] == o.file;
  }

  lemma AppendKeepsPrefix(file: Bytes, part: Bytes, whole: Bytes)
    requires part <= whole
    ensures file + part <= file + whole
  {
    Regroup(file, part, whole[|part|..]);
    assert whole == part + whole[|part|..];
  }

  /** What an honest server sends for `content` when asked to go on after `have` bytes. */
  predicate Honest(content: Bytes, have: nat, status: nat, body: Bytes) {
    body == if have > 0 && status == 206 then (if have <= |content| then content[have..] else []) else content
  }

  /**
   * Interruptions never spoil a download: if the file holds a prefix of the content before an attempt, it does at
   * every moment of it; and a completed attempt leaves the content, with the digest taken over all of it.
   */
  lemma AttemptKeepsPrefix(content: Bytes, existing: Existing, resume: bool, status: nat, o: Opened,
                           chunks: seq<Bytes>, steps: seq<Step>, s: Stream)
    requires existing.File? ==> existing.content <= content
    requires o.file == KeptBytes(existing, resume, status)
    requires o.start == |o.file| && o.hashed == o.file
    requires Honest(content, ExistingLength(existing, resume), status, Flatten(chunks))
    requires Runs(Open(o.file, o.start, chunks), steps, s)
    ensures s.file <= content
    ensures Complete(s) ==> s.file == content && o.hashed + s.fed == content
  {
    hide Runs, Contiguous, Flatten;
    FileHoldsBodyPrefix(o.file, o.start, chunks, steps, s);
    assert s.file == o.file + s.written;
    assert o.file + Flatten(chunks) == content;
    AppendKeepsPrefix(o.file, s.written, Flatten(chunks));
    if Complete(s) {
      CompleteStream(o.file, o.start, chunks, steps, s);
      assert o.file + s.fed == content;
      DigestCoversFile(o, chunks, steps, s);
    }
  }
}
