/** The inflater pipeline of compressed inputs: `InflatedReader` and its worker thread as a machine over
    their shared steps (`import/input.rs`). */
module Inflater {
  import opened Bytes
  import opened Powers
  import opened Results

  // ---------------------------------------------------------------- the input

  /** What one `read` of the decompressor gives. `Got([])` is the end, as is a list that has run out. */
  datatype Reply = Got(bytes: seq<byte>) | Interrupted | Fails(error: nat) | Panics

  datatype End = Eof | Failed(error: nat) | Panicked

  function Content(input: seq<Reply>): seq<byte> {
    if input == [] then []
    else match input[0]
      case Got(b) => if b == [] then [] else b + Content(input[1..])
      case Interrupted => Content(input[1..])
      case Fails(_) => []
      case Panics => []
  }

  function EndOf(input: seq<Reply>): End {
    if input == [] then Eof
    else match input[0]
      case Got(b) => if b == [] then Eof else EndOf(input[1..])
      case Interrupted => EndOf(input[1..])
      case Fails(e) => Failed(e)
      case Panics => Panicked
  }

  // ---------------------------------------------------------------- states

  const INFLATED_BUFFERS: nat := 3

  type Buffer = seq<byte>

  datatype Chunk = Chunk(bytes: Buffer, length: nat)

  datatype Message = Data(chunk: Chunk) | Fault(error: nat)

  /** What the worker does once a chunk is sent. */
  datatype After = Continue | Exhausted | Report(error: nat)

  datatype Worker =
    | Waiting                                          // for a buffer from the pool
    | Filling(buffer: Buffer, length: nat)
    | Sending(buffer: Buffer, length: nat, after: After)
    | Reporting(error: nat)
    | Leaving(panicked: bool)                          // dropping its channel ends, in any order
    | Ended(panicked: bool)

  /** Why the reader takes its channels down. */
  datatype Reason = Finished | Error(error: nat) | Dropped

  datatype Reader =
    | Idle                                             // between two calls
    | Receiving(capacity: nat)
    | ClosingChunks(reason: Reason)
    | ClosingPool(reason: Reason)
    | Joining(reason: Reason)
    | Gone                                             // dropped

  /** The chunk channel holds one message. `received` is everything `read` has copied out, `outcome` the
      first result of `read` that gave no bytes. */
  datatype State = State(
    input: seq<Reply>, worker: Worker,
    pool: seq<Buffer>, poolSender: bool, poolReceiver: bool,
    queue: Option<Message>, queueSender: bool, queueReceiver: bool,
    reader: Reader, current: Option<Chunk>, position: nat, done: bool,
    received: seq<byte>, outcome: Option<End>)

  predicate Initial(size: nat, s: State) {
    && size > 0
    && |s.pool| == INFLATED_BUFFERS && (forall i | 0 <= i < |s.pool| :: |s.pool[i]| == size)
    && s == State(s.input, Waiting, s.pool, true, true, None, true, true, Idle, None, 0, false, [], None)
  }

  // ---------------------------------------------------------------- steps

  datatype Action =
    | TakeBuffer | Fill | Send | SendError | CloseBuffers | CloseSender | Exit     // the worker
    | Read(capacity: nat) | Receive | CloseChunks | ClosePool | Join | Drop        // the reader

  predicate Enabled(s: State, a: Action) {
    match a
    case TakeBuffer => s.worker.Waiting? && (s.pool != [] || !s.poolSender)
    case Fill => s.worker.Filling?
    case Send => s.worker.Sending? && (s.queue == None || !s.queueReceiver)
    case SendError => s.worker.Reporting? && (s.queue == None || !s.queueReceiver)
    case CloseBuffers => s.worker.Leaving? && s.poolReceiver
    case CloseSender => s.worker.Leaving? && s.queueSender
    case Exit => s.worker.Leaving? && !s.poolReceiver && !s.queueSender
    case Read(capacity) => s.reader.Idle? && !s.done && capacity > 0 && CanRecycle(s)
    case Receive => s.reader.Receiving? && (s.queue != None || !s.queueSender)
    case CloseChunks => s.reader.ClosingChunks?
    case ClosePool => s.reader.ClosingPool?
    case Join => s.reader.Joining? && s.worker.Ended?
    case Drop => s.reader.Idle?
  }

  predicate Spent(s: State) {
    s.current.Some? && s.position == s.current.value.length
  }

  /** Giving a buffer back blocks while the pool channel is full. */
  predicate CanRecycle(s: State) {
    Spent(s) && s.poolReceiver ==> |s.pool| < INFLATED_BUFFERS
  }

  function Next(input: seq<Reply>): Reply {
    if input == [] then Got([]) else input[0]
  }

  /** `bytes` written at `at`. */
  function Put(buffer: Buffer, at: nat, bytes: seq<byte>): (r: Buffer)
    requires at + |bytes| <= |buffer|
    ensures |r| == |buffer| && r[..at + |bytes|] == buffer[..at] + bytes
  {
    buffer[..at] + bytes + buffer[at + |bytes|..]
  }

  /** One `read` of the decompressor into the free part of the buffer. */
  function Fed(buffer: Buffer, length: nat, input: seq<Reply>): (Worker, seq<Reply>)
    requires length < |buffer|
  {
    match Next(input)
    case Got(b) =>
      if b == [] then (if length != 0 then Sending(buffer, length, Exhausted) else Leaving(false), input)
      else
        var k := if |b| <= |buffer| - length then |b| else |buffer| - length;
        var buffer' := Put(buffer, length, b[..k]);
        (if length + k == |buffer| then Sending(buffer', length + k, Continue) else Filling(buffer', length + k),
         if k == |b| then input[1..] else [Got(b[k..])] + input[1..])
    case Interrupted => (Filling(buffer, length), input[1..])
    case Fails(e) => (if length != 0 then Sending(buffer, length, Report(e)) else Reporting(e), input)
    case Panics => (Leaving(true), input)
  }

  function Filled(s: State): State
    requires s.worker.Filling? && s.worker.length < |s.worker.buffer|
  {
    var (worker, input) := Fed(s.worker.buffer, s.worker.length, s.input);
    s.(worker := worker, input := input)
  }

  function AfterSend(after: After): Worker {
    match after
    case Continue => Waiting
    case Exhausted => Leaving(false)
    case Report(e) => Reporting(e)
  }

  /** Copies out of the current chunk. */
  function Copied(s: State, capacity: nat): State
    requires s.current.Some? && s.position <= s.current.value.length <= |s.current.value.bytes|
  {
    var chunk := s.current.value;
    var count := if chunk.length - s.position <= capacity then chunk.length - s.position else capacity;
    s.(reader := Idle, position := s.position + count, received := s.received
       + chunk.bytes[s.position..s.position + count])
  }

  function StartRead(s: State, capacity: nat): State
    requires s.current.Some? ==> s.position <= s.current.value.length <= |s.current.value.bytes|
  {
    if Spent(s) then
      s.(reader := Receiving(capacity), current := None,
         pool := if s.poolReceiver then s.pool + [s.current.value.bytes] else s.pool)
    else if s.current == None then s.(reader := Receiving(capacity))
    else Copied(s, capacity)
  }

  function Received(s: State): State
    requires s.reader.Receiving?
    requires s.queue.Some? && s.queue.value.Data? ==> s.queue.value.chunk.length <= |s.queue.value.chunk.bytes|
  {
    match s.queue
    case Some(Data(chunk)) => Copied(s.(queue := None, current := Some(chunk), position := 0), s.reader.capacity)
    case Some(Fault(e)) => s.(queue := None, reader := ClosingChunks(Error(e)))
    case None => s.(reader := ClosingChunks(Finished))
  }

  /** A panic of the worker takes the place of whatever the reader was about to give. */
  function Outcome(reason: Reason, panicked: bool): End {
    if panicked then Panicked else if reason.Error? then Failed(reason.error) else Eof
  }

  function Effect(s: State, a: Action): State
    requires Enabled(s, a) && Sound(s)
  {
    match a
    case TakeBuffer =>
      if s.pool == [] then s.(worker := Leaving(false)) else s.(worker := Filling(s.pool[0], 0), pool := s.pool[1..])
    case Fill => Filled(s)
    case Send =>
      if !s.queueReceiver then s.(worker := Leaving(false))
      else s.(worker := AfterSend(s.worker.after), queue := Some(Data(Chunk(s.worker.buffer, s.worker.length))))
    case SendError => s.(worker := Leaving(false), queue := if s.queueReceiver then Some(Fault(s.worker.error))
                         else s.queue)
    case CloseBuffers => s.(poolReceiver := false, pool := [])
    case CloseSender => s.(queueSender := false)
    case Exit => s.(worker := Ended(s.worker.panicked))
    case Read(capacity) => StartRead(s, capacity)
    case Receive => Received(s)
    case CloseChunks => s.(queueReceiver := false, queue := None, reader := ClosingPool(s.reader.reason))
    case ClosePool => s.(poolSender := false, current := None, reader := Joining(s.reader.reason))
    case Join =>
      if s.reader.reason.Dropped? then s.(done := true, reader := Gone)
      else s.(done := true, reader := Idle, outcome := Some(Outcome(s.reader.reason, s.worker.panicked)))
    case Drop => if s.done then s.(reader := Gone) else s.(reader := ClosingChunks(Dropped))
  }

  /** A run: each state steps to the next. */
  ghost predicate Run(size: nat, states: seq<State>, actions: seq<Action>) {
    && |states| == |actions| + 1
    && Initial(size, states[0])
    && forall i | 0 <= i < |actions| :: Steps(states[i], actions[i], states[i + 1])
  }

  ghost predicate Steps(s: State, a: Action, s': State) {
    Enabled(s, a) && Sound(s) && s' == Effect(s, a)
  }

  // ---------------------------------------------------------------- what is kept: shape and buffers

  predicate ChunkOk(chunk: Chunk) {
    0 < chunk.length <= |chunk.bytes|
  }

  /** What the steps themselves rely on: indices stay inside their buffers. */
  predicate Sound(s: State) {
    && (s.worker.Filling? ==> s.worker.length < |s.worker.buffer|)
    && (s.worker.Sending? ==> 0 < s.worker.length <= |s.worker.buffer|)
    && (s.queue.Some? && s.queue.value.Data? ==> ChunkOk(s.queue.value.chunk))
    && (s.current.Some? ==> ChunkOk(s.current.value) && s.position <= s.current.value.length)
  }

  predicate Over(w: Worker) {
    w.Leaving? || w.Ended?
  }

  predicate Closing(r: Reader) {
    r.ClosingChunks? || r.ClosingPool? || r.Joining?
  }

  /** The ends of the channels, and who may be where. */
  predicate Ends(s: State) {
    && (!s.poolReceiver || !s.queueSender ==> Over(s.worker))
    && (s.worker.Ended? ==> !s.poolReceiver && !s.queueSender)
    && (!s.poolReceiver ==> s.pool == [])
    && (!s.queueReceiver ==> s.queue == None)
    && s.queueReceiver == (s.reader.Receiving? || s.reader.ClosingChunks? || (s.reader.Idle? && !s.done))
    && s.poolSender == (s.queueReceiver || s.reader.ClosingPool?)
    && (s.reader.Receiving? || !s.poolSender ==> s.current == None)
    && (s.done ==> (s.reader.Idle? || s.reader.Gone?) && s.worker.Ended?)
    && (s.reader.Gone? ==> s.done)
    && (s.reader.Receiving? ==> s.reader.capacity > 0)
    && (s.outcome.Some? ==> s.done)
    && (s.queue.Some? && s.queue.value.Fault? ==> Over(s.worker) && !s.worker.panicked)
    && (Closing(s.reader) && s.reader.reason.Error? ==> Over(s.worker) && !s.worker.panicked)
    && (Closing(s.reader) && s.reader.reason.Finished? ==> Over(s.worker))
    && (s.worker.Sending? && s.worker.after.Continue? ==> s.worker.length == |s.worker.buffer|)
  }

  /** How many buffers there are: pooled, with the worker, in the chunk channel, with the reader. */
  function Buffers(s: State): nat {
    |s.pool| + (if s.worker.Filling? || s.worker.Sending? then 1 else 0)
    + (if s.queue.Some? && s.queue.value.Data? then 1 else 0) + (if s.current.Some? then 1 else 0)
  }

  /** None is lost while the worker still fills and the reader still takes. */
  predicate AllThere(s: State) {
    && Buffers(s) <= INFLATED_BUFFERS
    && (s.queueReceiver && !Over(s.worker) && !s.worker.Reporting? ==> Buffers(s) == INFLATED_BUFFERS)
  }

  predicate Sized(size: nat, s: State) {
    && (forall i | 0 <= i < |s.pool| :: |s.pool[i]| == size)
    && (s.worker.Filling? || s.worker.Sending? ==> |s.worker.buffer| == size)
    && (s.queue.Some? && s.queue.value.Data? ==> |s.queue.value.chunk.bytes| == size)
    && (s.current.Some? ==> |s.current.value.bytes| == size)
  }

  predicate Works(a: Action) {
    a.TakeBuffer? || a.Fill? || a.Send? || a.SendError? || a.CloseBuffers? || a.CloseSender? || a.Exit?
  }

  lemma FedSound(buffer: Buffer, length: nat, input: seq<Reply>)
    requires length < |buffer|
    ensures var w := Fed(buffer, length, input).0;
            && !w.Waiting? && !w.Ended?
            && (w.Filling? ==> w.length < |w.buffer| == |buffer|)
            && (w.Sending? ==> 0 < w.length <= |w.buffer| == |buffer| && (w.after.Continue? ==> w.length == |w.buffer|))
  {
    hide Put;
  }

  lemma WorkerSound(size: nat, s: State, a: Action)
    requires size > 0 && Works(a) && Enabled(s, a) && Sound(s) && Ends(s) && Sized(size, s)
    ensures Sound(Effect(s, a)) && Ends(Effect(s, a)) && Sized(size, Effect(s, a))
  {
    hide Fed;
    if a.Fill? {
      FedSound(s.worker.buffer, s.worker.length, s.input);
    }
  }

  lemma ReaderEnds(s: State, a: Action)
    requires !Works(a) && Enabled(s, a) && Sound(s) && Ends(s)
    ensures Ends(Effect(s, a))
  {
  }

  lemma ReaderSound(size: nat, s: State, a: Action)
    requires !Works(a) && Enabled(s, a) && Sound(s) && Ends(s) && Sized(size, s)
    ensures Sound(Effect(s, a)) && Sized(size, Effect(s, a))
  {
  }

  lemma StepBuffers(s: State, a: Action)
    requires Enabled(s, a) && Sound(s) && Ends(s) && AllThere(s)
    ensures AllThere(Effect(s, a))
  {
  }

  // ---------------------------------------------------------------- what is delivered

  /** All a worker gives that has `filled` in its buffer: after a panic, only the full buffers before it. */
  function Promise(size: nat, filled: seq<byte>, input: seq<Reply>): (seq<byte>, End)
    requires size > 0
  {
    var all := filled + Content(input);
    (if EndOf(input).Panicked? then all[..|all| - |all| % size] else all, EndOf(input))
  }

  function FromWorker(size: nat, w: Worker, input: seq<Reply>): (seq<byte>, End)
    requires size > 0
    requires w.Filling? || w.Sending? ==> w.length <= |w.buffer|
  {
    match w
    case Waiting => Promise(size, [], input)
    case Filling(buffer, length) => Promise(size, buffer[..length], input)
    case Sending(buffer, length, after) =>
      (match after
       case Continue => (buffer[..length] + Promise(size, [], input).0, EndOf(input))
       case Exhausted => (buffer[..length], Eof)
       case Report(e) => (buffer[..length], Failed(e)))
    case Reporting(e) => ([], Failed(e))
    case Leaving(panicked) => ([], if panicked then Panicked else Eof)
    case Ended(panicked) => ([], if panicked then Panicked else Eof)
  }

  /** What is in the channel, and what the worker sends after it. */
  function Queued(size: nat, w: Worker, input: seq<Reply>, queue: Option<Message>): (seq<byte>, End)
    requires size > 0
    requires w.Filling? || w.Sending? ==> w.length <= |w.buffer|
    requires queue.Some? && queue.value.Data? ==> ChunkOk(queue.value.chunk)
  {
    var worker := FromWorker(size, w, input);
    match queue
    case None => worker
    case Some(Data(chunk)) => (chunk.bytes[..chunk.length] + worker.0, worker.1)
    case Some(Fault(e)) => ([], Failed(e))
  }

  /** What the reader has yet to see: the rest of its chunk, the queue, the worker. */
  function Coming(size: nat, s: State): (seq<byte>, End)
    requires size > 0 && Sound(s)
  {
    var queued := Queued(size, s.worker, s.input, s.queue);
    (if s.current == None then queued.0 else s.current.value.bytes[s.position..s.current.value.length] + queued.0,
                                             queued.1)
  }

  /** `all` and `end` are what the whole input promises. */
  predicate Delivers(size: nat, all: seq<byte>, end: End, s: State)
    requires size > 0 && Sound(s)
  {
    && s.received <= all
    && ((s.reader.Idle? && !s.done) || s.reader.Receiving? ==>
      s.received + Coming(size, s).0 == all && Coming(size, s).1 == end)
    && (Closing(s.reader) && s.reader.reason.Error? ==> s.received == all && end == Failed(s.reader.reason.error))
    && (Closing(s.reader) && s.reader.reason.Finished? ==>
      s.received == all && Over(s.worker) && end == if s.worker.panicked then Panicked else Eof)
    && (s.reader.Idle? && s.done ==> s.outcome == Some(end))
    && (s.outcome.Some? ==> s.received == all && s.outcome == Some(end))
  }

  lemma FullBuffer(size: nat, buffer: Buffer, input: seq<Reply>)
    requires |buffer| == size > 0
    ensures Promise(size, buffer, input) == (buffer + Promise(size, [], input).0, EndOf(input))
  {
    hide Content, EndOf;
    var rest := Content(input);
    assert [] + rest == rest;
    SameRemainder(size, |rest|);
    var n := |rest| - |rest| % size;
    assert (buffer + rest)[..size + n] == buffer + rest[..n];
  }

  lemma SameRemainder(size: nat, n: nat)
    requires size > 0
    ensures (size + n) % size == n % size <= n
  {
    hide *;
    var q, r := n / size, n % size;
    assert size + n == (q + 1) * size + r;
    Remainder(size + n, size, q + 1, r);
    NotLess(q, size, r);
  }

  lemma NotLess(q: nat, size: nat, r: nat)
    ensures r <= q * size + r
  {
  }

  /** The end of the input, an error or a panic: nothing more comes. */
  lemma EndDelivers(size: nat, buffer: Buffer, length: nat, input: seq<Reply>)
    requires length < |buffer| == size && Content(input) == []
    requires Next(input) == Got([]) || Next(input).Fails? || Next(input).Panics?
    requires EndOf(input) == (match Next(input)
                              case Got(_) => Eof
                              case Fails(e) => Failed(e)
                              case Panics => Panicked
                              case Interrupted => Eof)
    ensures var (w, rest) := Fed(buffer, length, input);
            FromWorker(size, w, rest) == Promise(size, buffer[..length], input)
  {
    hide Content, EndOf, Put;
    var filled := buffer[..length];
    assert filled + [] == filled;
    SmallRemainder(length, size);
  }

  lemma SmallRemainder(n: nat, size: nat)
    requires n < size
    ensures n % size == n
  {
  }

  lemma InterruptedDelivers(size: nat, buffer: Buffer, length: nat, input: seq<Reply>)
    requires length < |buffer| == size && Next(input).Interrupted?
    ensures var (w, rest) := Fed(buffer, length, input);
            FromWorker(size, w, rest) == Promise(size, buffer[..length], input)
  {
    hide Put;
    assert Content(input[1..]) == Content(input) && EndOf(input[1..]) == EndOf(input);
  }

  /** Reading into the buffer does not change what the worker gives. */
  lemma FedDelivers(size: nat, buffer: Buffer, length: nat, input: seq<Reply>)
    requires length < |buffer| == size
    requires var w := Fed(buffer, length, input).0; w.Filling? || w.Sending? ==> w.length <= |w.buffer|
    ensures var (w, rest) := Fed(buffer, length, input);
            FromWorker(size, w, rest) == Promise(size, buffer[..length], input)
  {
    hide Fed, FromWorker, Promise;
    if Next(input).Interrupted? {
      InterruptedDelivers(size, buffer, length, input);
    } else if Next(input).Got? && Next(input).bytes != [] {
      GotDelivers(size, buffer, length, input);
    } else {
      EndDelivers(size, buffer, length, input);
    }
  }

  lemma PutBack(b: seq<byte>, k: nat, input: seq<Reply>)
    requires input != [] && input[0] == Got(b) && 0 < k <= |b|
    ensures var rest := if k == |b| then input[1..] else [Got(b[k..])] + input[1..];
            b[..k] + Content(rest) == Content(input) && EndOf(rest) == EndOf(input)
  {
    assert b[..k] + b[k..] == b;
    assert (b[..k] + b[k..]) + Content(input[1..]) == b[..k] + (b[k..] + Content(input[1..]));
    if k < |b| {
      assert ([Got(b[k..])] + input[1..])[1..] == input[1..];
    }
  }

  lemma GotDelivers(size: nat, buffer: Buffer, length: nat, input: seq<Reply>)
    requires length < |buffer| == size
    requires Next(input).Got? && Next(input).bytes != []
    ensures var (w, rest) := Fed(buffer, length, input);
            (w.Filling? || w.Sending? ==> w.length <= |w.buffer|) &&
            FromWorker(size, w, rest) == Promise(size, buffer[..length], input)
  {
    hide Put, Content, EndOf;
    var b := input[0].bytes;
    var k := if |b| <= |buffer| - length then |b| else |buffer| - length;
    var buffer', rest := Put(buffer, length, b[..k]), Fed(buffer, length, input).1;
    PutBack(b, k, input);
    assert (buffer[..length] + b[..k]) + Content(rest) == buffer[..length] + (b[..k] + Content(rest));
    if length + k == |buffer| {
      assert buffer'[..length + k] == buffer';
      FullBuffer(size, buffer', rest);
    }
  }

  lemma FillDelivers(size: nat, all: seq<byte>, end: End, s: State)
    requires size > 0 && Sound(s) && s.worker.Filling? && |s.worker.buffer| == size
    requires Delivers(size, all, end, s) && Sound(Filled(s))
    ensures Delivers(size, all, end, Filled(s))
  {
    hide Promise, Fed;
    FedDelivers(size, s.worker.buffer, s.worker.length, s.input);
  }

  lemma WorkerDelivers(size: nat, all: seq<byte>, end: End, s: State, a: Action)
    requires size > 0 && Works(a) && Enabled(s, a) && Sound(s) && Ends(s) && Sized(size, s)
    requires Delivers(size, all, end, s) && Sound(Effect(s, a))
    ensures Delivers(size, all, end, Effect(s, a))
  {
    hide Content, EndOf, Fed;
    if a.Fill? {
      hide Delivers, Filled, Sound;
      FillDelivers(size, all, end, s);
    } else if a.TakeBuffer? && s.pool != [] {
      assert s.pool[0][..0] == [];
    }
  }

  lemma MovesOver(received: seq<byte>, bytes: seq<byte>, p: nat, q: nat, length: nat, later: seq<byte>)
    requires p <= q <= length <= |bytes|
    ensures (received + bytes[p..q]) + (bytes[q..length] + later) == received + (bytes[p..length] + later)
  {
    assert bytes[p..q] + bytes[q..length] == bytes[p..length];
  }

  lemma CopiedIs(s: State, capacity: nat)
    requires Sound(s) && s.current.Some?
    ensures Sound(Copied(s, capacity)) && s.position <= s.current.value.length <= |s.current.value.bytes|
    ensures var s' := Copied(s, capacity);
            && s.position <= s'.position <= s.current.value.length
            && s'.received == s.received + s.current.value.bytes[s.position..s'.position]
            && s'.current == s.current && s'.worker == s.worker && s'.input == s.input && s'.queue == s.queue
  {
  }

  lemma ComingIs(size: nat, s: State)
    requires size > 0 && Sound(s) && s.current.Some?
    ensures s.position <= s.current.value.length <= |s.current.value.bytes|
    ensures (s.worker.Filling? || s.worker.Sending? ==> s.worker.length <= |s.worker.buffer|)
            && (s.queue.Some? && s.queue.value.Data? ==> ChunkOk(s.queue.value.chunk))
    ensures var queued := Queued(size, s.worker, s.input, s.queue);
            Coming(size, s) == (s.current.value.bytes[s.position..s.current.value.length] + queued.0, queued.1)
  {
  }

  lemma CopyDelivers(size: nat, s: State, capacity: nat)
    requires size > 0 && Sound(s) && s.current.Some?
    ensures Sound(Copied(s, capacity))
    ensures var s' := Copied(s, capacity);
            s'.received + Coming(size, s').0 == s.received + Coming(size, s).0
                && Coming(size, s').1 == Coming(size, s).1
  {
    hide *;
    ComingIs(size, s);
    CopiedIs(s, capacity);
    var s' := Copied(s, capacity);
    ComingIs(size, s');
    var chunk := s.current.value;
    MovesOver(s.received, chunk.bytes, s.position, s'.position, chunk.length,
              Queued(size, s.worker, s.input, s.queue).0);
  }

  lemma StartDelivers(size: nat, s: State, capacity: nat)
    requires size > 0 && Sound(s)
    ensures Sound(StartRead(s, capacity))
    ensures var s' := StartRead(s, capacity);
            s'.received + Coming(size, s').0 == s.received + Coming(size, s).0
                && Coming(size, s').1 == Coming(size, s).1
  {
    hide FromWorker;
    if s.current.Some? && !Spent(s) {
      CopyDelivers(size, s, capacity);
    } else if s.current.Some? {
      assert s.current.value.bytes[s.position..s.current.value.length] == [];
    }
  }

  lemma ReceiveDelivers(size: nat, s: State)
    requires size > 0 && Sound(s) && s.reader.Receiving? && s.current == None
    requires s.queue.Some? && s.queue.value.Data?
    ensures Sound(Received(s))
    ensures var s' := Received(s);
            s'.received + Coming(size, s').0 == s.received + Coming(size, s).0
                && Coming(size, s').1 == Coming(size, s).1
  {
    hide FromWorker;
    var taken := s.(queue := None, current := Some(s.queue.value.chunk), position := 0);
    assert s.queue.value.chunk.bytes[0..s.queue.value.chunk.length]
           == s.queue.value.chunk.bytes[..s.queue.value.chunk.length];
    CopyDelivers(size, taken, s.reader.capacity);
  }

  lemma Prefix(s: seq<byte>, t: seq<byte>)
    ensures s <= s + t
  {
  }

  /** The last thing received is the promised end. */
  lemma EndReceived(size: nat, all: seq<byte>, end: End, s: State)
    requires size > 0 && Enabled(s, Receive) && Sound(s) && Ends(s) && Delivers(size, all, end, s)
    requires !(s.queue.Some? && s.queue.value.Data?) && Sound(Received(s))
    ensures Delivers(size, all, end, Received(s))
  {
    hide Promise;
  }

  lemma ClosingDelivers(size: nat, all: seq<byte>, end: End, s: State, a: Action)
    requires size > 0 && !Works(a) && !a.Read? && !a.Receive? && Enabled(s, a) && Sound(s) && Ends(s)
    requires Delivers(size, all, end, s) && Sound(Effect(s, a))
    ensures Delivers(size, all, end, Effect(s, a))
  {
    hide Coming;
  }

  lemma ReaderDelivers(size: nat, all: seq<byte>, end: End, s: State, a: Action)
    requires size > 0 && !Works(a) && Enabled(s, a) && Sound(s) && Ends(s)
    requires Delivers(size, all, end, s) && Sound(Effect(s, a))
    ensures Delivers(size, all, end, Effect(s, a))
  {
    hide Coming, Sound;
    if a.Read? {
      StartDelivers(size, s, a.capacity);
      Prefix(Effect(s, a).received, Coming(size, Effect(s, a)).0);
    } else if a.Receive? && s.queue.Some? && s.queue.value.Data? {
      ReceiveDelivers(size, s);
      Prefix(Effect(s, a).received, Coming(size, Effect(s, a)).0);
    } else if a.Receive? {
      hide Delivers, Received;
      EndReceived(size, all, end, s);
    } else {
      hide Delivers, Effect;
      ClosingDelivers(size, all, end, s, a);
    }
  }

  // ---------------------------------------------------------------- every run comes to its end

  function WorkerRank(w: Worker): nat {
    match w
    case Waiting => 6
    case Filling(_, length) => 5 + 8 * length
    case Sending(_, length, _) => 4 + 8 * length
    case Reporting(_) => 3
    case Leaving(_) => 2
    case Ended(_) => 1
  }

  function ReaderRank(r: Reader, done: bool): nat {
    match r
    case Idle => if done then 1 else 6
    case Receiving(_) => 5
    case ClosingChunks(_) => 4
    case ClosingPool(_) => 3
    case Joining(_) => 2
    case Gone => 0
  }

  /** Every byte on its way to the consumer weighs less with each hand it passes through. */
  function Weight(input: seq<Reply>): nat {
    if input == [] then 0 else 1 + (if input[0].Got? then 12 * |input[0].bytes| else 0) + Weight(input[1..])
  }

  function Left(s: State): nat
    requires Sound(s)
  {
    Weight(s.input) + WorkerRank(s.worker) + ReaderRank(s.reader, s.done)
    + (if s.poolReceiver then 1 else 0) + (if s.queueSender then 1 else 0)
    + (if s.queue.Some? && s.queue.value.Data? then 4 * s.queue.value.chunk.length else 0)
    + (if s.current.Some? then 2 * (s.current.value.length - s.position) else 0)
  }

  lemma FedIsLess(buffer: Buffer, length: nat, input: seq<Reply>)
    requires length < |buffer|
    ensures var (w, rest) := Fed(buffer, length, input);
            Weight(rest) + WorkerRank(w) < Weight(input) + WorkerRank(Filling(buffer, length))
  {
    hide Put;
  }

  lemma FillIsLess(s: State)
    requires s.worker.Filling? && Sound(s) && Sound(Filled(s))
    ensures Left(Filled(s)) < Left(s)
  {
    hide Fed, Weight, WorkerRank, ReaderRank;
    FedIsLess(s.worker.buffer, s.worker.length, s.input);
  }

  lemma LeavingIsLess(s: State, a: Action)
    requires a.CloseBuffers? || a.CloseSender? || a.Exit?
    requires Enabled(s, a) && Sound(s) && Sound(Effect(s, a))
    ensures Left(Effect(s, a)) < Left(s)
  {
    hide Weight, ReaderRank, Filled, StartRead, Received, Copied;
  }

  lemma SendIsLess(s: State)
    requires Enabled(s, Send) && Sound(s) && Sound(Effect(s, Send))
    ensures Left(Effect(s, Send)) < Left(s)
  {
    hide Weight, ReaderRank, Filled, StartRead, Received, Copied;
  }

  lemma RankFalls(s: State, a: Action)
    requires a.TakeBuffer? || a.SendError?
    requires Enabled(s, a) && Sound(s)
    ensures WorkerRank(Effect(s, a).worker) < WorkerRank(s.worker)
  {
    hide Sound, Filled, StartRead, Received;
  }

  lemma TakeIsLess(s: State, a: Action)
    requires a.TakeBuffer? || a.SendError?
    requires Enabled(s, a) && Sound(s) && Sound(Effect(s, a))
    ensures Left(Effect(s, a)) < Left(s)
  {
    hide Weight, ReaderRank, WorkerRank, Sound, Effect, Enabled;
    RankFalls(s, a);
    TakeKeeps(s, a);
  }

  lemma TakeKeeps(s: State, a: Action)
    requires a.TakeBuffer? || a.SendError?
    requires Enabled(s, a) && Sound(s)
    ensures var s' := Effect(s, a);
            && s'.input == s.input && s'.reader == s.reader && s'.done == s.done && s'.poolReceiver == s.poolReceiver
            && s'.queueSender == s.queueSender && s'.current == s.current && s'.position == s.position
            && (s'.queue == s.queue || (s.queue == None && s'.queue.Some? && s'.queue.value.Fault?))
  {
    hide Sound, Filled, StartRead, Received;
  }

  /** Each step, of either side, uses up some of what is left to do. */
  lemma WorkerStepIsLess(s: State, a: Action)
    requires Works(a) && Enabled(s, a) && Sound(s) && Sound(Effect(s, a))
    ensures Left(Effect(s, a)) < Left(s)
  {
    hide Left, Sound, Filled;
    if a.Fill? {
      FillIsLess(s);
    } else if a.CloseBuffers? || a.CloseSender? || a.Exit? {
      LeavingIsLess(s, a);
    } else if a.Send? {
      SendIsLess(s);
    } else {
      TakeIsLess(s, a);
    }
  }

  lemma ReaderStepIsLess(s: State, a: Action)
    requires !Works(a) && Enabled(s, a) && Sound(s) && Ends(s) && Sound(Effect(s, a))
    ensures Left(Effect(s, a)) < Left(s)
  {
    hide Weight, WorkerRank;
  }

  // ---------------------------------------------------------------- over whole runs

  ghost predicate Kept(size: nat, input: seq<Reply>, s: State) {
    && size > 0 && Sound(s) && Ends(s) && Sized(size, s) && AllThere(s)
    && Delivers(size, Promise(size, [], input).0, EndOf(input), s)
  }

  lemma InitialKept(size: nat, s: State)
    requires Initial(size, s)
    ensures Kept(size, s.input, s)
  {
    hide Content, EndOf;
    assert [] + Promise(size, [], s.input).0 == Promise(size, [], s.input).0;
  }

  lemma StepKept(size: nat, input: seq<Reply>, s: State, a: Action)
    requires Kept(size, input, s) && Enabled(s, a)
    ensures Kept(size, input, Effect(s, a)) && Left(Effect(s, a)) < Left(s)
  {
    hide Enabled, Effect, Ends, Sized, AllThere, Delivers, Left, Sound, Promise;
    if Works(a) {
      WorkerSound(size, s, a);
      WorkerDelivers(size, Promise(size, [], input).0, EndOf(input), s, a);
      WorkerStepIsLess(s, a);
    } else {
      ReaderEnds(s, a);
      ReaderSound(size, s, a);
      ReaderDelivers(size, Promise(size, [], input).0, EndOf(input), s, a);
      ReaderStepIsLess(s, a);
    }
    StepBuffers(s, a);
  }

  lemma {:induction false} Reached(size: nat, states: seq<State>, actions: seq<Action>, i: nat)
    requires Run(size, states, actions) && i < |states|
    ensures Kept(size, states[0].input, states[i]) && Sound(states[0]) && Left(states[i]) + i <= Left(states[0])
  {
    hide Kept, Enabled, Effect, Left, Initial;
    InitialKept(size, states[0]);
    assert Sound(states[0]) by { KeptIsSound(size, states[0].input, states[0]); }
    if i > 0 {
      Reached(size, states, actions, i - 1);
      assert Steps(states[i - 1], actions[i - 1], states[i]);
      StepKept(size, states[0].input, states[i - 1], actions[i - 1]);
    }
  }

  lemma KeptIsSound(size: nat, input: seq<Reply>, s: State)
    requires Kept(size, input, s)
    ensures Sound(s)
  {
  }

  /** The consumer sees the input's bytes in order and nothing else, and the end or the error only after
      all of them. */
  lemma ReadsInOrder(size: nat, states: seq<State>, actions: seq<Action>, i: nat)
    requires Run(size, states, actions) && i < |states|
    ensures var (all, end) := Promise(size, [], states[0].input);
            states[i].received <= all && (states[i].outcome.Some? ==>
                                          states[i].received == all && states[i].outcome.value == end)
  {
    hide Run, Content, EndOf;
    Reached(size, states, actions, i);
  }

  /** Without a panic everything is delivered; with one, the part of the last buffer is lost. */
  lemma PromiseIsAll(size: nat, input: seq<Reply>)
    requires size > 0
    ensures var all := Promise(size, [], input).0;
            && (!EndOf(input).Panicked? ==> all == Content(input))
            && (EndOf(input).Panicked? ==> all <= Content(input) && |Content(input)| - |all| == |Content(input)| % size)
  {
    hide Content, EndOf;
    assert [] + Content(input) == Content(input);
    SameRemainder(size, |Content(input)|);
  }

  /** Three buffers are enough: there are never more, giving one back never blocks, and the worker finds
      one whenever it wants one, until the reader closes down. */
  lemma ThreeBuffersSuffice(size: nat, states: seq<State>, actions: seq<Action>, i: nat)
    requires Run(size, states, actions) && i < |states|
    ensures var s := states[i];
            && Buffers(s) <= INFLATED_BUFFERS
            && (s.worker.Waiting? && s.pool == [] ==> Closing(s.reader) && !s.queueReceiver)
            && (s.reader.Idle? ==> CanRecycle(s))
  {
    hide Run;
    Reached(size, states, actions, i);
  }

  /** A call of `read` that comes back brings at least one byte, and no more than asked for, or is the
      last. */
  lemma CallsBringBytes(size: nat, input: seq<Reply>, s: State, a: Action)
    requires Kept(size, input, s) && Enabled(s, a) && Effect(s, a).reader.Idle? && (a.Read? || !s.reader.Idle?)
    ensures var s' := Effect(s, a);
            s'.done || (|s.received| < |s'.received|
              && |s'.received| <= |s.received| + if a.Read? then a.capacity else s.reader.capacity)
  {
  }

  predicate Internal(a: Action) {
    !a.Read? && !a.Drop?
  }

  /** No deadlock: a call under way, or a drop, always has a step of one of the two threads to go on with;
      between calls both another call and a drop are possible; and the worker has ended, with its channel
      ends, once the reader is done or gone. */
  lemma NeverStuck(size: nat, states: seq<State>, actions: seq<Action>, i: nat)
    requires Run(size, states, actions) && i < |states|
    ensures var s := states[i];
            && (!s.reader.Idle? && !s.reader.Gone? ==> exists a :: Internal(a) && Enabled(s, a))
            && (s.reader.Idle? ==> Enabled(s, Drop) && (!s.done ==> forall n: nat | n > 0 :: Enabled(s, Read(n))))
            && (s.done || s.reader.Gone? ==> s.worker.Ended? && s.pool == [] && s.queue == None && s.current == None)
  {
    hide Run, Enabled, Ends, Closing, CanRecycle, Buffers, Internal;
    Reached(size, states, actions, i);
    ThreeBuffersSuffice(size, states, actions, i);
    var s := states[i];
    assert Ends(s);
    BetweenCalls(s);
    if !s.reader.Idle? && !s.reader.Gone? {
      CallGoesOn(s);
    }
  }

  lemma BetweenCalls(s: State)
    requires Ends(s) && (s.reader.Idle? ==> CanRecycle(s))
    ensures s.reader.Idle? ==> Enabled(s, Drop) && (!s.done ==> forall n: nat | n > 0 :: Enabled(s, Read(n)))
    ensures s.done || s.reader.Gone? ==> s.worker.Ended? && s.pool == [] && s.queue == None && s.current == None
  {
  }

  lemma CallGoesOn(s: State)
    requires Ends(s) && !s.reader.Idle? && !s.reader.Gone?
    requires s.worker.Waiting? && s.pool == [] ==> Closing(s.reader) && !s.queueReceiver
    ensures exists a :: Internal(a) && Enabled(s, a)
  {
    if s.reader.ClosingChunks? {
      assert Enabled(s, CloseChunks);
    } else if s.reader.ClosingPool? {
      assert Enabled(s, ClosePool);
    } else if s.reader.Joining? && s.worker.Ended? {
      assert Enabled(s, Join);
    } else if s.reader.Receiving? && s.queue != None {
      assert Enabled(s, Receive);
    } else if s.reader.Receiving? && s.worker.Ended? {
      assert Enabled(s, Receive);
    } else if s.reader.Receiving? || s.reader.Joining? {
      WorkerGoesOn(s);
    }
  }

  lemma WorkerGoesOn(s: State)
    requires !s.worker.Ended? && (s.worker.Waiting? && s.pool == [] ==> !s.poolSender)
    requires s.queue == None
    ensures exists a :: Internal(a) && Enabled(s, a)
  {
    var a := match s.worker
      case Waiting => TakeBuffer
      case Filling(_, _) => Fill
      case Sending(_, _, _) => Send
      case Reporting(_) => SendError
      case Leaving(_) => if s.poolReceiver then CloseBuffers else if s.queueSender then CloseSender else Exit
      case Ended(_) => Exit;
    assert Internal(a) && Enabled(s, a);
  }

  /** Every run is finite: with the other lemmas, every call returns, a consumer that keeps reading reaches
      the end, and a drop at any moment comes to the join, on every schedule. */
  lemma RunsAreFinite(size: nat, states: seq<State>, actions: seq<Action>)
    requires Run(size, states, actions)
    ensures |actions| <= Weight(states[0].input) + 14
  {
    hide Run, Kept;
    StartOf(size, states, actions);
    Reached(size, states, actions, |actions|);
  }

  lemma StartOf(size: nat, states: seq<State>, actions: seq<Action>)
    requires Run(size, states, actions)
    ensures |states| == |actions| + 1 && Initial(size, states[0])
  {
  }
}
