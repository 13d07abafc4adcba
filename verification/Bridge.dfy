/**
  Ownership across the FFI boundary during one run: src/ggsql_bridge.cpp and src/ggsql_exec.cpp on the C++
  side, rust/src/reader.rs, rust/src/lib.rs and rust/src/ffi.rs on the Rust side.

  Streams and error buffers are made by C++, result buffers by Rust.  Each side keeps books of what it has
  made and not yet freed, and can free only what is in them.
 */
module Bridge {
  import opened Wrappers

  type Batch = nat

  /** `Dangling` is the non-null pointer of a Rust vector that has no allocation. */
  datatype Pointer = Null | Dangling | At(id: nat)

  datatype ByteBuffer = ByteBuffer(ptr: Pointer, len: nat, cap: nat)

  const EMPTY: ByteBuffer := ByteBuffer(Null, 0, 0)

  /** A Rust vector; one without capacity owns no memory. */
  datatype Vec = Vec(content: string, cap: nat) {
    predicate Valid() { |content| <= cap }
  }

  /** The C stream struct: all zero, or with its callbacks and the InnerStream in `private_data`. */
  datatype ArrowStream = Zeroed | Stream(id: nat)

  type ErrorCode = code: int | code != 0 witness 1

  const EINTR: ErrorCode := 4

  datatype Failure = Failure(code: ErrorCode, message: string)

  /** The wrapped query result: what is still to be read, how that ends, and its own last error. */
  datatype Rows = Rows(schema: Option<Failure>, batches: seq<Batch>, failure: Option<Failure>, lastError: string)

  /** The InnerStream object; `inner` refers to the inner connection. */
  datatype InnerStream = InnerStream(interrupted: bool, inner: Option<Rows>)

  // ---------- What the environment decides during one exec_sql call ----------

  datatype QueryEnd =
    | Threw(msg: string)
    | ThrewUnknown
    | NullResult
    | Failed(msg: string)
    | Fetched(batches: seq<Batch>, failure: Option<Failure>)   // then the stream ends, or fails

  datatype Connect = Made | NoConnection(msg: string) | NoForwarder(msg: string)

  datatype Environment = Environment(
    interrupted: nat -> bool,      // the answer to the k-th interrupt check of this call
    connect: Connect,              // what becomes of making the connection, if there is none yet
    end: QueryEnd,
    wrap: Option<Option<string>>,  // wrapping the result throws, with or without a message
    schema: Option<Failure>,       // get_schema of the wrapped result fails
    describe: (ErrorCode, string) -> string,   // what the Arrow reader makes of a code and a last error
    panics: Option<nat>,           // Rust panics before it asks for this batch
    normalise: Option<string>,     // concatenating or normalising the batches fails
    mallocFails: bool)             // no memory for an error message

  datatype ExecResult = Read(batches: seq<Batch>) | ReaderError(msg: string) | Panicked

  const INTERRUPTED := "Interrupted!"
  const NULL_ARGUMENT := "ggsql bridge: null pointer in exec_sql callback"
  const UNKNOWN := "ggsql bridge: unknown exception running SQL"
  const NO_RESULT := "ggsql bridge: Query returned null"
  const UNKNOWN_STREAM := "ggsql bridge: unknown exception building arrow stream"
  const NO_MESSAGE := "ggsql: exec_sql callback failed with no error message"
  const INIT_FAILED := "arrow stream init failed: "
  const READ_FAILED := "arrow stream read failed: "

  // ---------- The same call without a boundary ----------

  /** What the C++ callback reports when it makes no stream. */
  function CallbackError(e: Environment, connected: bool): Option<string> {
    if e.interrupted(0) then Some(INTERRUPTED)
    else if !connected && !e.connect.Made? then Some(e.connect.msg)
    else if e.end.Threw? then Some(e.end.msg)
    else if e.end.ThrewUnknown? then Some(UNKNOWN)
    else if e.interrupted(1) then Some(INTERRUPTED)
    else if e.end.NullResult? then Some(NO_RESULT)
    else if e.end.Failed? then Some(e.end.msg)
    else match e.wrap
      case Some(msg) => Some(if msg.Some? then msg.value else UNKNOWN_STREAM)
      case None => None
  }

  /** Reading from batch `k` on. */
  function ReadFrom(e: Environment, batches: seq<Batch>, failure: Option<Failure>, k: nat): ExecResult
    requires k <= |batches|
    decreases |batches| - k
  {
    if e.panics == Some(k) then Panicked
    else if e.interrupted(3 + k) then ReaderError(READ_FAILED + e.describe(EINTR, INTERRUPTED))
    else if k < |batches| then ReadFrom(e, batches, failure, k + 1)
    else if failure.Some? then ReaderError(READ_FAILED + e.describe(failure.value.code, failure.value.message))
    else if e.normalise.Some? then ReaderError(e.normalise.value)
    else Read(batches)
  }

  /** The result of running one statement, as if the engine called the database directly. */
  function Direct(e: Environment, connected: bool): ExecResult {
    match CallbackError(e, connected)
    case Some(msg) => ReaderError(if msg == "" || e.mallocFails then NO_MESSAGE else msg)
    case None =>
      if e.interrupted(2) then ReaderError(INIT_FAILED + e.describe(EINTR, INTERRUPTED))
      else if e.schema.Some? then ReaderError(INIT_FAILED + e.describe(e.schema.value.code, e.schema.value.message))
      else if e.end.Fetched? then ReadFrom(e, e.end.batches, e.end.failure, 0)
      else Panicked
  }

  /** Whether the run has an inner connection after the call; one without a forwarder is kept too. */
  function ConnectedAfter(e: Environment, connected: bool): bool {
    connected || (!e.interrupted(0) && !e.connect.NoConnection?)
  }

  /** None of the checks from `lo` to `hi` sees the outer flag. */
  ghost predicate Calm(e: Environment, lo: nat, hi: nat) {
    forall j :: lo <= j <= hi ==> !e.interrupted(j)
  }

  predicate PanicsWithin(e: Environment, lo: nat, hi: nat) {
    e.panics.Some? && lo <= e.panics.value <= hi
  }

  lemma {:induction false} ReadsOnExactlyWhen(
    e: Environment, batches: seq<Batch>, failure: Option<Failure>, k: nat, read: seq<Batch>)
    requires k <= |batches|
    ensures ReadFrom(e, batches, failure, k) == Read(read) <==>
              && read == batches && failure.None? && e.normalise.None?
              && Calm(e, 3 + k, 3 + |batches|) && !PanicsWithin(e, k, |batches|)
    decreases |batches| - k
  {
    if k < |batches| {
      ReadsOnExactlyWhen(e, batches, failure, k + 1, read);
      assert Calm(e, 3 + k, 3 + |batches|) <==> !e.interrupted(3 + k) && Calm(e, 3 + (k + 1), 3 + |batches|);
    }
  }

  /** A statement yields rows exactly when nothing failed and none of its interrupt checks, first to last, saw the flag. */
  lemma ReadsExactlyWhen(e: Environment, connected: bool, read: seq<Batch>)
    ensures Direct(e, connected) == Read(read) <==>
              && e.end == Fetched(read, None) && (connected || e.connect.Made?)
              && e.wrap.None? && e.schema.None? && e.normalise.None?
              && Calm(e, 0, 3 + |read|) && !PanicsWithin(e, 0, |read|)
  {
    if e.end.Fetched? {
      var n := |e.end.batches|;
      ReadsOnExactlyWhen(e, e.end.batches, e.end.failure, 0, read);
      assert Calm(e, 0, 3 + n) <==> !e.interrupted(0) && !e.interrupted(1) && !e.interrupted(2) && Calm(e, 3 + 0, 3 + n);
    }
  }

  /** The errors of the callback, spelled out. */
  lemma CallbackFailsExactlyWhen(e: Environment, connected: bool, msg: string)
    ensures CallbackError(e, connected) == Some(msg) <==>
              if e.interrupted(0) then msg == "Interrupted!"
              else if !connected && !e.connect.Made? then msg == e.connect.msg
              else match e.end
                case Threw(thrown) => msg == thrown
                case ThrewUnknown => msg == "ggsql bridge: unknown exception running SQL"
                case NullResult => msg == if e.interrupted(1) then "Interrupted!" else "ggsql bridge: Query returned null"
                case Failed(error) => msg == if e.interrupted(1) then "Interrupted!" else error
                case Fetched(_, _) =>
                  if e.interrupted(1) then msg == "Interrupted!"
                  else e.wrap.Some? && msg == if e.wrap.value.Some? then e.wrap.value.value
                                              else "ggsql bridge: unknown exception building arrow stream"
  {
  }

  /** Reading stops before batch `k` with an error. */
  predicate StopsAt(e: Environment, batches: seq<Batch>, failure: Option<Failure>, k: nat, m: string) {
    if e.interrupted(3 + k) then m == "arrow stream read failed: " + e.describe(4, "Interrupted!")
    else
      && k == |batches|
      && if failure.Some? then m == "arrow stream read failed: " + e.describe(failure.value.code, failure.value.message)
         else e.normalise == Some(m)
  }

  lemma {:induction false} ReadingFailsExactlyWhen(e: Environment, batches: seq<Batch>, failure: Option<Failure>, k: nat, m: string)
    requires k <= |batches|
    ensures ReadFrom(e, batches, failure, k) == ReaderError(m) <==>
              exists j :: k <= j <= |batches| && Calm(e, 3 + k, 2 + j) && !PanicsWithin(e, k, j) && StopsAt(e, batches, failure, j, m)
    decreases |batches| - k
  {
    if k < |batches| {
      ReadingFailsExactlyWhen(e, batches, failure, k + 1, m);
    }
    forall j | k <= j <= |batches|
      ensures Calm(e, 3 + k, 2 + j) <==> j == k || (!e.interrupted(3 + k) && Calm(e, 3 + (k + 1), 2 + j))
      ensures PanicsWithin(e, k, j) <==> e.panics == Some(k) || PanicsWithin(e, k + 1, j)
    {
    }
    if e.panics != Some(k) && StopsAt(e, batches, failure, k, m) {
      assert Calm(e, 3 + k, 2 + k) && !PanicsWithin(e, k, k);
    }
  }

  /** A statement fails with exactly these messages: the callback's, if there is one to hand over, or the reader's. */
  lemma FailsExactlyWhen(e: Environment, connected: bool, m: string)
    ensures Direct(e, connected) == ReaderError(m) <==>
              match CallbackError(e, connected)
              case Some(msg) =>
                m == if msg == "" || e.mallocFails then "ggsql: exec_sql callback failed with no error message" else msg
              case None =>
                if e.interrupted(2) then m == "arrow stream init failed: " + e.describe(4, "Interrupted!")
                else if e.schema.Some? then m == "arrow stream init failed: " + e.describe(e.schema.value.code, e.schema.value.message)
                else exists j :: && 0 <= j <= |e.end.batches| && Calm(e, 3, 2 + j) && !PanicsWithin(e, 0, j)
                                 && StopsAt(e, e.end.batches, e.end.failure, j, m)
  {
    if CallbackError(e, connected).None? {
      ReadingFailsExactlyWhen(e, e.end.batches, e.end.failure, 0, m);
    }
  }

  lemma {:induction false} ReadingPanicsExactlyWhen(e: Environment, batches: seq<Batch>, failure: Option<Failure>, k: nat)
    requires k <= |batches|
    ensures ReadFrom(e, batches, failure, k).Panicked? <==> PanicsWithin(e, k, |batches|) && Calm(e, 3 + k, 2 + e.panics.value)
    decreases |batches| - k
  {
    if k < |batches| {
      ReadingPanicsExactlyWhen(e, batches, failure, k + 1);
      if PanicsWithin(e, k + 1, |batches|) {
        assert Calm(e, 3 + k, 2 + e.panics.value) <==> !e.interrupted(3 + k) && Calm(e, 3 + (k + 1), 2 + e.panics.value);
      }
    }
  }

  /** A statement panics exactly when a batch that is reached makes it. */
  lemma PanicsInStatementExactlyWhen(e: Environment, connected: bool)
    ensures Direct(e, connected).Panicked? <==>
              && e.end.Fetched? && (connected || e.connect.Made?) && e.wrap.None? && e.schema.None?
              && PanicsWithin(e, 0, |e.end.batches|) && Calm(e, 0, 2 + e.panics.value)
  {
    if e.end.Fetched? {
      ReadingPanicsExactlyWhen(e, e.end.batches, e.end.failure, 0);
      if e.panics.Some? {
        var n := 2 + e.panics.value;
        assert Calm(e, 0, n) <==> !e.interrupted(0) && !e.interrupted(1) && !e.interrupted(2) && Calm(e, 3 + 0, n);
      }
    }
  }

  lemma {:induction false} ReadingIgnoresConnect(e: Environment, other: Connect, batches: seq<Batch>, failure: Option<Failure>, k: nat)
    requires k <= |batches|
    ensures ReadFrom(e.(connect := other), batches, failure, k) == ReadFrom(e, batches, failure, k)
    decreases |batches| - k
  {
    if k < |batches| {
      ReadingIgnoresConnect(e, other, batches, failure, k + 1);
    }
  }

  /**
    No later statement depends on whether a connection can be made exactly when there is one already, or
    this statement got as far as making one, be it without its forwarder.
   */
  lemma ConnectionIsKeptExactlyWhen(e: Environment, connected: bool)
    ensures (forall later: Environment, other: Connect ::
               Direct(later, ConnectedAfter(e, connected)) == Direct(later.(connect := other), ConnectedAfter(e, connected)))
       <==> connected || (!e.interrupted(0) && !e.connect.NoConnection?)
  {
    var after := ConnectedAfter(e, connected);
    if after {
      forall later: Environment, other: Connect
        ensures Direct(later, after) == Direct(later.(connect := other), after)
      {
        if later.end.Fetched? {
          ReadingIgnoresConnect(later, other, later.end.batches, later.end.failure, 0);
        }
      }
    } else {
      var later := e.(interrupted := (_: nat) => false, connect := NoConnection("a"), mallocFails := false);
      assert Direct(later, after) == ReaderError("a") && Direct(later.(connect := NoConnection("b")), after) == ReaderError("b");
    }
  }

  // ---------- A whole run without a boundary ----------

  /** The engine may also panic on its own, outside every statement. */
  datatype EngineEnd = Rendered(payload: Vec) | Refused(msg: Vec) | Crashed

  /** One run: the statements the engine executes, how it ends if it does not panic, and the outer checks. */
  datatype Script = Script(
    interruptedFirst: bool,
    nullArgument: bool,
    calls: seq<Environment>,
    end: EngineEnd,
    interruptedLast: bool)
  {
    predicate Valid() {
      match end
      case Rendered(payload) => payload.Valid()
      case Refused(msg) => msg.Valid()
      case Crashed => true
    }
  }

  const PANIC := "ggsql: panic in Rust side"
  const UNKNOWN_ERROR := "ggsql: unknown error"

  predicate Panics(calls: seq<Environment>, connected: bool) {
    calls != []
    && (Direct(calls[0], connected).Panicked? || Panics(calls[1..], ConnectedAfter(calls[0], connected)))
  }

  /** Whether there is a connection when statement `k` begins. */
  function ConnectedBefore(calls: seq<Environment>, connected: bool, k: nat): bool
    requires k <= |calls|
  {
    if k == 0 then connected else ConnectedAfter(calls[k - 1], ConnectedBefore(calls, connected, k - 1))
  }

  ghost predicate SomePanics(calls: seq<Environment>, connected: bool) {
    exists k :: 0 <= k < |calls| && Direct(calls[k], ConnectedBefore(calls, connected, k)).Panicked?
  }

  lemma {:induction false} ConnectedBeforeShifts(calls: seq<Environment>, connected: bool, k: nat)
    requires k < |calls|
    ensures ConnectedBefore(calls, connected, k + 1) == ConnectedBefore(calls[1..], ConnectedAfter(calls[0], connected), k)
    decreases k
  {
    if k > 0 {
      ConnectedBeforeShifts(calls, connected, k - 1);
    } else {
      assert ConnectedBefore(calls, connected, 0) == connected;
    }
  }

  /** A run panics exactly when some statement does, on the connection that those before it left. */
  lemma {:induction false} PanicsExactlyWhen(calls: seq<Environment>, connected: bool)
    ensures Panics(calls, connected) <==> SomePanics(calls, connected)
    decreases |calls|
  {
    if calls != [] {
      var after, rest := ConnectedAfter(calls[0], connected), calls[1..];
      PanicsExactlyWhen(rest, after);
      hide Direct, ConnectedAfter;
      assert ConnectedBefore(calls, connected, 0) == connected;
      forall k | 0 <= k < |rest|
        ensures rest[k] == calls[k + 1] && ConnectedBefore(calls, connected, k + 1) == ConnectedBefore(rest, after, k)
      {
        ConnectedBeforeShifts(calls, connected, k);
      }
      if k :| 0 <= k < |rest| && Direct(rest[k], ConnectedBefore(rest, after, k)).Panicked? {
        assert Direct(calls[k + 1], ConnectedBefore(calls, connected, k + 1)).Panicked?;
      }
      if k :| 0 <= k < |calls| && Direct(calls[k], ConnectedBefore(calls, connected, k)).Panicked? {
        if k > 0 {
          assert Direct(rest[k - 1], ConnectedBefore(rest, after, k - 1)).Panicked?;
        }
      }
    }
  }

  datatype Verdict = Interrupt | InvalidInput(msg: string) | Result(payload: string)

  function DirectVerdict(script: Script): Verdict {
    if script.interruptedFirst || script.interruptedLast then Interrupt
    else if script.nullArgument then InvalidInput(UNKNOWN_ERROR)
    else if Panics(script.calls, false) || script.end.Crashed? then InvalidInput(PANIC)
    else match script.end
      case Rendered(v) => Result(v.content)
      case Refused(v) => InvalidInput(if v.content == "" then UNKNOWN_ERROR else v.content)
      case Crashed => InvalidInput(PANIC)
  }

  /** The run is interrupted exactly when one of the two outer checks saw the flag. */
  lemma InterruptsExactlyWhen(script: Script)
    ensures DirectVerdict(script) == Interrupt <==> script.interruptedFirst || script.interruptedLast
  {
  }

  /** It returns a payload exactly when nothing was interrupted, null or panicked and the engine rendered that payload. */
  lemma ReturnsExactlyWhen(script: Script, p: string)
    ensures DirectVerdict(script) == Result(p) <==>
              && !script.interruptedFirst && !script.interruptedLast && !script.nullArgument
              && !SomePanics(script.calls, false) && script.end.Rendered? && script.end.payload.content == p
  {
    PanicsExactlyWhen(script.calls, false);
  }

  /** It fails with a message exactly when an argument was null, something panicked, or the engine refused with that message. */
  lemma RefusesExactlyWhen(script: Script, msg: string)
    ensures DirectVerdict(script) == InvalidInput(msg) <==>
              && !script.interruptedFirst && !script.interruptedLast
              && if script.nullArgument then msg == "ggsql: unknown error"
                 else if SomePanics(script.calls, false) || script.end.Crashed? then msg == "ggsql: panic in Rust side"
                 else script.end.Refused? && msg == if script.end.msg.content == "" then "ggsql: unknown error" else script.end.msg.content
  {
    PanicsExactlyWhen(script.calls, false);
  }

  // ---------- The books of one run ----------

  /** The stream that a successful callback hands over. */
  function Opened(e: Environment): InnerStream
    requires e.end.Fetched?
  {
    InnerStream(false, Some(Rows(e.schema, e.end.batches, e.end.failure, "")))
  }

  class Books {
    var nextId: nat
    var streams: map<nat, InnerStream>    // InnerStream objects not yet deleted
    var buffers: map<nat, string>         // malloc'ed error messages not yet freed
    var vectors: map<nat, string>         // vectors handed over as ByteBuffers, not yet dropped
    var connected: bool                   // the inner connection is alive

    /** Only fresh names are given out, and a stream with a result has its connection. */
    ghost predicate Valid()
      reads this
    {
      && (forall id :: id in streams ==> id < nextId)
      && (forall id :: id in buffers ==> id < nextId)
      && (forall id :: id in vectors ==> id < nextId)
      && (forall id :: id in streams && streams[id].inner.Some? ==> connected)
    }

    constructor ()
      ensures Valid() && Balanced() && !connected
    {
      nextId := 0;
      streams, buffers, vectors := map[], map[], map[];
      connected := false;
    }

    /** Nothing is left to free. */
    predicate Balanced()
      reads this
    {
      streams == map[] && buffers == map[] && vectors == map[]
    }

    // ---------- C++ ----------

    method WriteError(msg: string, mallocFails: bool) returns (err: ByteBuffer)
      requires Valid()
      modifies this`nextId, this`buffers
      ensures Valid()
      ensures if msg == "" || mallocFails then err == EMPTY && buffers == old(buffers)
              else err == ByteBuffer(At(old(nextId)), |msg|, |msg|) && buffers == old(buffers)[old(nextId) := msg]
      ensures old(nextId) <= nextId
    {
      if msg == "" || mallocFails {
        return EMPTY;
      }
      err := ByteBuffer(At(nextId), |msg|, |msg|);
      buffers := buffers[nextId := msg];
      nextId := nextId + 1;
    }

    method CppFreeBuffer(buf: ByteBuffer) returns (after: ByteBuffer)
      requires Valid() && (buf.ptr.Null? || (buf.ptr.At? && buf.ptr.id in buffers))
      modifies this`buffers
      ensures Valid()
      ensures buffers == if buf.ptr.At? then old(buffers) - {buf.ptr.id} else old(buffers)
      ensures after == if buf.ptr.At? then EMPTY else buf
    {
      if buf.ptr.Null? {
        return buf;
      }
      buffers := buffers - {buf.ptr.id};
      return EMPTY;
    }

    method NewStream() returns (id: nat)
      requires Valid()
      modifies this`nextId, this`streams
      ensures Valid() && id == old(nextId) && nextId == id + 1
      ensures id !in old(streams) && streams == old(streams)[id := InnerStream(false, None)]
    {
      id := nextId;
      streams := streams[id := InnerStream(false, None)];
      nextId := nextId + 1;
    }

    /** A stream with a result is deleted only while the connection it refers to is alive. */
    method DeleteStream(id: nat)
      requires Valid() && id in streams && (streams[id].inner.Some? ==> connected)
      modifies this`streams
      ensures Valid() && streams == old(streams) - {id}
    {
      streams := streams - {id};
    }

    method InnerRelease(stream: ArrowStream) returns (after: ArrowStream)
      requires Valid() && (stream.Stream? ==> stream.id in streams)
      modifies this`streams
      ensures Valid() && after == Zeroed
      ensures streams == if stream.Stream? then old(streams) - {stream.id} else old(streams)
    {
      if stream.Zeroed? {
        return stream;
      }
      DeleteStream(stream.id);
      return Zeroed;
    }

    /** An interrupted stream is refused with EINTR and marked; otherwise the wrapped stream answers. */
    method InnerGetSchema(stream: ArrowStream, interrupted: bool) returns (rc: int)
      requires Valid() && connected && stream.Stream? && stream.id in streams && streams[stream.id].inner.Some?
      modifies this`streams
      ensures Valid()
      ensures var was := old(streams)[stream.id]; var rows := was.inner.value;
        if interrupted then
          rc == EINTR && streams == old(streams)[stream.id := was.(interrupted := true)]
        else if rows.schema.Some? then
          && rc == rows.schema.value.code
          && streams == old(streams)[stream.id := was.(inner := Some(rows.(lastError := rows.schema.value.message)))]
        else
          rc == 0 && streams == old(streams)
    {
      var self := streams[stream.id];
      if interrupted {
        streams := streams[stream.id := self.(interrupted := true)];
        return EINTR;
      }
      match self.inner.value.schema
      case Some(failure) =>
        streams := streams[stream.id := self.(inner := Some(self.inner.value.(lastError := failure.message)))];
        return failure.code;
      case None =>
        return 0;
    }

    /** A refused read takes no batch from the wrapped stream. */
    method InnerGetNext(stream: ArrowStream, interrupted: bool) returns (rc: int, out: Option<Batch>)
      requires Valid() && connected && stream.Stream? && stream.id in streams && streams[stream.id].inner.Some?
      modifies this`streams
      ensures Valid()
      ensures var was := old(streams)[stream.id]; var rows := was.inner.value;
        if interrupted then
          rc == EINTR && out.None? && streams == old(streams)[stream.id := was.(interrupted := true)]
        else if rows.batches != [] then
          && rc == 0 && out == Some(rows.batches[0])
          && streams == old(streams)[stream.id := was.(inner := Some(rows.(batches := rows.batches[1..])))]
        else if rows.failure.Some? then
          && rc == rows.failure.value.code && out.None?
          && streams == old(streams)[stream.id := was.(inner := Some(rows.(lastError := rows.failure.value.message)))]
        else
          rc == 0 && out.None? && streams == old(streams)
    {
      var self := streams[stream.id];
      if interrupted {
        streams := streams[stream.id := self.(interrupted := true)];
        return EINTR, None;
      }
      var rows := self.inner.value;
      if rows.batches != [] {
        streams := streams[stream.id := self.(inner := Some(rows.(batches := rows.batches[1..])))];
        return 0, Some(rows.batches[0]);
      }
      match rows.failure
      case Some(failure) =>
        streams := streams[stream.id := self.(inner := Some(rows.(lastError := failure.message)))];
        return failure.code, None;
      case None =>
        return 0, None;
    }

    function InnerGetLastError(stream: ArrowStream): string
      requires stream.Stream? && stream.id in streams && streams[stream.id].inner.Some?
      reads this
    {
      if streams[stream.id].interrupted then INTERRUPTED else streams[stream.id].inner.value.lastError
    }

    /** Get the connection, run the query on it and wrap its result; `None` when all of that worked. */
    method RunQuery(e: Environment) returns (failure: Option<string>)
      requires Valid()
      modifies this`connected
      ensures Valid() && failure == CallbackError(e, old(connected)) && connected == ConnectedAfter(e, old(connected))
    {
      failure := None;
      if e.interrupted(0) {
        failure := Some(INTERRUPTED);
      } else if !connected && e.connect.NoConnection? {
        failure := Some(e.connect.msg);
      } else if !connected && e.connect.NoForwarder? {
        connected := true;
        failure := Some(e.connect.msg);
      } else {
        connected := true;
        if e.end.Threw? {
          failure := Some(e.end.msg);
        } else if e.end.ThrewUnknown? {
          failure := Some(UNKNOWN);
        } else if e.interrupted(1) {
          failure := Some(INTERRUPTED);
        } else if e.end.NullResult? {
          failure := Some(NO_RESULT);
        } else if e.end.Failed? {
          failure := Some(e.end.msg);
        } else if e.wrap.Some? {
          failure := Some(if e.wrap.value.Some? then e.wrap.value.value else UNKNOWN_STREAM);
        }
      }
    }

    method ExecSqlCallback(nullArgument: bool, e: Environment)
      returns (rc: int, stream: ArrowStream, err: ByteBuffer)
      requires Valid()
      modifies this
      ensures Valid() && vectors == old(vectors)
      ensures connected == if nullArgument then old(connected) else ConnectedAfter(e, old(connected))
      ensures rc == 0 <==> !nullArgument && CallbackError(e, old(connected)).None?
      ensures rc == 0 ==>
                && stream.Stream? && stream.id !in old(streams) && err == EMPTY
                && e.end.Fetched? && connected
                && streams == old(streams)[stream.id := Opened(e)]
                && buffers == old(buffers)
      ensures rc != 0 ==>
                && stream == Zeroed && streams == old(streams)
                && var msg := if nullArgument then NULL_ARGUMENT else CallbackError(e, old(connected)).value;
                   if msg == "" || e.mallocFails then err == EMPTY && buffers == old(buffers)
                   else err.ptr.At? && err.ptr.id !in old(buffers) && buffers == old(buffers)[err.ptr.id := msg]
                        && err.len == |msg|
    {
      stream, err := Zeroed, EMPTY;
      if nullArgument {
        err := WriteError(NULL_ARGUMENT, e.mallocFails);
        return 1, stream, err;
      }
      var holder := NewStream();
      var failure := RunQuery(e);
      if failure.Some? {
        err := WriteError(failure.value, e.mallocFails);
        DeleteStream(holder);
        assert streams == old(streams);
        return 1, stream, err;
      }
      streams := streams[holder := Opened(e)];
      return 0, Stream(holder), err;
    }

    // ---------- Rust ----------

    method ReadErrBuffer(err: ByteBuffer) returns (msg: Option<string>)
      requires Valid() && (err.ptr.Null? || (err.ptr.At? && err.ptr.id in buffers))
      modifies this`buffers
      ensures Valid()
      ensures if err.ptr.Null? then msg.None? && buffers == old(buffers)
              else msg == Some(old(buffers)[err.ptr.id]) && buffers == old(buffers) - {err.ptr.id}
    {
      if err.ptr.Null? {
        return None;
      }
      msg := Some(buffers[err.ptr.id]);
      var _ := CppFreeBuffer(err);
    }

    /** Read a stream to its end; however that ends, the stream is dropped exactly once. */
    method ReadStream(stream: ArrowStream, e: Environment) returns (result: ExecResult)
      requires Valid() && connected && stream.Stream? && stream.id in streams
      requires e.end.Fetched? && streams[stream.id] == Opened(e)
      modifies this`streams
      ensures Valid() && streams == old(streams) - {stream.id}
      ensures result == if e.interrupted(2) then ReaderError(INIT_FAILED + e.describe(EINTR, INTERRUPTED))
                        else if e.schema.Some? then ReaderError(INIT_FAILED + e.describe(e.schema.value.code, e.schema.value.message))
                        else ReadFrom(e, e.end.batches, e.end.failure, 0)
    {
      ghost var others := streams - {stream.id};
      var rc := InnerGetSchema(stream, e.interrupted(2));
      if rc != 0 {
        result := ReaderError(INIT_FAILED + e.describe(rc, InnerGetLastError(stream)));
      } else {
        result := ReadBatches(stream, e);
      }
      assert streams - {stream.id} == others;
      var _ := InnerRelease(stream);
    }

    method ReadBatches(stream: ArrowStream, e: Environment) returns (result: ExecResult)
      requires Valid() && connected && stream.Stream? && stream.id in streams
      requires e.end.Fetched? && streams[stream.id] == Opened(e)
      modifies this`streams
      ensures Valid() && stream.id in streams && streams - {stream.id} == old(streams) - {stream.id}
      ensures result == ReadFrom(e, e.end.batches, e.end.failure, 0)
    {
      ghost var others := streams - {stream.id};
      var batches := [];
      while true
        invariant Valid() && connected && stream.id in streams && streams - {stream.id} == others
        invariant |batches| <= |e.end.batches| && batches == e.end.batches[..|batches|]
        invariant streams[stream.id] == Opened(e).(inner := Some(Opened(e).inner.value.(batches := e.end.batches[|batches|..])))
        invariant ReadFrom(e, e.end.batches, e.end.failure, |batches|) == ReadFrom(e, e.end.batches, e.end.failure, 0)
        decreases |e.end.batches| - |batches|
      {
        if e.panics == Some(|batches|) {
          return Panicked;
        }
        var rc, out := InnerGetNext(stream, e.interrupted(3 + |batches|));
        if rc != 0 {
          return ReaderError(READ_FAILED + e.describe(rc, InnerGetLastError(stream)));
        }
        if out.None? {
          return if e.normalise.Some? then ReaderError(e.normalise.value) else Read(batches);
        }
        batches := batches + [out.value];
      }
    }

    /** One statement through the bridge: the result of running it directly, and nothing left behind. */
    method ExecSqlViaBridge(e: Environment) returns (result: ExecResult)
      requires Valid()
      modifies this
      ensures Valid() && connected == ConnectedAfter(e, old(connected))
      ensures result == Direct(e, old(connected))
      ensures streams == old(streams) && buffers == old(buffers) && vectors == old(vectors)
    {
      var rc, stream, err := ExecSqlCallback(false, e);
      if rc != 0 {
        var msg := ReadErrBuffer(err);
        assert buffers == old(buffers);
        return ReaderError(if msg.Some? then msg.value else NO_MESSAGE);
      }
      result := ReadStream(stream, e);
      assert streams == old(streams);
    }

    /** Every statement of a run, until one panics. */
    method RunEngine(calls: seq<Environment>) returns (panicked: bool)
      requires Valid()
      modifies this
      ensures Valid() && panicked == Panics(calls, old(connected))
      ensures streams == old(streams) && buffers == old(buffers) && vectors == old(vectors)
    {
      var k := 0;
      while k < |calls|
        invariant k <= |calls| && Valid()
        invariant Panics(calls[k..], connected) == Panics(calls, old(connected))
        invariant streams == old(streams) && buffers == old(buffers) && vectors == old(vectors)
      {
        assert calls[k..][1..] == calls[k + 1..];
        var result := ExecSqlViaBridge(calls[k]);
        if result.Panicked? {
          return true;
        }
        k := k + 1;
      }
      return false;
    }

    method FromVec(v: Vec) returns (buf: ByteBuffer)
      requires Valid() && v.Valid()
      modifies this`nextId, this`vectors
      ensures Valid() && buf.len == |v.content| && buf.cap == v.cap
      ensures if v.cap == 0 then buf.ptr == Dangling && vectors == old(vectors)
              else buf.ptr.At? && buf.ptr.id !in old(vectors) && vectors == old(vectors)[buf.ptr.id := v.content]
    {
      if v.cap == 0 {
        return ByteBuffer(Dangling, 0, 0);
      }
      buf := ByteBuffer(At(nextId), |v.content|, v.cap);
      vectors := vectors[nextId := v.content];
      nextId := nextId + 1;
    }

    /** Frees exactly what `FromVec` handed over: a non-null pointer alone does not mean an allocation. */
    method GgsqlFreeBuffer(buf: ByteBuffer) returns (after: ByteBuffer)
      requires Valid() && (buf.ptr.At? <==> buf.cap > 0) && (buf.ptr.At? ==> buf.ptr.id in vectors)
      modifies this`vectors
      ensures Valid() && after == EMPTY
      ensures vectors == if buf.ptr.At? then old(vectors) - {buf.ptr.id} else old(vectors)
    {
      if !buf.ptr.Null? && buf.cap > 0 {
        vectors := vectors - {buf.ptr.id};
      }
      return EMPTY;
    }

    method GgsqlExecute(script: Script, initial: ByteBuffer) returns (rc: int, out: ByteBuffer)
      requires Valid() && script.Valid()
      modifies this
      ensures Valid() && streams == old(streams) && buffers == old(buffers)
      ensures script.nullArgument ==> rc == 1 && out == initial && vectors == old(vectors)
      ensures !script.nullArgument ==>
                && (out.ptr.At? <==> out.cap > 0)
                && (var panics := Panics(script.calls, old(connected)) || script.end.Crashed?;
                    var content := if panics then PANIC
                                   else if script.end.Rendered? then script.end.payload.content
                                   else script.end.msg.content;
                    && rc == (if panics then 2 else if script.end.Rendered? then 0 else 1)
                    && out.len == |content|
                    && (if out.ptr.At? then out.ptr.id !in old(vectors) && vectors == old(vectors)[out.ptr.id := content]
                        else !out.ptr.Null? && content == "" && vectors == old(vectors)))
    {
      if script.nullArgument {
        return 1, initial;
      }
      var panicked := RunEngine(script.calls);
      if panicked || script.end.Crashed? {
        out := FromVec(Vec(PANIC, |PANIC|));
        return 2, out;
      }
      match script.end
      case Rendered(payload) =>
        out := FromVec(payload);
        return 0, out;
      case Refused(msg) =>
        out := FromVec(msg);
        return 1, out;
    }

    /** Destroying the connection needs every stream with a result to be gone. */
    method CloseConnection()
      requires Valid() && forall id :: id in streams ==> streams[id].inner.None?
      modifies this`connected
      ensures Valid() && !connected
    {
      connected := false;
    }

    /**
      A whole run: its verdict is the one of the same run without a boundary, and when it is over each
      stream, error buffer and result buffer has been freed, once, and the connection is closed.
     */
    method RunGgsqlQuery(script: Script) returns (verdict: Verdict)
      requires Valid() && Balanced() && !connected && script.Valid()
      modifies this
      ensures Valid() && Balanced() && !connected
      ensures verdict == DirectVerdict(script)
      ensures verdict.Interrupt? <==> script.interruptedFirst || script.interruptedLast
      ensures verdict.Result? <==>
                && !script.interruptedFirst && !script.interruptedLast && !script.nullArgument
                && !SomePanics(script.calls, false) && script.end.Rendered?
      ensures verdict.Result? ==> verdict.payload == script.end.payload.content
      ensures verdict.InvalidInput? ==>
                verdict.msg == if script.nullArgument then "ggsql: unknown error"
                               else if SomePanics(script.calls, false) || script.end.Crashed? then "ggsql: panic in Rust side"
                               else if script.end.msg.content == "" then "ggsql: unknown error"
                               else script.end.msg.content
    {
      PanicsExactlyWhen(script.calls, false);
      if script.interruptedFirst {
        return Interrupt;
      }
      var rc, out := GgsqlExecute(script, EMPTY);
      var payload := "";
      if !out.ptr.Null? && out.len > 0 {
        payload := vectors[out.ptr.id];
      }
      var _ := GgsqlFreeBuffer(out);
      if script.interruptedLast {
        verdict := Interrupt;
      } else if rc != 0 {
        verdict := InvalidInput(if payload == "" then UNKNOWN_ERROR else payload);
      } else {
        verdict := Result(payload);
      }
      CloseConnection();
    }
  }
}
