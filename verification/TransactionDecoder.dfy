/** The supervised JSONL decoder client: line framing over a pipe, and what a failure leaves behind. */
module TransactionDecoder {
  import opened Wrappers

  const MAX_REQUEST_BYTES: nat := 8 * 1024 * 1024
  const MAX_DECODED_BYTES: nat := 4 * 1024 * 1024
  const MAX_RESPONSE_BYTES: nat := 32 * 1024
  const CHUNK: nat := 8192
  const NEWLINE: Byte := 10

  /** One turn of the read loop: the selector timed out, or `os.read` gave bytes, nothing
      (end of file), would have blocked, or raised. */
  datatype Turn = TimedOut | Bytes(bytes: seq<Byte>) | Blocked | Broken

  datatype Failure =
    | ResponseTooLarge | TimeoutReason | ReadError | Eof
    | ProcessExit | StartFailed | BrokenPipe | Rejected(reason: string)

  /** A decoded response object. `id` is Some(n) for the text "tx-n"; `ok` is None when missing or
      not a boolean; `summary` is the normalized summary if it meets the bounds checked on it. */
  datatype Response<T> = Response(
    protocolVersion: int, id: Option<nat>, ok: Option<bool>, safeErrorCode: bool,
    hasSummary: bool, summary: Option<T>)

  /** `_validate_response` for request `number`: the summary, None for a safe error code, or a failure. */
  function Validate<T>(response: Option<Response<T>>, number: nat): Result<Option<T>, Failure> {
    match response
    case None => Err(Rejected("malformed_json"))
    case Some(r) =>
      if r.protocolVersion != 1 then Err(Rejected("protocol_version"))
      else if r.id != Some(number) then Err(Rejected("response_id_mismatch"))
      else if r.ok.None? then Err(Rejected("missing_ok"))
      else if !r.ok.value then
        if r.safeErrorCode then Ok(None) else Err(Rejected("unexpected_error_code"))
      else if !r.hasSummary then Err(Rejected("missing_summary"))
      else if r.summary.None? then Err(Rejected("invalid_summary"))
      else Ok(r.summary)
  }

  /** A response is taken exactly if it is an object of version 1 with this request's id that reports a summary
      within the bounds, or a safe error code and then nothing. */
  lemma ValidateIs<T>(response: Option<Response<T>>, number: nat, taken: Option<T>)
    ensures Validate(response, number) == Ok(taken) <==>
      && response.Some? && response.value.protocolVersion == 1 && response.value.id == Some(number)
      && (if response.value.ok == Some(true)
          then response.value.hasSummary && taken.Some? && taken == response.value.summary
          else response.value.ok == Some(false) && response.value.safeErrorCode && taken.None?)
  {
  }

  /** Why a response is rejected: the first of its fields that is wrong. */
  lemma RejectedFor<T>(response: Option<Response<T>>, number: nat)
    ensures var v := Validate(response, number);
            if response.None? then v == Err(Rejected("malformed_json"))
            else if response.value.protocolVersion != 1 then v == Err(Rejected("protocol_version"))
            else if response.value.id != Some(number) then v == Err(Rejected("response_id_mismatch"))
            else
              && (response.value.ok.None? ==> v == Err(Rejected("missing_ok")))
              && (response.value.ok == Some(false) && !response.value.safeErrorCode ==>
                    v == Err(Rejected("unexpected_error_code")))
              && (response.value.ok == Some(true) && !response.value.hasSummary ==>
                  v == Err(Rejected("missing_summary")))
              && (response.value.ok == Some(true) && response.value.hasSummary && response.value.summary.None? ==>
                    v == Err(Rejected("invalid_summary")))
  {
  }

  /** Eight and four mebibytes, 32 kibibytes, 8 kibibytes, and the line feed. */
  lemma Limits()
    ensures (MAX_REQUEST_BYTES, MAX_DECODED_BYTES, MAX_RESPONSE_BYTES, CHUNK) == (8_388_608, 4_194_304, 32_768, 8_192)
    ensures NEWLINE as int == 10
  {
  }

  /** What happens around one call of `decode`: the two clock readings, whether the running process
      still lives, whether a new one starts, whether the request is written, and the read turns. */
  datatype World = World(now: int, failedAt: int, alive: bool, starts: bool, writes: bool, turns: seq<Turn>)

  datatype Outcome<T> =
    | Skipped
    | Answered(line: seq<Byte>, used: nat, summary: Option<T>)
    | Failed(reason: Failure)

  predicate ValidTurns(turns: seq<Turn>) {
    forall i :: 0 <= i < |turns| && turns[i].Bytes? ==> |turns[i].bytes| <= CHUNK
  }

  /** `bytearray.find` of a newline. */
  function FindNewline(buffer: seq<Byte>): (i: Option<nat>)
    ensures i.Some? ==> i.value < |buffer| && buffer[i.value] == NEWLINE && NEWLINE !in buffer[..i.value]
    ensures i.None? ==> NEWLINE !in buffer
  {
    if buffer == [] then None
    else if buffer[0] == NEWLINE then Some(0)
    else
      var rest := FindNewline(buffer[1..]);
      if rest.None? then None
      else
        assert buffer[..rest.value + 1] == [buffer[0]] + buffer[1..][..rest.value];
        Some(rest.value + 1)
  }

  // ----- specification: framing of a byte stream -----

  datatype Ending = Unfinished(rest: seq<Byte>) | TooLong

  /** The newline-terminated lines of a stream up to the first one over the limit, and how it ends. */
  datatype Frames = Frames(lines: seq<seq<Byte>>, ending: Ending)

  function FramesOf(stream: seq<Byte>): Frames {
    var newline := FindNewline(stream);
    if newline.Some? && newline.value <= MAX_RESPONSE_BYTES then
      var rest := FramesOf(stream[newline.value + 1..]);
      Frames([stream[..newline.value]] + rest.lines, rest.ending)
    else if |stream| > MAX_RESPONSE_BYTES then Frames([], TooLong)
    else Frames([], Unfinished(stream))
  }

  /** All bytes delivered by some turns. */
  function Delivered(turns: seq<Turn>): seq<Byte> {
    if turns == [] then []
    else Delivered(turns[..|turns| - 1])
         + (if turns[|turns| - 1].Bytes? then turns[|turns| - 1].bytes else [])
  }

  lemma {:induction false} DeliveredAppend(a: seq<Turn>, b: seq<Turn>)
    ensures Delivered(a + b) == Delivered(a) + Delivered(b)
  {
    if b == [] {
      assert a + b == a;
    } else {
      var n := |b| - 1;
      DeliveredAppend(a, b[..n]);
      assert (a + b)[..|a + b| - 1] == a + b[..n];
    }
  }

  lemma DeliveredNext(turns: seq<Turn>, used: nat)
    requires used < |turns|
    ensures Delivered(turns[..used + 1])
         == Delivered(turns[..used]) + (if turns[used].Bytes? then turns[used].bytes else [])
  {
    assert turns[..used + 1][..used] == turns[..used];
  }

  /** What one `_read_line` call does to the buffer, given the bytes it reads meanwhile. */
  ghost predicate LineRead(before: seq<Byte>, consumed: seq<Byte>, r: Result<seq<Byte>, Failure>, after: seq<Byte>) {
    var stream := before + consumed;
    match r
    case Ok(line) =>
      && stream == line + [NEWLINE] + after
      && NEWLINE !in line && |line| <= MAX_RESPONSE_BYTES
    case Err(ResponseTooLarge) =>
      |stream| > MAX_RESPONSE_BYTES && NEWLINE !in stream[..MAX_RESPONSE_BYTES + 1]
    case Err(_) =>
      stream == after && NEWLINE !in stream && |stream| <= MAX_RESPONSE_BYTES
  }

  /** Why a call ends without a line, after `used` turns. */
  predicate EndsFor(turns: seq<Turn>, used: nat, e: Failure) {
    match e
    case TimeoutReason => used >= |turns| || turns[used].TimedOut?
    case ReadError => used < |turns| && turns[used].Broken?
    case Eof => used < |turns| && turns[used] == Bytes([])
    case ResponseTooLarge => true
    case _ => false
  }

  /** A call may end so. */
  ghost predicate ReadBy(before: seq<Byte>, turns: seq<Turn>, r: Result<seq<Byte>, Failure>, used: nat) {
    && used <= |turns| && (r.Err? ==> EndsFor(turns, used, r.error))
    && exists after :: LineRead(before, Delivered(turns[..used]), r, after)
  }

  /** What a request gives once its line was read or not. */
  function Concluded<T>(r: Result<seq<Byte>, Failure>, used: nat, parse: seq<Byte> -> Option<Response<T>>,
                        number: nat): Outcome<T> {
    match r
    case Err(e) => Failed(e)
    case Ok(line) =>
      match Validate(parse(line), number)
      case Err(e) => Failed(e)
      case Ok(summary) => Answered(line, used, summary)
  }

  lemma {:induction false} NewlineAt(line: seq<Byte>, rest: seq<Byte>)
    requires NEWLINE !in line
    ensures FindNewline(line + [NEWLINE] + rest) == Some(|line|)
  {
    var s := line + [NEWLINE] + rest;
    if line != [] {
      assert s[1..] == line[1..] + [NEWLINE] + rest;
      NewlineAt(line[1..], rest);
    }
  }

  /** A line that was read is the first frame of everything that was or will be received. */
  lemma LineIsFirstFrame(before: seq<Byte>, consumed: seq<Byte>, line: seq<Byte>, after: seq<Byte>, later: seq<Byte>)
    requires LineRead(before, consumed, Ok(line), after)
    ensures FramesOf(before + consumed + later)
         == Frames([line] + FramesOf(after + later).lines, FramesOf(after + later).ending)
  {
    var stream := before + consumed + later;
    assert stream == line + [NEWLINE] + (after + later);
    NewlineAt(line, after + later);
    assert stream[..|line|] == line && stream[|line| + 1..] == after + later;
  }

  lemma OverlongHasNoFrame(before: seq<Byte>, consumed: seq<Byte>, after: seq<Byte>, later: seq<Byte>)
    requires LineRead(before, consumed, Err(ResponseTooLarge), after)
    ensures FramesOf(before + consumed + later) == Frames([], TooLong)
  {
    var stream := before + consumed + later;
    forall i | 0 <= i <= MAX_RESPONSE_BYTES ensures stream[i] != NEWLINE {
      assert stream[i] == (before + consumed)[..MAX_RESPONSE_BYTES + 1][i];
    }
  }

  /** One call of a run: the bytes it read, its result and the buffer it left. */
  datatype Call = Call(consumed: seq<Byte>, r: Result<seq<Byte>, Failure>, after: seq<Byte>)

  /** Consecutive calls from a buffer, up to and including the first that returns no line. */
  ghost predicate FullRun(before: seq<Byte>, calls: seq<Call>)
    decreases |calls|
  {
    && calls != []
    && LineRead(before, calls[0].consumed, calls[0].r, calls[0].after)
    && if calls[0].r.Ok? then FullRun(calls[0].after, calls[1..]) else |calls| == 1
  }

  /** The calls were given `stream` to read; only an overlong line stops them before its end. */
  predicate Given(calls: seq<Call>, stream: seq<Byte>)
    decreases |calls|
  {
    calls != [] ==>
      && calls[0].consumed <= stream
      && if calls[0].r.Ok? then Given(calls[1..], stream[|calls[0].consumed|..])
         else calls[0].r.error != ResponseTooLarge ==> calls[0].consumed == stream
  }

  function Lines(calls: seq<Call>): seq<seq<Byte>> {
    if calls == [] || calls[0].r.Err? then [] else [calls[0].r.value] + Lines(calls[1..])
  }

  function EndingOf(calls: seq<Call>): Ending
    requires calls != []
  {
    var last := calls[|calls| - 1];
    if last.r.Err? && last.r.error == ResponseTooLarge then TooLong else Unfinished(last.after)
  }

  lemma RestOfRun(calls: seq<Call>)
    requires |calls| > 1 && calls[0].r.Ok?
    ensures Lines(calls) == [calls[0].r.value] + Lines(calls[1..]) && EndingOf(calls) == EndingOf(calls[1..])
  {
  }

  /** However the stream was cut into reads, the calls return its frames. */
  lemma {:induction false} RunReturnsFrames(before: seq<Byte>, calls: seq<Call>, stream: seq<Byte>)
    requires FullRun(before, calls) && Given(calls, stream)
    ensures FramesOf(before + stream) == Frames(Lines(calls), EndingOf(calls))
    decreases |calls|
  {
    var c := calls[0];
    var later := stream[|c.consumed|..];
    assert before + stream == before + c.consumed + later;
    if c.r.Ok? {
      RestOfRun(calls);
      RunReturnsFrames(c.after, calls[1..], later);
      LineIsFirstFrame(before, c.consumed, c.r.value, c.after, later);
    } else if c.r.error == ResponseTooLarge {
      OverlongHasNoFrame(before, c.consumed, c.after, later);
    }
  }

  /** Two runs that were given the same bytes returned the same lines, whatever the reads were. */
  lemma ChunkingIrrelevant(before: seq<Byte>, p: seq<Call>, q: seq<Call>, stream: seq<Byte>)
    requires FullRun(before, p) && Given(p, stream)
    requires FullRun(before, q) && Given(q, stream)
    ensures Lines(p) == Lines(q) && EndingOf(p) == EndingOf(q)
  {
    RunReturnsFrames(before, p, stream);
    RunReturnsFrames(before, q, stream);
  }

  lemma LineInBuffer(before: seq<Byte>, consumed: seq<Byte>, newline: nat)
    requires FindNewline(before + consumed) == Some(newline)
    ensures var buffer := before + consumed;
            if newline > MAX_RESPONSE_BYTES then LineRead(before, consumed, Err(ResponseTooLarge), buffer)
            else LineRead(before, consumed, Ok(buffer[..newline]), buffer[newline + 1..])
  {
    hide FindNewline;
    var buffer := before + consumed;
    if newline > MAX_RESPONSE_BYTES {
      assert buffer[..MAX_RESPONSE_BYTES + 1] == buffer[..newline][..MAX_RESPONSE_BYTES + 1];
    } else {
      assert buffer == buffer[..newline] + [NEWLINE] + buffer[newline + 1..];
    }
  }

  lemma NoLineInBuffer(before: seq<Byte>, consumed: seq<Byte>, e: Failure)
    requires FindNewline(before + consumed).None?
    requires e == ResponseTooLarge <==> |before + consumed| > MAX_RESPONSE_BYTES
    ensures LineRead(before, consumed, Err(e), before + consumed)
  {
    var buffer := before + consumed;
    assert NEWLINE !in buffer;
    assert |buffer| > MAX_RESPONSE_BYTES ==>
      forall b :: b in buffer[..MAX_RESPONSE_BYTES + 1] ==> b in buffer;
  }

  lemma NothingDelivered()
    ensures Delivered([]) == []
  {
  }

  /** A line that was buffered already leaves a shorter buffer. */
  lemma LineShortens(before: seq<Byte>, consumed: seq<Byte>, r: Result<seq<Byte>, Failure>, after: seq<Byte>)
    requires LineRead(before, consumed, r, after) && r.Ok? && consumed == []
    ensures |after| < |before|
  {
    assert before + consumed == before;
  }

  /** Handing out a part of the buffer loses and repeats nothing. */
  lemma Splits(taken: seq<Byte>, buffer: seq<Byte>, n: nat)
    requires n <= |buffer|
    ensures (taken + buffer[..n]) + buffer[n..] == taken + buffer
  {
  }

  // ----- the reader -----

  class Decoder {
    const restartBackoff: int
    var running: bool
    var buffer: seq<Byte>
    var requestNumber: nat
    var retryAt: int
    /** What the current process wrote and was already handed out. */
    ghost var taken: seq<Byte>

    constructor (restartBackoff: int)
      ensures Valid() && !running && requestNumber == 0 && retryAt == 0
      ensures this.restartBackoff == restartBackoff
    {
      this.restartBackoff := restartBackoff;
      running, buffer, requestNumber, retryAt, taken := false, [], 0, 0, [];
    }

    /** Everything read from the current process. */
    ghost function Received(): seq<Byte>
      reads this
    {
      taken + buffer
    }

    /** The buffer is bounded, and without a process nothing is left of what was read. */
    ghost predicate Valid()
      reads this
    {
      && |buffer| <= MAX_RESPONSE_BYTES + CHUNK
      && (!running ==> taken == [] && buffer == [])
    }

    /** `_read_line`. `used` counts the turns taken; the deadline ends the turns on offer. */
    method ReadLine(turns: seq<Turn>) returns (r: Result<seq<Byte>, Failure>, used: nat)
      requires Valid() && running && ValidTurns(turns)
      modifies this`buffer, this`taken
      ensures Valid() && used <= |turns|
      ensures LineRead(old(buffer), Delivered(turns[..used]), r, buffer)
      ensures Received() == old(Received()) + Delivered(turns[..used])
      ensures r.Err? ==> EndsFor(turns, used, r.error)
    {
      used := 0;
      assert Delivered(turns[..0]) == [];
      while true
        invariant Valid() && used <= |turns|
        invariant buffer == old(buffer) + Delivered(turns[..used])
        invariant Received() == old(Received()) + Delivered(turns[..used])
        decreases |turns| - used
      {
        hide LineRead, FindNewline, Delivered;
        var newline := FindNewline(buffer);
        if newline.Some? {
          LineInBuffer(old(buffer), Delivered(turns[..used]), newline.value);
          if newline.value > MAX_RESPONSE_BYTES {
            return Err(ResponseTooLarge), used;
          }
          r := Ok(buffer[..newline.value]);
          Splits(taken, buffer, newline.value + 1);
          taken := taken + buffer[..newline.value + 1];
          buffer := buffer[newline.value + 1..];
          return r, used;
        }
        if |buffer| > MAX_RESPONSE_BYTES {
          NoLineInBuffer(old(buffer), Delivered(turns[..used]), ResponseTooLarge);
          return Err(ResponseTooLarge), used;
        }
        NoLineInBuffer(old(buffer), Delivered(turns[..used]), TimeoutReason);
        if used == |turns| || turns[used].TimedOut? {
          return Err(TimeoutReason), used;
        }
        var turn := turns[used];
        if turn.Broken? {
          return Err(ReadError), used;
        }
        if turn.Bytes? && turn.bytes == [] {
          return Err(Eof), used;
        }
        DeliveredNext(turns, used);
        used := used + 1;
        if turn.Bytes? {
          assert taken + (buffer + turn.bytes) == taken + buffer + turn.bytes;
          buffer := buffer + turn.bytes;
        }
      }
    }

    /** Consecutive calls on one process, until one returns no line: they return the frames of all the
        bytes that the buffer held and the turns delivered. */
    method ReadLines(turns: seq<Turn>) returns (calls: seq<Call>, used: nat)
      requires Valid() && running && ValidTurns(turns)
      modifies this`buffer, this`taken
      ensures Valid() && used <= |turns| && FullRun(old(buffer), calls) && Given(calls, Delivered(turns[..used]))
      ensures FramesOf(old(buffer) + Delivered(turns[..used])) == Frames(Lines(calls), EndingOf(calls))
      ensures Received() == old(Received()) + Delivered(turns[..used])
      decreases |turns|, |buffer|
    {
      hide LineRead, FramesOf, Delivered;
      ghost var before := buffer;
      var r, first := ReadLine(turns);
      var consumed := Delivered(turns[..first]);
      var call := Call(consumed, r, buffer);
      if r.Err? {
        calls, used := [call], first;
      } else {
        if first == 0 {
          NothingDelivered();
          LineShortens(before, consumed, r, buffer);
        }
        var later, more := ReadLines(turns[first..]);
        calls, used := [call] + later, first + more;
        assert turns[..used] == turns[..first] + turns[first..][..more];
        DeliveredAppend(turns[..first], turns[first..][..more]);
      }
      RunReturnsFrames(before, calls, Delivered(turns[..used]));
    }

    /** `close`: the process and every buffered byte go. */
    method Close()
      modifies this`running, this`buffer, this`taken
      ensures Valid() && !running && buffer == []
    {
      running, buffer, taken := false, [], [];
    }

    method Fail(now: int)
      modifies this`running, this`buffer, this`taken, this`retryAt
      ensures Valid() && !running && buffer == [] && retryAt == now + restartBackoff
    {
      Close();
      retryAt := now + restartBackoff;
    }

    /** `decode`. An answer is always the line for this very request; a failure leaves neither a
        process nor a byte behind, so what a later request is answered from was read after it. */
    method Decode<T>(requestLength: nat, decodedLength: int, world: World, parse: seq<Byte> -> Option<Response<T>>)
      returns (outcome: Outcome<T>)
      requires Valid() && ValidTurns(world.turns)
      modifies this`running, this`buffer, this`taken, this`requestNumber, this`retryAt
      ensures Valid()
      ensures outcome.Skipped? <==>
        !(0 <= decodedLength <= MAX_DECODED_BYTES) || world.now < old(retryAt) || requestLength > MAX_REQUEST_BYTES
      ensures outcome.Skipped? ==> unchanged(this)
      ensures !outcome.Skipped? ==> requestNumber == old(requestNumber) + 1
      ensures outcome.Failed? ==> !running && buffer == [] && retryAt == world.failedAt + restartBackoff
      ensures !outcome.Skipped? && !(if old(running) then world.alive else world.starts) ==>
        outcome == Failed(if old(running) then ProcessExit else StartFailed)
      ensures !outcome.Skipped? && (if old(running) then world.alive else world.starts) && !world.writes ==>
        outcome == Failed(BrokenPipe)
      ensures !outcome.Skipped? && (if old(running) then world.alive else world.starts) && world.writes ==>
        exists r, used :: ReadBy(old(buffer), world.turns, r, used) &&
          outcome == Concluded(r, used, parse, requestNumber)
      ensures outcome.Answered? ==>
        && running && retryAt == old(retryAt) && outcome.used <= |world.turns|
        && Validate(parse(outcome.line), requestNumber) == Ok(outcome.summary)
        && LineRead(old(buffer), Delivered(world.turns[..outcome.used]), Ok(outcome.line), buffer)
        && Received() == old(Received()) + Delivered(world.turns[..outcome.used])
    {
      if !(0 <= decodedLength <= MAX_DECODED_BYTES) || world.now < retryAt || requestLength > MAX_REQUEST_BYTES {
        return Skipped;
      }
      requestNumber := requestNumber + 1;
      if running && !world.alive {
        Fail(world.failedAt);
        return Failed(ProcessExit);
      }
      if !running {
        if !world.starts {
          Fail(world.failedAt);
          return Failed(StartFailed);
        }
        running := true;
      }
      if !world.writes {
        Fail(world.failedAt);
        return Failed(BrokenPipe);
      }
      ghost var before := buffer;
      var line, used := ReadLine(world.turns);
      assert ReadBy(before, world.turns, line, used);
      if line.Err? {
        Fail(world.failedAt);
        return Failed(line.error);
      }
      var validated := Validate(parse(line.value), requestNumber);
      if validated.Err? {
        Fail(world.failedAt);
        return Failed(validated.error);
      }
      return Answered(line.value, used, validated.value);
    }
  }
}
