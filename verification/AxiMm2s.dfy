/**
 Assembling a transfer from stream fragments: `ReadExact` over an XDMA channel, and the AXI
 memory-to-stream driver, which pads to whole beats, reads in bounded chunks and keeps statistics.
 */
module AxiMm2s {
  import opened Results
  import opened Bytes
  import opened Clocks

  const SIZE_MAX: nat := 0xffff_ffff_ffff_ffff
  const UINT32_MAX: nat := 0xffff_ffff

  /** One call of the stream: how many bytes it asked for, and what came of it. */
  datatype Call = Call(requested: nat, outcome: Result<nat>) {
    function Returned(): nat {
      if outcome.Ok? then outcome.value else 0
    }
  }

  /** All bytes that the calls returned. */
  function Taken(calls: seq<Call>): nat {
    if calls == [] then 0 else Taken(calls[..|calls| - 1]) + calls[|calls| - 1].Returned()
  }

  /** The calls that returned anything. */
  function Fragments(calls: seq<Call>): seq<Call> {
    if calls == [] then []
    else
      var last := calls[|calls| - 1];
      Fragments(calls[..|calls| - 1]) + if last.Returned() > 0 then [last] else []
  }

  /** How many of them returned less than was asked for. */
  function Shorts(calls: seq<Call>): nat {
    if calls == [] then 0
    else
      var last := calls[|calls| - 1];
      Shorts(calls[..|calls| - 1]) + if last.Returned() < last.requested then 1 else 0
  }

  lemma OneMoreOf(calls: seq<Call>, call: Call)
    ensures Taken(calls + [call]) == Taken(calls) + call.Returned()
    ensures Fragments(calls + [call]) == Fragments(calls) + if call.Returned() > 0 then [call] else []
    ensures Shorts(calls + [call]) == Shorts(calls) + if call.Returned() < call.requested then 1 else 0
  {
    var more := calls + [call];
    assert more[..|more| - 1] == calls && more[|more| - 1] == call;
  }

  /** The last call failed with this error. */
  predicate LastFailed(calls: seq<Call>, e: Error) {
    calls != [] && calls[|calls| - 1].outcome == Err(e)
  }

  /** A card-to-host channel; `delivered` is everything it has handed out so far. */
  class C2hStream {
    var delivered: seq<byte>
    ghost var calls: seq<Call>

    constructor ()
      ensures delivered == [] && calls == []
    {
      delivered, calls := [], [];
    }

    /** One fragment of any size up to `size`, or an error after which nothing is known of the buffer's window. */
    method ReadC2H(buffer: array<byte>, at: nat, size: nat) returns (r: Result<nat>)
      requires at + size <= buffer.Length
      modifies this, buffer
      ensures old(delivered) <= delivered && |delivered| <= |old(delivered)| + size
      ensures buffer[..at] == old(buffer[..at]) && buffer[at + size..] == old(buffer[at + size..])
      ensures r.Ok? ==> r.value <= size && |delivered| == |old(delivered)| + r.value
      ensures r.Ok? ==> buffer[..at + r.value] == old(buffer[..at]) + delivered[|old(delivered)|..]
      ensures r.Err? ==> r.error == Timeout || r.error == SystemFailure
      ensures calls == old(calls) + [Call(size, r)]
    {
      var count: int := *;
      if count < 0 || count > size {
        count := size;
      }
      for i := 0 to count
        invariant |delivered| == |old(delivered)| + i && old(delivered) <= delivered
        invariant buffer[..at + i] == old(buffer[..at]) + delivered[|old(delivered)|..]
        invariant buffer[at + size..] == old(buffer[at + size..])
        invariant calls == old(calls)
      {
        var value: byte := *;
        buffer[at + i] := value;
        delivered := delivered + [value];
      }
      assert buffer[..at] == buffer[..at + count][..at];
      var outcome: int := *;
      r := if outcome == 0 then Ok(count) else if outcome == 1 then Err(Timeout) else Err(SystemFailure);
      calls := calls + [Call(size, r)];
    }
  }

  /** Exactly `size` bytes, however the stream is cut up, or a timeout. */
  method ReadExact(stream: C2hStream, clock: Clock, buffer: array<byte>, size: nat, timeoutMs: int)
    returns (r: Result<()>)
    requires size <= buffer.Length
    modifies stream, clock, buffer
    ensures timeoutMs < 0 <==> r == Err(InvalidArgument)
    ensures timeoutMs < 0 ==> stream.delivered == old(stream.delivered) && buffer[..] == old(buffer[..])
    // never more than was asked for, however the call ends
    ensures old(stream.delivered) <= stream.delivered && |stream.delivered| <= |old(stream.delivered)| + size
    ensures buffer[size..] == old(buffer[size..])
    ensures r.Ok? ==>
      && |stream.delivered| == |old(stream.delivered)| + size
      && buffer[..size] == stream.delivered[|old(stream.delivered)|..]
    ensures r.Err? ==> r.error == InvalidArgument || r.error == Timeout || r.error == SystemFailure
    ensures r == Err(SystemFailure) ==> LastFailed(stream.calls, SystemFailure)
    ensures r == Err(Timeout) ==>
      LastFailed(stream.calls, Timeout) || clock.time >= old(clock.time) + timeoutMs * 1_000_000
  {
    if timeoutMs < 0 {
      return Err(InvalidArgument);
    }
    var completed := 0;
    var now := clock.Now();
    var deadline := now + timeoutMs * MILLISECOND;
    while completed < size
      invariant completed <= size && old(stream.delivered) <= stream.delivered
      invariant |stream.delivered| == |old(stream.delivered)| + completed
      invariant buffer[..completed] == stream.delivered[|old(stream.delivered)|..]
      invariant buffer[size..] == old(buffer[size..])
      invariant clock.time > old(clock.time) && deadline >= old(clock.time) + timeoutMs * MILLISECOND
      decreases deadline - clock.time
    {
      now := clock.Now();
      if now >= deadline {
        return Err(Timeout);
      }
      ghost var before := stream.delivered;
      var count :- stream.ReadC2H(buffer, completed, size - completed);
      assert stream.delivered[|old(stream.delivered)|..]
          == before[|old(stream.delivered)|..] + stream.delivered[|before|..];
      if count > 0 {
        completed := completed + count;
      }
    }
    return Ok(());
  }

  // ---------------------------------------------------------------------------------------------
  // The memory-to-stream driver

  /** `n` rounded up to whole beats. */
  function RoundedUp(n: nat, beat: nat): (r: nat)
    requires 0 < beat
  {
    ((n + beat - 1) / beat) * beat
  }

  /** The least multiple of the beat that is not below `n`. */
  lemma RoundedUpIsLeast(n: nat, beat: nat)
    requires 0 < beat
    ensures n <= RoundedUp(n, beat) < n + beat && RoundedUp(n, beat) % beat == 0
    ensures forall q: nat {:trigger q * beat} :: n <= q * beat ==> RoundedUp(n, beat) <= q * beat
  {
    var q := (n + beat - 1) / beat;
    RoundUp(n, beat);
    MultipleStep(q, beat);
    forall t: nat | n <= t * beat
      ensures q * beat <= t * beat
    {
      MultipleBelow(q, t, beat);
      MultipleUpTo(q, t, beat);
    }
  }

  datatype Statistics = Statistics(
    logicalBytes: nat,
    transportBytes: nat,
    readCalls: nat,
    shortReads: nat,
    smallestRead: nat,
    largestRead: nat)

  const NO_STATISTICS: Statistics := Statistics(0, 0, 0, 0, 0, 0)

  /** The counters after some fragments of at most `chunk` bytes that make up `completed` bytes. */
  ghost predicate Consistent(s: Statistics, completed: nat, chunk: nat) {
    && s.shortReads <= s.readCalls <= completed
    && s.largestRead <= chunk
    && (s.readCalls == 0 ==> completed == 0 && s.smallestRead == SIZE_MAX && s.largestRead == 0)
    && (s.readCalls > 0 ==> 0 < s.smallestRead <= s.largestRead)
    && (s.readCalls > 0 ==> s.smallestRead * s.readCalls <= completed)
    && completed <= s.largestRead * s.readCalls
  }

  /** While no read was short, the calls carried whole chunks, up to a last smaller one. */
  ghost predicate WholeChunks(s: Statistics, completed: nat, total: nat, chunk: nat) {
    s.shortReads == 0 ==>
      || completed == s.readCalls * chunk
      || (completed == total && s.readCalls > 0 && (s.readCalls - 1) * chunk < total <= s.readCalls * chunk)
  }

  function Counted(s: Statistics, returned: nat, requested: nat): Statistics {
    s.(shortReads := s.shortReads + (if returned < requested then 1 else 0),
       smallestRead := Min(s.smallestRead, returned),
       largestRead := Max(s.largestRead, returned),
       readCalls := s.readCalls + 1)
  }

  /** The statistics are those of these fragments: their number, the short ones, the least and the greatest. */
  ghost predicate Measures(s: Statistics, fragments: seq<Call>) {
    && s.readCalls == |fragments| && s.shortReads == Shorts(fragments)
    && (forall i :: 0 <= i < |fragments| ==> s.smallestRead <= fragments[i].Returned() <= s.largestRead)
    && (fragments != [] ==>
      && (exists i :: 0 <= i < |fragments| && fragments[i].Returned() == s.smallestRead)
      && (exists i :: 0 <= i < |fragments| && fragments[i].Returned() == s.largestRead))
    && (fragments == [] ==> s.smallestRead == SIZE_MAX && s.largestRead == 0)
  }

  lemma CountedMeasures(s: Statistics, fragments: seq<Call>, call: Call)
    requires Measures(s, fragments) && 0 < call.Returned() <= call.requested <= SIZE_MAX
    ensures Measures(Counted(s, call.Returned(), call.requested), fragments + [call])
  {
    hide Shorts, Fragments, Taken;
    var t, more := Counted(s, call.Returned(), call.requested), fragments + [call];
    OneMoreOf(fragments, call);
    assert more[|fragments|] == call;
    if fragments != [] {
      var i :| 0 <= i < |fragments| && fragments[i].Returned() == s.smallestRead;
      var j :| 0 <= j < |fragments| && fragments[j].Returned() == s.largestRead;
      assert more[i] == fragments[i] && more[j] == fragments[j];
    }
  }

  /** The call asked for one chunk, or for what the earlier ones left of `total`. */
  predicate Asks(call: Call, earlier: seq<Call>, total: nat, chunk: nat) {
    call.requested == Min(chunk, total - Taken(earlier))
  }

  predicate AskedFor(calls: seq<Call>, total: nat, chunk: nat) {
    forall i :: 0 <= i < |calls| ==> Asks(calls[i], calls[..i], total, chunk)
  }

  lemma OneMoreAsked(calls: seq<Call>, call: Call, total: nat, chunk: nat)
    requires AskedFor(calls, total, chunk) && Asks(call, calls, total, chunk)
    ensures AskedFor(calls + [call], total, chunk)
  {
    hide Asks;
    var more := calls + [call];
    forall i | 0 <= i < |more|
      ensures Asks(more[i], more[..i], total, chunk)
    {
      if i < |calls| {
        assert more[..i] == calls[..i] && more[i] == calls[i];
      } else {
        assert more[..i] == calls;
      }
    }
  }

  lemma CountedConsistent(s: Statistics, completed: nat, returned: nat, requested: nat, chunk: nat)
    requires Consistent(s, completed, chunk)
    requires 0 < returned <= requested <= chunk <= SIZE_MAX
    ensures Consistent(Counted(s, returned, requested), completed + returned, chunk)
  {
    var t := Counted(s, returned, requested);
    OneMoreCall(t.smallestRead, s.readCalls);
    OneMoreCall(t.largestRead, s.readCalls);
    MultipleUpTo(t.smallestRead, s.smallestRead, s.readCalls);
    MultipleUpTo(s.largestRead, t.largestRead, s.readCalls);
  }

  lemma OneMoreCall(size: nat, calls: nat)
    ensures size * (calls + 1) == size * calls + size
  {
  }

  lemma CountedWhole(s: Statistics, completed: nat, total: nat, returned: nat, chunk: nat)
    requires WholeChunks(s, completed, total, chunk) && completed < total
    requires 0 < returned <= Min(chunk, total - completed)
    ensures WholeChunks(Counted(s, returned, Min(chunk, total - completed)), completed + returned, total, chunk)
  {
    assert (s.readCalls + 1) * chunk == s.readCalls * chunk + chunk;
  }

  /** The statistics while a transfer of `total` bytes is under way, after these calls. */
  ghost predicate Tallied(s: Statistics, calls: seq<Call>, total: nat, chunk: nat) {
    && Measures(s, Fragments(calls)) && AskedFor(calls, total, chunk)
    && Consistent(s, Taken(calls), chunk) && WholeChunks(s, Taken(calls), total, chunk)
  }

  lemma TalliedMore(s: Statistics, calls: seq<Call>, call: Call, total: nat, chunk: nat)
    requires Tallied(s, calls, total, chunk) && Taken(calls) < total && chunk <= SIZE_MAX
    requires call.requested == Min(chunk, total - Taken(calls)) && call.Returned() <= call.requested
    ensures Taken(calls + [call]) == Taken(calls) + call.Returned()
    ensures call.Returned() == 0 ==> Tallied(s, calls + [call], total, chunk)
    ensures call.Returned() > 0 ==>
      Tallied(Counted(s, call.Returned(), call.requested), calls + [call], total, chunk)
  {
    hide Taken, Fragments, Shorts, Measures, AskedFor, Consistent, WholeChunks, Counted;
    OneMoreOf(calls, call);
    OneMoreAsked(calls, call, total, chunk);
    if call.Returned() > 0 {
      CountedMeasures(s, Fragments(calls), call);
      CountedConsistent(s, Taken(calls), call.Returned(), call.requested, chunk);
      CountedWhole(s, Taken(calls), total, call.Returned(), chunk);
    } else {
      assert Fragments(calls) + [] == Fragments(calls);
    }
  }

  lemma TalliedNone(s: Statistics, total: nat, chunk: nat)
    requires s.readCalls == 0 && s.shortReads == 0 && s.smallestRead == SIZE_MAX && s.largestRead == 0
    ensures Tallied(s, [], total, chunk) && Taken([]) == 0
  {
  }

  /** Without a short read, the number of calls is the length in chunks, rounded up. */
  lemma CallsWithoutShortReads(s: Statistics, total: nat, chunk: nat)
    requires 0 < total && 0 < chunk && s.shortReads == 0
    requires WholeChunks(s, total, total, chunk)
    ensures s.readCalls == (total + chunk - 1) / chunk
  {
    var q := (total + chunk - 1) / chunk;
    RoundUp(total, chunk);
    assert (s.readCalls - 1) * chunk == s.readCalls * chunk - chunk;
    MultipleBelow(q, s.readCalls, chunk);
    MultipleBelow(s.readCalls, q, chunk);
  }

  /** Past the overflow checks no sum or product of the alignment arithmetic leaves 64 bits. */
  lemma AlignmentFits(n: nat, beat: nat)
    requires 0 < beat <= SIZE_MAX && n <= SIZE_MAX - beat + 1
    ensures n + beat - 1 <= SIZE_MAX && RoundedUp(n, beat) <= n + beat - 1
  {
    RoundUp(n, beat);
  }

  // ---------------------------------------------------------------------------------------------
  // The registers

  const ADDRESS_LOW: nat := 0x08
  const LENGTH_LOW: nat := 0x18
  const START: word := 0x8000_0000

  /** A transfer that the core was told to start. */
  datatype Transfer = Transfer(address: nat, length: nat)

  /** The core has not finished. */
  predicate Busy(status: word) {
    status & 0x8000_0000 != 0
  }

  predicate Failed(status: word) {
    status & 0x4000_0000 != 0
  }

  predicate Complete(status: word) {
    status & 0x2000_0000 != 0
  }

  function Upper(value: nat): nat {
    value / 0x1_0000_0000
  }

  function Lower(value: nat): nat {
    value % 0x1_0000_0000
  }

  /**
   The register block: address and length in two halves each, and a start bit. `transfers` is what was
   started so far, and `seen` every status that was read.
   */
  class Mm2sRegisters {
    var halves: map<nat, nat>
    ghost var transfers: seq<Transfer>
    ghost var seen: seq<word>

    constructor ()
      ensures transfers == [] && seen == []
    {
      halves, transfers, seen := map[], [], [];
    }

    /** What two neighbouring registers hold together. */
    ghost function Pair(low: nat): nat
      reads this
    {
      if low in halves && low + 4 in halves then halves[low] + 0x1_0000_0000 * halves[low + 4] else 0
    }

    method Write32(offset: nat, value: nat)
      requires offset in {0x08, 0x0c, 0x18, 0x1c} && value <= UINT32_MAX
      modifies this`halves
      ensures halves == old(halves)[offset := value]
    {
      halves := halves[offset := value];
    }

    /** The start bit takes address and length as they are then. */
    method WriteControl(value: word)
      modifies this`transfers
      ensures transfers == old(transfers) + if Busy(value) then [Transfer(Pair(0x08), Pair(0x18))] else []
    {
      if Busy(value) {
        transfers := transfers + [Transfer(Pair(0x08), Pair(0x18))];
      }
    }

    method ReadControl() returns (value: word)
      modifies this`seen
      ensures seen == old(seen) + [value]
    {
      value := *;
      seen := seen + [value];
    }
  }

  predicate SawBusy(seen: seq<word>) {
    seen != [] && Busy(seen[|seen| - 1])
  }

  /** The core was seen idle, and complete without an error when it was looked at once more. */
  predicate SawCompletion(seen: seq<word>) {
    |seen| >= 2 && !Busy(seen[|seen| - 2]) && Complete(seen[|seen| - 1]) && !Failed(seen[|seen| - 1])
  }

  predicate SawFailure(seen: seq<word>) {
    |seen| >= 2 && !Busy(seen[|seen| - 2]) && (Failed(seen[|seen| - 1]) || !Complete(seen[|seen| - 1]))
  }

  lemma StartsTransfer()
    ensures Busy(START)
  {
  }

  lemma Halves(value: nat)
    requires value <= SIZE_MAX
    ensures Lower(value) <= UINT32_MAX && Upper(value) <= UINT32_MAX
    ensures value == Lower(value) + 0x1_0000_0000 * Upper(value)
  {
  }

  class AxiMm2s {
    const registers: Mm2sRegisters
    const stream: C2hStream
    const clock: Clock
    const beat: nat

    constructor (registers: Mm2sRegisters, stream: C2hStream, clock: Clock, beat: nat)
      ensures this.registers == registers && this.stream == stream && this.clock == clock && this.beat == beat
    {
      this.registers, this.stream, this.clock, this.beat := registers, stream, clock, beat;
    }

    /** A beat is a positive multiple of 32 bits that a size can hold. */
    predicate Valid() {
      4 <= beat <= SIZE_MAX && beat % 4 == 0
    }

    static method Create(registers: Mm2sRegisters, stream: C2hStream, clock: Clock, beat: nat)
      returns (r: Result<AxiMm2s>)
      requires beat <= SIZE_MAX
      ensures r.Ok? <==> beat > 0 && beat % 4 == 0
      ensures r.Ok? ==> r.value.Valid() && r.value.registers == registers && r.value.stream == stream
      ensures r.Ok? ==> r.value.clock == clock && r.value.beat == beat
      ensures r.Err? ==> r.error == InvalidArgument
    {
      if beat < 4 || beat % 4 != 0 {
        return Err(InvalidArgument);
      }
      var driver := new AxiMm2s(registers, stream, clock, beat);
      return Ok(driver);
    }

    /** The padded length or chunk would not fit a size, or the length not the 32-bit register. */
    predicate Overflows(byteCount: nat, maxBytesPerRead: nat)
      requires Valid()
    {
      || byteCount > SIZE_MAX - beat + 1
      || RoundedUp(byteCount, beat) > UINT32_MAX
      || maxBytesPerRead > SIZE_MAX - beat + 1
    }

    method Write64(offset: nat, value: nat)
      requires offset in {0x08, 0x18} && value <= SIZE_MAX
      modifies registers`halves
      ensures registers.Pair(offset) == value
      ensures forall other :: other in {0x08, 0x18} && other != offset ==>
        registers.Pair(other) == old(registers.Pair(other))
    {
      Halves(value);
      registers.Write32(offset, Lower(value));
      registers.Write32(offset + 4, Upper(value));
    }

    /** One transfer is started, of `length` bytes from `address`. */
    method Start(address: nat, length: nat)
      requires address <= SIZE_MAX && length <= SIZE_MAX
      modifies registers`halves, registers`transfers
      ensures registers.transfers == old(registers.transfers) + [Transfer(address, length)]
    {
      Write64(ADDRESS_LOW, address);
      Write64(LENGTH_LOW, length);
      StartsTransfer();
      registers.WriteControl(START);
    }

    /** Wait for the core to go idle, then look at its status again: late, failed or complete. */
    method Finish(deadline: nat) returns (r: Result<()>)
      modifies registers`seen, clock
      ensures old(registers.seen) < registers.seen
      ensures r.Ok? ==> SawCompletion(registers.seen)
      ensures r.Err? ==> r.error == Timeout || r.error == TransferFailed
      ensures r == Err(Timeout) ==> SawBusy(registers.seen) && clock.time >= deadline
      ensures r == Err(TransferFailed) ==> SawFailure(registers.seen)
    {
      hide Busy, Failed, Complete;
      var now: nat;
      var status := registers.ReadControl();
      while Busy(status)
        invariant old(registers.seen) < registers.seen && registers.seen[|registers.seen| - 1] == status
        decreases deadline - clock.time
      {
        now := clock.Now();
        if now >= deadline {
          return Err(Timeout);
        }
        status := registers.ReadControl();
      }
      status := registers.ReadControl();
      if Failed(status) || !Complete(status) {
        return Err(TransferFailed);
      }
      return Ok(());
    }

    method Read(address: nat, byteCount: nat, timeoutMs: int, maxBytesPerRead: nat)
      returns (r: Result<seq<byte>>, statistics: Statistics)
      requires Valid() && address <= SIZE_MAX && byteCount <= SIZE_MAX && maxBytesPerRead <= SIZE_MAX
      modifies registers, stream, clock
      // never more than the padded length, however the call ends
      ensures old(stream.delivered) <= stream.delivered
      ensures |stream.delivered| <= |old(stream.delivered)| + RoundedUp(byteCount, beat)
      // the hardware is asked for the padded length, once, or not at all
      ensures
        if timeoutMs > 0 && byteCount > 0 && !Overflows(byteCount, maxBytesPerRead) then
          && registers.transfers == old(registers.transfers) + [Transfer(address, RoundedUp(byteCount, beat))]
          && RoundedUp(byteCount, beat) <= UINT32_MAX
        else
          && registers.transfers == old(registers.transfers) && registers.seen == old(registers.seen)
          && stream.delivered == old(stream.delivered) && stream.calls == old(stream.calls)
      ensures timeoutMs <= 0 <==> r == Err(InvalidArgument)
      ensures timeoutMs > 0 && byteCount == 0 ==> r == Ok([]) && statistics == NO_STATISTICS
      ensures r == Err(LengthOverflow) <==> timeoutMs > 0 && byteCount > 0 && Overflows(byteCount, maxBytesPerRead)
      // conservation: everything asked for is taken from the stream, and the padding is dropped
      ensures r.Ok? ==>
        var taken := stream.delivered[|old(stream.delivered)|..];
        |taken| == RoundedUp(byteCount, beat) && byteCount <= |taken| && r.value == taken[..byteCount]
      ensures r.Ok? && byteCount > 0 ==> SawCompletion(registers.seen)
      // the statistics are those of the calls that were made
      ensures old(stream.calls) <= stream.calls
      ensures r.Ok? && byteCount > 0 ==>
        var chunk, calls := Max(beat, RoundedUp(maxBytesPerRead, beat)), stream.calls[|old(stream.calls)|..];
        && statistics.logicalBytes == byteCount && statistics.transportBytes == RoundedUp(byteCount, beat)
        && Tallied(statistics, calls, statistics.transportBytes, chunk)
        && Taken(calls) == statistics.transportBytes
      // every other end has its reason in the stream or in the status
      ensures r == Err(SystemFailure) ==> LastFailed(stream.calls, SystemFailure)
      ensures r == Err(TransferFailed) ==> SawFailure(registers.seen)
      ensures r == Err(Timeout) ==>
        LastFailed(stream.calls, Timeout) || clock.time >= old(clock.time) + timeoutMs * 1_000_000
      ensures r.Err? ==> r.error in {InvalidArgument, LengthOverflow, Timeout, SystemFailure, TransferFailed}
    {
      hide Tallied, Taken;
      statistics := NO_STATISTICS;
      if timeoutMs <= 0 {
        return Err(InvalidArgument), statistics;
      }
      RoundedUpIsLeast(byteCount, beat);
      if byteCount == 0 {
        SmallRemainder(beat - 1, beat);
        return Ok([]), statistics;
      }
      if byteCount > SIZE_MAX - beat + 1 {
        return Err(LengthOverflow), statistics;
      }
      var transportBytes := RoundedUp(byteCount, beat);
      if transportBytes > UINT32_MAX {
        return Err(LengthOverflow), statistics;
      }
      if maxBytesPerRead > SIZE_MAX - beat + 1 {
        return Err(LengthOverflow), statistics;
      }
      RoundedUpIsLeast(maxBytesPerRead, beat);
      var chunkBytes := Max(beat, RoundedUp(maxBytesPerRead, beat));
      var result := new byte[transportBytes];
      var now := clock.Now();
      var deadline := now + timeoutMs * MILLISECOND;
      Start(address, transportBytes);
      var measured := Statistics(byteCount, transportBytes, 0, 0, SIZE_MAX, 0);
      var collected;
      collected, measured := Collect(result, chunkBytes, measured, deadline);
      if collected.Err? {
        return Err(collected.error), statistics;
      }
      var finished := Finish(deadline);
      if finished.Err? {
        return Err(finished.error), statistics;
      }
      statistics := measured;
      return Ok(result[..byteCount]), statistics;
    }

    /** Fill the buffer from the stream, counting the fragments. */
    method Collect(result: array<byte>, chunkBytes: nat, started: Statistics, deadline: nat)
      returns (r: Result<()>, measured: Statistics)
      requires result as object != stream && 0 < chunkBytes <= SIZE_MAX
      requires started.readCalls == started.shortReads == started.largestRead == 0 && started.smallestRead == SIZE_MAX
      modifies stream, clock, result
      ensures old(stream.delivered) <= stream.delivered && old(stream.calls) <= stream.calls
      ensures |stream.delivered| <= |old(stream.delivered)| + result.Length
      ensures r.Ok? ==> |stream.delivered| == |old(stream.delivered)| + result.Length
      ensures r.Ok? ==> result[..] == stream.delivered[|old(stream.delivered)|..]
      ensures r.Ok? ==>
        var calls := stream.calls[|old(stream.calls)|..];
        && Tallied(measured, calls, result.Length, chunkBytes) && Taken(calls) == result.Length
        && measured.logicalBytes == started.logicalBytes && measured.transportBytes == started.transportBytes
      ensures r.Err? ==> r.error == Timeout || (r.error == SystemFailure && LastFailed(stream.calls, SystemFailure))
      ensures r == Err(Timeout) ==> LastFailed(stream.calls, Timeout) || clock.time >= deadline
    {
      hide Tallied, Taken;
      measured := started;
      ghost var calls: seq<Call> := [];
      var completed := 0;
      var now: nat;
      TalliedNone(started, result.Length, chunkBytes);
      while completed < result.Length
        invariant completed == Taken(calls) <= result.Length && old(stream.delivered) <= stream.delivered
        invariant |stream.delivered| == |old(stream.delivered)| + completed
        invariant result[..completed] == stream.delivered[|old(stream.delivered)|..]
        invariant stream.calls == old(stream.calls) + calls && Tallied(measured, calls, result.Length, chunkBytes)
        invariant measured.logicalBytes == started.logicalBytes && measured.transportBytes == started.transportBytes
        decreases deadline - clock.time
      {
        now := clock.Now();
        if now >= deadline {
          return Err(Timeout), measured;
        }
        var requested := Min(chunkBytes, result.Length - completed);
        ghost var before := stream.delivered;
        var count := stream.ReadC2H(result, completed, requested);
        if count.Err? {
          return Err(count.error), measured;
        }
        assert stream.delivered[|old(stream.delivered)|..]
            == before[|old(stream.delivered)|..] + stream.delivered[|before|..];
        ghost var call := Call(requested, count);
        TalliedMore(measured, calls, call, result.Length, chunkBytes);
        calls := calls + [call];
        if count.value == 0 {
          continue;
        }
        if count.value > requested {
          return Err(InvalidFragment), measured;
        }
        measured := Counted(measured, count.value, requested);
        completed := completed + count.value;
      }
      assert result[..] == result[..completed];
      return Ok(()), measured;
    }
  }
}
