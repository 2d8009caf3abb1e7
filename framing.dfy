/**
 * The framed read both flows of ui/main/MainFragment.kt perform after writing
 * to the lock: poll the socket every 5 ms until a deadline, append whatever
 * is available to a fixed-size ByteBuffer, and stop at the first chunk whose
 * LAST byte is the sentinel 0x20.
 *
 * Time is counted in polls: what one poll finds available is one element
 * of `chunks` (an empty element when nothing was available), and the
 * deadline allows `budget` polls. Polls past the end of `chunks` find nothing.
 */
module Framing {
  import opened Wrappers
  import opened Bytes
  import opened Sequences

  /** The ByteBuffer sizes of the pairing and the unlock read. */
  const PAIRING_CAPACITY: nat := 32
  const UNLOCK_CAPACITY: nat := 16

  /** The `withTimeoutOrNull` deadlines, in milliseconds, and the `delay` between polls. */
  const PAIRING_DEADLINE_MS: nat := 300
  const UNLOCK_DEADLINE_MS: nat := 200
  const POLL_DELAY_MS: nat := 5

  /** The number of polls that fit before a deadline. */
  function PollBudget(deadlineMs: nat): nat {
    deadlineMs / POLL_DELAY_MS
  }

  /**
   * How a read ends: the bytes up to and including the terminating chunk,
   * the deadline passing (`withTimeoutOrNull` gives null), or a chunk that
   * does not fit in what is left of the buffer (`BufferOverflowException`).
   */
  datatype ReadOutcome = Response(bytes: seq<byte>) | Timeout | Overflow

  /** The bytes of a run of chunks, one after the other. */
  function Flatten(chunks: seq<seq<byte>>): seq<byte> {
    if chunks == [] then [] else Flatten(chunks[..|chunks| - 1]) + chunks[|chunks| - 1]
  }

  /** A chunk ends the read when its last byte is the sentinel; a sentinel anywhere else does not count. */
  predicate Terminates(chunk: seq<byte>) {
    chunk != [] && chunk[|chunk| - 1] == SENTINEL
  }

  /** The chunks the first `budget` polls find. */
  function Polled(chunks: seq<seq<byte>>, budget: nat): seq<seq<byte>> {
    if budget < |chunks| then chunks[..budget] else chunks
  }

  /**
   * What the read gives, stated on all the chunks at once: the first
   * terminating chunk within the budget decides a response, provided all
   * the bytes up to it fit; without one, the deadline passes, unless the
   * bytes polled already overflowed the buffer.
   */
  function ReadSpec(chunks: seq<seq<byte>>, capacity: nat, budget: nat): ReadOutcome {
    var polled := Polled(chunks, budget);
    match FirstIndex(polled, Terminates)
    case Some(k) =>
      if |Flatten(polled[..k + 1])| <= capacity then Response(Flatten(polled[..k + 1])) else Overflow
    case None =>
      if |Flatten(polled)| <= capacity then Timeout else Overflow
  }

  /**
   * The poll loop: a fresh buffer of `capacity` bytes, `budget` polls, and
   * a stop at the first poll that ends the read.
   */
  method ReadFramed(chunks: seq<seq<byte>>, capacity: nat, budget: nat) returns (r: ReadOutcome)
    ensures r == ReadSpec(chunks, capacity, budget)
  {
    var buffer := new byte[capacity];
    var position: nat := 0;
    var t := 0;
    while t < budget
      invariant t <= budget
      invariant Unterminated(chunks, t)
      invariant position == |Flatten(Polled(chunks, t))| <= capacity == buffer.Length
      invariant buffer[..position] == Flatten(Polled(chunks, t))
    {
      var outcome;
      outcome, position := Poll(chunks, capacity, budget, t, buffer, position);
      if outcome.Some? {
        return outcome.value;
      }
      t := t + 1;
    }
    NoTerminatorTimesOut(chunks, capacity, budget);
    return Timeout;
  }

  /**
   * Poll `t`: whatever is available is read; a non-empty chunk is put in
   * the buffer after the room for it is checked, and ends the read when its
   * last byte is the sentinel.
   */
  method Poll(chunks: seq<seq<byte>>, capacity: nat, budget: nat, t: nat, buffer: array<byte>, position: nat)
    returns (outcome: Option<ReadOutcome>, next: nat)
    requires t < budget && Unterminated(chunks, t)
    requires position == |Flatten(Polled(chunks, t))| <= capacity == buffer.Length
    requires buffer[..position] == Flatten(Polled(chunks, t))
    modifies buffer
    ensures outcome.Some? ==> outcome.value == ReadSpec(chunks, capacity, budget)
    ensures outcome.None? ==>
      && Unterminated(chunks, t + 1)
      && next == |Flatten(Polled(chunks, t + 1))| <= capacity
      && buffer[..next] == Flatten(Polled(chunks, t + 1))
  {
    var bytes := PollAt(chunks, t);
    PolledStep(chunks, t);
    next := position;
    if |bytes| > 0 {
      if |bytes| > capacity - position {
        ReadSpecOverflow(chunks, capacity, budget, t);
        return Some(Overflow), next;
      }
      Put(buffer, position, bytes);
      next := position + |bytes|;
      if bytes[|bytes| - 1] == SENTINEL {
        ReadSpecResponse(chunks, capacity, budget, t);
        return Some(Response(buffer[..next])), next;
      }
    } else {
      assert Flatten(Polled(chunks, t)) + bytes == Flatten(Polled(chunks, t));
    }
    UnterminatedStep(chunks, t);
    outcome := None;
  }

  /** `ByteBuffer.put` of a chunk there is room for: the chunk lands after the `position` bytes already there. */
  method Put(buffer: array<byte>, position: nat, bytes: seq<byte>)
    requires position + |bytes| <= buffer.Length
    modifies buffer
    ensures buffer[..position + |bytes|] == old(buffer[..position]) + bytes
  {
    var j := 0;
    while j < |bytes|
      invariant j <= |bytes|
      invariant buffer[..position + j] == old(buffer[..position]) + bytes[..j]
    {
      buffer[position + j] := bytes[j];
      assert bytes[..j + 1] == bytes[..j] + [bytes[j]];
      j := j + 1;
    }
    assert bytes[..j] == bytes;
  }

  /** The chunk poll `t` finds: nothing once the chunks have run out. */
  function PollAt(chunks: seq<seq<byte>>, t: nat): seq<byte> {
    if t < |chunks| then chunks[t] else []
  }

  /** One more poll adds the chunk it finds to what was polled, and its bytes to the bytes polled. */
  lemma PolledStep(chunks: seq<seq<byte>>, t: nat)
    ensures Polled(chunks, t + 1) == if t < |chunks| then Polled(chunks, t) + [chunks[t]] else Polled(chunks, t)
    ensures Flatten(Polled(chunks, t + 1)) == Flatten(Polled(chunks, t)) + PollAt(chunks, t)
  {
    if t < |chunks| {
      var s := Polled(chunks, t) + [chunks[t]];
      assert s[..|s| - 1] == Polled(chunks, t);
    } else {
      assert Flatten(Polled(chunks, t)) + [] == Flatten(Polled(chunks, t));
    }
  }

  /** None of the chunks the first `t` polls find terminates. */
  predicate Unterminated(chunks: seq<seq<byte>>, t: nat) {
    forall j :: 0 <= j < t && j < |chunks| ==> !Terminates(chunks[j])
  }

  lemma UnterminatedStep(chunks: seq<seq<byte>>, t: nat)
    requires Unterminated(chunks, t) && !Terminates(PollAt(chunks, t))
    ensures Unterminated(chunks, t + 1)
  {
  }

  /** The bytes of a shorter run of chunks are a prefix of those of a longer one. */
  lemma {:induction false} FlattenPrefix(s: seq<seq<byte>>, i: nat)
    requires i <= |s|
    ensures Flatten(s[..i]) <= Flatten(s)
  {
    if i < |s| {
      assert s[..|s| - 1][..i] == s[..i];
      FlattenPrefix(s[..|s| - 1], i);
    } else {
      assert s[..i] == s;
    }
  }

  /** A chunk that does not fit makes the whole read an overflow, whatever comes after it. */
  lemma ReadSpecOverflow(chunks: seq<seq<byte>>, capacity: nat, budget: nat, t: nat)
    requires t < budget && t < |chunks|
    requires Unterminated(chunks, t)
    requires |Flatten(Polled(chunks, t + 1))| > capacity
    ensures ReadSpec(chunks, capacity, budget) == Overflow
  {
    var polled := Polled(chunks, budget);
    assert polled[..t + 1] == Polled(chunks, t + 1);
    match FirstIndex(polled, Terminates)
    case Some(k) =>
      assert forall j :: 0 <= j < t ==> polled[j] == chunks[j];
      assert k >= t;
      FlattenGrows(polled, t + 1, k + 1);
    case None =>
      assert polled[..|polled|] == polled;
      FlattenGrows(polled, t + 1, |polled|);
  }

  /** More chunks never mean fewer bytes. */
  lemma FlattenGrows(s: seq<seq<byte>>, i: nat, j: nat)
    requires i <= j <= |s|
    ensures |Flatten(s[..i])| <= |Flatten(s[..j])|
  {
    assert s[..j][..i] == s[..i];
    FlattenPrefix(s[..j], i);
  }

  /** A terminating chunk that fits, after none before it terminated, gives the response of all bytes so far. */
  lemma ReadSpecResponse(chunks: seq<seq<byte>>, capacity: nat, budget: nat, t: nat)
    requires t < budget && t < |chunks|
    requires Unterminated(chunks, t)
    requires Terminates(chunks[t])
    requires |Flatten(Polled(chunks, t + 1))| <= capacity
    ensures ReadSpec(chunks, capacity, budget) == Response(Flatten(Polled(chunks, t + 1)))
  {
    var polled := Polled(chunks, budget);
    assert polled[..t + 1] == Polled(chunks, t + 1);
    assert polled[t] == chunks[t];
    assert forall j :: 0 <= j < t ==> polled[j] == chunks[j];
    FirstIndexAt(polled, Terminates, t);
  }
  /** The last byte of a run of chunks is the last byte of its last chunk, when that chunk has one. */
  lemma FlattenLast(s: seq<seq<byte>>)
    requires s != [] && s[|s| - 1] != []
    ensures var f := Flatten(s); f != [] && f[|f| - 1] == s[|s| - 1][|s[|s| - 1]| - 1]
  {
  }

  /**
   * A response is the bytes of every chunk up to the first one that
   * terminates within the budget; it ends with the sentinel and fits the
   * buffer.
   */
  lemma ResponseFrame(chunks: seq<seq<byte>>, capacity: nat, budget: nat)
    requires ReadSpec(chunks, capacity, budget).Response?
    ensures Terminates(ReadSpec(chunks, capacity, budget).bytes)
    ensures |ReadSpec(chunks, capacity, budget).bytes| <= capacity
    ensures exists k ::
      && 0 <= k < budget && k < |chunks| && Terminates(chunks[k])
      && (forall j :: 0 <= j < k ==> !Terminates(chunks[j]))
      && ReadSpec(chunks, capacity, budget).bytes == Flatten(chunks[..k + 1])
  {
    var k := RespondingChunk(chunks, capacity, budget);
    FlattenLast(chunks[..k + 1]);
  }

  /** A response is a prefix of everything the lock sent: nothing is reordered or skipped. */
  lemma ResponsePrefix(chunks: seq<seq<byte>>, capacity: nat, budget: nat)
    requires ReadSpec(chunks, capacity, budget).Response?
    ensures ReadSpec(chunks, capacity, budget).bytes <= Flatten(chunks)
  {
    var k := RespondingChunk(chunks, capacity, budget);
    FlattenPrefix(chunks, k + 1);
  }

  /** The chunk that ended a read with a response, stated on all the chunks. */
  lemma RespondingChunk(chunks: seq<seq<byte>>, capacity: nat, budget: nat) returns (k: nat)
    requires ReadSpec(chunks, capacity, budget).Response?
    ensures k < budget && k < |chunks| && Terminates(chunks[k])
    ensures forall j :: 0 <= j < k ==> !Terminates(chunks[j])
    ensures ReadSpec(chunks, capacity, budget) == Response(Flatten(chunks[..k + 1]))
  {
    var polled := Polled(chunks, budget);
    k := FirstIndex(polled, Terminates).value;
    assert polled[..k + 1] == chunks[..k + 1];
    assert forall j :: 0 <= j < k ==> chunks[j] == polled[j];
  }

  /** Conversely, the first terminating chunk within the budget gives that response when the bytes up to it fit. */
  lemma TerminatorAnswers(chunks: seq<seq<byte>>, capacity: nat, budget: nat, k: nat)
    requires k < budget && k < |chunks| && Terminates(chunks[k])
    requires forall j :: 0 <= j < k ==> !Terminates(chunks[j])
    requires |Flatten(chunks[..k + 1])| <= capacity
    ensures ReadSpec(chunks, capacity, budget) == Response(Flatten(chunks[..k + 1]))
  {
    var polled := Polled(chunks, budget);
    assert polled[k] == chunks[k];
    assert forall j :: 0 <= j < k ==> polled[j] == chunks[j];
    assert FirstIndex(polled, Terminates) == Some(k);
    assert polled[..k + 1] == chunks[..k + 1];
  }

  /** Without a terminating chunk within the budget the read times out, unless what was polled overflowed. */
  lemma NoTerminatorTimesOut(chunks: seq<seq<byte>>, capacity: nat, budget: nat)
    requires forall j :: 0 <= j < budget && j < |chunks| ==> !Terminates(chunks[j])
    ensures ReadSpec(chunks, capacity, budget) ==
      if |Flatten(Polled(chunks, budget))| <= capacity then Timeout else Overflow
  {
    var polled := Polled(chunks, budget);
    assert forall j :: 0 <= j < |polled| ==> polled[j] == chunks[j];
  }

  /** A sentinel that is not the last byte of its chunk ends nothing: the unlock read of [0x20, 0x01] times out. */
  lemma SentinelInsideChunk()
    ensures ReadSpec([[SENTINEL, 1]], UNLOCK_CAPACITY, PollBudget(UNLOCK_DEADLINE_MS)) == Timeout
  {
    var chunks: seq<seq<byte>> := [[SENTINEL, 1]];
    assert !Terminates(chunks[0]);
    assert Flatten(chunks) == Flatten([]) + [SENTINEL, 1];
    NoTerminatorTimesOut(chunks, UNLOCK_CAPACITY, PollBudget(UNLOCK_DEADLINE_MS));
  }

  /** A sentinel that arrives only at the 41st poll is too late for the unlock deadline of 200 ms. */
  lemma LateSentinelTimesOut()
    ensures ReadSpec(seq(40, _ => []) + [[SENTINEL]], UNLOCK_CAPACITY, PollBudget(UNLOCK_DEADLINE_MS)) == Timeout
  {
    var chunks: seq<seq<byte>> := seq(40, _ => []) + [[SENTINEL]];
    var polled := Polled(chunks, 40);
    assert polled == seq(40, _ => []);
    assert forall j :: 0 <= j < 40 ==> !Terminates(chunks[j]);
    EmptyPollsFlatten(40);
    NoTerminatorTimesOut(chunks, UNLOCK_CAPACITY, 40);
  }

  lemma {:induction false} EmptyPollsFlatten(n: nat)
    ensures Flatten(seq(n, _ => [])) == []
  {
    if n > 0 {
      var s: seq<seq<byte>> := seq(n, _ => []);
      assert s[..n - 1] == seq(n - 1, _ => []);
      EmptyPollsFlatten(n - 1);
    }
  }

  /** The lone sentinel answered at once is the unlock response [0x20]. */
  lemma PromptSentinelAnswers()
    ensures ReadSpec([[SENTINEL]], UNLOCK_CAPACITY, PollBudget(UNLOCK_DEADLINE_MS)) == Response([SENTINEL])
  {
    var chunks: seq<seq<byte>> := [[SENTINEL]];
    assert chunks[..1] == chunks;
    assert Flatten(chunks) == Flatten([]) + [SENTINEL];
    TerminatorAnswers(chunks, UNLOCK_CAPACITY, PollBudget(UNLOCK_DEADLINE_MS), 0);
  }

  /** Seventeen bytes ending in the sentinel do not fit the unlock buffer of sixteen. */
  lemma LongAnswerOverflows()
    ensures ReadSpec([seq(16, _ => 0) + [SENTINEL]], UNLOCK_CAPACITY, PollBudget(UNLOCK_DEADLINE_MS)) == Overflow
  {
    var chunks: seq<seq<byte>> := [seq(16, _ => 0) + [SENTINEL]];
    assert Terminates(chunks[0]);
    assert chunks[..1] == chunks;
    assert Flatten(chunks) == Flatten([]) + chunks[0];
    var polled := Polled(chunks, PollBudget(UNLOCK_DEADLINE_MS));
    assert polled == chunks;
    assert FirstIndex(polled, Terminates) == Some(0);
  }
}
