/** The transport and the retry rule of `fetchDataBlockFromDevice`
    (main.js:641-679), as functions of the replies the device will give. Each
    `sendCommand` (main.js:797-830) first waits 2000 ms, then opens a socket and
    takes the first `data` event as the reply, or rejects with the socket's error
    or with "Connection closed unexpectedly". */
module Retry {
  import opened Wrappers
  import opened Bytes

  /** What one `sendCommand` yields. */
  datatype Reply = Data(bytes: seq<Byte>) | Failure(message: string)

  const MaxRetries: nat := 5
  const CommandSpacingMs: nat := 2000
  const ConnectionClosed: string := "Connection closed unexpectedly"
  const MaxRetriesReached: string := "Max retries reached. Unable to communicate with device."

  /** The reply to the i-th command from now. Once the given replies run out,
      the socket closes without data. */
  function Outcome(pending: seq<Reply>, i: nat): Reply {
    if i < |pending| then pending[i] else Failure(ConnectionClosed)
  }

  /** The replies left after n commands. */
  function Drop(pending: seq<Reply>, n: nat): seq<Reply> {
    if n <= |pending| then pending[n..] else []
  }

  lemma DropOutcome(pending: seq<Reply>, n: nat, i: nat)
    ensures Outcome(Drop(pending, n), i) == Outcome(pending, n + i)
  {
  }

  lemma DropDrop(pending: seq<Reply>, m: nat, n: nat)
    ensures Drop(Drop(pending, m), n) == Drop(pending, m + n)
  {
  }

  /** The retry loop keeps a reply only when it is data longer than one byte. */
  predicate Accepted(reply: Reply) {
    reply.Data? && |reply.bytes| > 1
  }

  /** The result of the retry loop and the number of commands it sent. */
  datatype Fetched = Fetched(result: Result<seq<Byte>>, attempts: nat)

  /** The retry loop from attempt number `attempt` on. */
  function FetchFrom(pending: seq<Reply>, attempt: nat): Fetched
    requires attempt <= MaxRetries
    decreases MaxRetries - attempt
  {
    if attempt == MaxRetries then Fetched(Err(MaxRetriesReached), attempt)
    else
      var reply := Outcome(pending, attempt);
      if Accepted(reply) then Fetched(Ok(reply.bytes), attempt + 1)
      else FetchFrom(pending, attempt + 1)
  }

  /** `fetchDataBlockFromDevice` on the given replies. */
  function Fetch(pending: seq<Reply>): Fetched {
    FetchFrom(pending, 0)
  }

  /** From attempt `attempt` on, the loop resolves with the first accepted reply
      before the fifth command, and rejects after five commands otherwise. */
  lemma {:induction false} FetchFromSpec(pending: seq<Reply>, attempt: nat)
    requires attempt <= MaxRetries
    ensures var f := FetchFrom(pending, attempt);
      && (f.result.Ok? ==>
            && attempt < f.attempts <= MaxRetries
            && Accepted(Outcome(pending, f.attempts - 1))
            && f.result.value == Outcome(pending, f.attempts - 1).bytes
            && forall j | attempt <= j < f.attempts - 1 :: !Accepted(Outcome(pending, j)))
      && (f.result.Err? ==>
            && f.attempts == MaxRetries
            && f.result.error == MaxRetriesReached
            && forall j | attempt <= j < MaxRetries :: !Accepted(Outcome(pending, j)))
    decreases MaxRetries - attempt
  {
    if attempt < MaxRetries && !Accepted(Outcome(pending, attempt)) {
      FetchFromSpec(pending, attempt + 1);
    }
  }

  /** `fetchDataBlockFromDevice` sends between one and five commands. It
      resolves exactly when one of the first five replies is data longer than
      one byte, with the first such reply, and otherwise rejects after five
      commands with "Max retries reached". A reply of one byte or less is never
      returned. */
  lemma FetchSpec(pending: seq<Reply>)
    ensures var f := Fetch(pending);
      && 1 <= f.attempts <= MaxRetries
      && (f.result.Ok? <==> exists j | 0 <= j < MaxRetries :: Accepted(Outcome(pending, j)))
      && (f.result.Ok? ==>
            && Accepted(Outcome(pending, f.attempts - 1))
            && f.result.value == Outcome(pending, f.attempts - 1).bytes
            && |f.result.value| > 1
            && forall j | 0 <= j < f.attempts - 1 :: !Accepted(Outcome(pending, j)))
      && (f.result.Err? ==> f.attempts == MaxRetries && f.result.error == MaxRetriesReached)
  {
    FetchFromSpec(pending, 0);
    var f := Fetch(pending);
    if f.result.Ok? {
      assert Accepted(Outcome(pending, f.attempts - 1));
    }
  }
}
