/** The checked contract on any source of missing messages. */
module SequenceRecovery {
  import opened MarketTypes
  import opened Wire

  const MAX_PAYLOAD_SIZE: nat := 2048

  datatype SequencedMessage = SequencedMessage(sequence: nat, payload: Bytes)

  datatype CheckResult = Process | Ignore | Stop

  /** What a recovery source answers to its n-th request, for messages [from, to): None is a refusal,
      and nothing is taken for granted about the messages of an answer. */
  type Source = (nat, nat, nat) -> Option<seq<SequencedMessage>>

  /** Exactly the messages [from, to), in order. */
  ghost predicate Covers(ms: seq<SequencedMessage>, from: nat, to: nat) {
    from + |ms| == to && forall i | 0 <= i < |ms| :: ms[i].sequence == from + i
  }

  /** Recover a forward gap.  Whatever the source does, Process means that exactly the missing messages
      were returned, in order and without a hole; any other answer of the source stops the handler. */
  method Recover(source: Source, request: nat, expected: nat, received: nat)
    returns (result: CheckResult, recovered: seq<SequencedMessage>)
    requires expected < TWO_64 && received < TWO_64
    ensures result.Ignore? <==> received <= expected
    ensures result.Process? <==>
              expected < received && source(request, expected, received).Some?
              && Covers(source(request, expected, received).value, expected, received)
    ensures recovered == if result.Process? then source(request, expected, received).value else []
  {
    if received <= expected {
      return Ignore, [];
    }
    var answer := source(request, expected, received);
    if answer.None? {
      return Stop, [];
    }
    recovered := answer.value;
    var expectedCount := received - expected;
    if |recovered| != expectedCount {
      return Stop, [];
    }
    var i := 0;
    while i < |recovered|
      invariant 0 <= i <= |recovered|
      invariant forall k | 0 <= k < i :: recovered[k].sequence == expected + k
    {
      var requiredSequence := (expected + i) % TWO_64;
      if recovered[i].sequence != requiredSequence {
        return Stop, [];
      }
      i := i + 1;
    }
    return Process, recovered;
  }
}
