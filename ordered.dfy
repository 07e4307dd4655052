/** The delivery discipline of `futures::stream::FuturesOrdered`: futures pushed in some
    order complete in any order, and their outputs are handed to the consumer in push
    order through a re-sequencing buffer keyed by push index. */
module Ordered {

  /** `completion` lists the push indices of `n` futures in the order they complete:
      every entry is a real index and every future completes at some point. */
  predicate IsCompletionOrder(completion: seq<nat>, n: nat)
  {
    && (forall j :: 0 <= j < |completion| ==> completion[j] < n)
    && (forall i :: 0 <= i < n ==> i in completion)
  }

  /** Runs the stream to exhaustion. Each completed output is parked in `ready` under its
      push index; whenever the output the consumer is waiting for is parked, it is handed
      over and removed. Whatever the completion order, the consumer sees `pushed` exactly. */
  method Deliver<T>(pushed: seq<T>, completion: seq<nat>) returns (delivered: seq<T>)
    requires IsCompletionOrder(completion, |pushed|)
    ensures delivered == pushed
  {
    var ready: map<nat, T> := map[];
    delivered := [];
    var k := 0;
    while k < |completion|
      invariant 0 <= k <= |completion|
      invariant |delivered| <= |pushed| && delivered == pushed[..|delivered|]
      invariant forall i :: i in ready ==> |delivered| < i < |pushed| && ready[i] == pushed[i]
      invariant forall j :: 0 <= j < k ==> completion[j] in ready || completion[j] < |delivered|
    {
      var c := completion[k];
      if c >= |delivered| {
        ready := ready[c := pushed[c]];
      }
      while |delivered| in ready
        invariant |delivered| <= |pushed| && delivered == pushed[..|delivered|]
        invariant forall i :: i in ready ==> |delivered| <= i < |pushed| && ready[i] == pushed[i]
        invariant forall j :: 0 <= j <= k ==> completion[j] in ready || completion[j] < |delivered|
        decreases |pushed| - |delivered|
      {
        var next := |delivered|;
        delivered := delivered + [ready[next]];
        ready := ready - {next};
      }
      k := k + 1;
    }
    // Every future has completed, so every index is either delivered or parked; and
    // nothing is parked under the index the consumer waits for.
    forall i | 0 <= i < |pushed|
      ensures i < |delivered| || i in ready
    {
      assert i in completion;
      var j :| 0 <= j < |completion| && completion[j] == i;
    }
    assert |delivered| !in ready;
    assert |delivered| == |pushed|;
    assert pushed[..|pushed|] == pushed;
  }
}
