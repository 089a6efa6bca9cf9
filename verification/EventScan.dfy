/** Model of `_get_source_contract_events` in `rpcs/execution/http.rs`: the block range is scanned in
    chunks of at most 101 blocks, each retried up to three times with doubling delays. The provider is
    an arbitrary function of the request number and the requested blocks. */
module EventScan {
  import opened Common

  const CHUNK_SIZE: nat := 100
  const MAX_RETRIES: nat := 3
  const RETRY_BASE_DELAY: nat := 1

  datatype Reply<+L> = Failure | Logs(logs: seq<L>)

  datatype Outcome<+L> = Events(events: seq<L>) | ProviderError | Overflows

  /** Request number, first block, last block. */
  type Provider<!L> = (nat, nat, nat) -> Reply<L>

  /** The logs of the blocks start to end - 1, in order, of a chain with the given logs in each block. */
  function LogsBetween<L>(chain: nat -> seq<L>, start: nat, end: nat): seq<L>
    decreases end
  {
    if end <= start then [] else LogsBetween(chain, start, end - 1) + chain(end - 1)
  }

  lemma {:induction false} LogsJoin<L>(chain: nat -> seq<L>, start: nat, middle: nat, end: nat)
    requires start <= middle <= end
    ensures LogsBetween(chain, start, end) == LogsBetween(chain, start, middle) + LogsBetween(chain, middle, end)
    decreases end
  {
    if middle == end {
      assert LogsBetween(chain, middle, end) == [];
    } else {
      LogsJoin(chain, start, middle, end - 1);
    }
  }

  /** A provider that answers at all answers with all the logs of the requested blocks. */
  ghost predicate Honest<L(!new)>(ask: Provider<L>, chain: nat -> seq<L>) {
    forall n: nat, s: nat, e: nat :: ask(n, s, e).Logs? ==> ask(n, s, e).logs == LogsBetween(chain, s, e + 1)
  }

  /** The same chunk failed on four requests in a row, the last of them number n - 1. */
  ghost predicate GaveUp<L>(ask: Provider<L>, n: nat, first: nat, last: nat) {
    n > MAX_RETRIES && forall k: nat | n - MAX_RETRIES - 1 <= k < n :: ask(k, first, last).Failure?
  }

  method FetchChunk<L>(ask: Provider<L>, requests: nat, first: nat, last: nat)
    returns (reply: Reply<L>, requests': nat, slept: nat)
    ensures requests < requests' <= requests + MAX_RETRIES + 1
    ensures reply.Failure? ==> GaveUp(ask, requests', first, last)
    ensures reply.Logs? ==> reply == ask(requests' - 1, first, last)
    ensures slept == [0, 1, 3, 7][requests' - requests - 1] * RETRY_BASE_DELAY <= 7 * RETRY_BASE_DELAY
  {
    var retries := 0;
    requests', slept := requests, 0;
    while true
      invariant retries <= MAX_RETRIES && requests' == requests + retries
      invariant slept + RETRY_BASE_DELAY == RETRY_BASE_DELAY * Power2(retries)
      invariant forall k | requests <= k < requests' :: ask(k, first, last).Failure?
      decreases MAX_RETRIES - retries
    {
      reply := ask(requests', first, last);
      requests' := requests' + 1;
      if reply.Logs? {
        SmallPowers(retries);
        return;
      } else if retries < MAX_RETRIES {
        slept := slept + RETRY_BASE_DELAY * Power2(retries);
        retries := retries + 1;
      } else {
        SmallPowers(retries);
        return;
      }
    }
  }

  lemma SmallPowers(e: nat)
    requires e <= 3
    ensures Power2(e) == [1, 2, 4, 8][e] == [0, 1, 3, 7][e] + 1
  {
    assert Power2(0) == 1 && Power2(1) == 2 && Power2(2) == 4 && Power2(3) == 8;
  }

  function Chunks(start: nat, end: nat): nat {
    if start > end then 0 else (end - start) / (CHUNK_SIZE + 1) + 1
  }

  /** The 64-bit additions of the scan stay in range: the last chunk starts at most 100 below the limit. */
  predicate Safe(start: nat, end: nat) {
    start > end
    || (start + (CHUNK_SIZE + 1) * ((end - start) / (CHUNK_SIZE + 1)) + CHUNK_SIZE < TWO_POW_64 && end + 1 < TWO_POW_64)
  }

  lemma OneQuotientLess(n: nat)
    requires n >= CHUNK_SIZE + 1
    ensures n / (CHUNK_SIZE + 1) == (n - (CHUNK_SIZE + 1)) / (CHUNK_SIZE + 1) + 1
  {
  }

  /** Where the scan goes from block start: it ends with this chunk or moves on by 101 blocks. */
  lemma NextChunk(start: nat, end: nat)
    ensures start > end ==> Chunks(start, end) == 0 && Safe(start, end)
    ensures start <= end <= start + CHUNK_SIZE ==>
              && Chunks(start, end) == 1
              && (Safe(start, end) <==> start + CHUNK_SIZE < TWO_POW_64 && end + 1 < TWO_POW_64)
    ensures start + CHUNK_SIZE < end ==>
              && Chunks(start, end) == 1 + Chunks(start + CHUNK_SIZE + 1, end)
              && (Safe(start, end) ==> start + CHUNK_SIZE + 1 < TWO_POW_64)
              && (Safe(start, end) <==> Safe(start + CHUNK_SIZE + 1, end))
  {
    if start + CHUNK_SIZE < end {
      var n := end - start;
      OneQuotientLess(n);
    }
  }

  /** The events are those of the blocks start to end - 1 on every chain that the provider's logs can come from. */
  ghost predicate Complete<L(!new)>(ask: Provider<L>, events: seq<L>, start: nat, end: nat) {
    forall chain: nat -> seq<L> | Honest(ask, chain) :: events == LogsBetween(chain, start, end)
  }

  lemma NothingYet<L(!new)>(ask: Provider<L>, start: nat)
    ensures Complete(ask, [], start, start)
  {
  }

  lemma EmptyRange<L(!new)>(ask: Provider<L>, events: seq<L>, start: nat, end: nat)
    requires Complete(ask, events, start, start) && end <= start
    ensures Complete(ask, events, start, end)
  {
  }

  lemma ChunkJoins<L(!new)>(ask: Provider<L>, events: seq<L>, start: nat, first: nat, last: nat, n: nat)
    requires start <= first <= last + 1 && Complete(ask, events, start, first) && ask(n, first, last).Logs?
    ensures Complete(ask, events + ask(n, first, last).logs, start, last + 1)
  {
    forall chain: nat -> seq<L> | Honest(ask, chain)
      ensures events + ask(n, first, last).logs == LogsBetween(chain, start, last + 1)
    {
      LogsJoin(chain, start, first, last + 1);
    }
  }

  /** Success means one query over the whole range; failure returns nothing partial. */
  method GetSourceContractEvents<L(!new)>(ask: Provider<L>, startBlock: nat, endBlock: nat)
    returns (r: Outcome<L>, requests: nat, slept: nat)
    requires startBlock < TWO_POW_64 && endBlock < TWO_POW_64
    ensures r.Events? ==> Safe(startBlock, endBlock)
    ensures r.Overflows? ==> !Safe(startBlock, endBlock)
    ensures r.Events? ==> Complete(ask, r.events, startBlock, endBlock + 1)
    ensures r.ProviderError? ==>
              exists first, last :: startBlock <= first <= last <= endBlock && GaveUp(ask, requests, first, last)
    ensures requests <= (MAX_RETRIES + 1) * Chunks(startBlock, endBlock)
    ensures slept <= 7 * RETRY_BASE_DELAY * Chunks(startBlock, endBlock)
  {
    hide Chunks, Safe, GaveUp, Complete;
    NextChunk(startBlock, endBlock);
    NothingYet(ask, startBlock);
    var allEvents: seq<L> := [];
    var currentBlock := startBlock;
    requests, slept := 0, 0;
    ghost var done := 0;
    while currentBlock <= endBlock
      invariant startBlock <= currentBlock < TWO_POW_64
      invariant currentBlock <= endBlock + 1 || currentBlock == startBlock
      invariant done + Chunks(currentBlock, endBlock) == Chunks(startBlock, endBlock)
      invariant Safe(startBlock, endBlock) <==> Safe(currentBlock, endBlock)
      invariant requests <= (MAX_RETRIES + 1) * done && slept <= 7 * RETRY_BASE_DELAY * done
      invariant Complete(ask, allEvents, startBlock, currentBlock)
      decreases endBlock + 1 - currentBlock
    {
      NextChunk(currentBlock, endBlock);
      if currentBlock + CHUNK_SIZE >= TWO_POW_64 {
        return Overflows, requests, slept;
      }
      var chunkEnd := if currentBlock + CHUNK_SIZE < endBlock then currentBlock + CHUNK_SIZE else endBlock;
      var reply, requests', waited := FetchChunk(ask, requests, currentBlock, chunkEnd);
      requests, slept := requests', slept + waited;
      done := done + 1;
      if reply.Failure? {
        return ProviderError, requests, slept;
      }
      ChunkJoins(ask, allEvents, startBlock, currentBlock, chunkEnd, requests - 1);
      allEvents := allEvents + reply.logs;
      if chunkEnd + 1 >= TWO_POW_64 {
        return Overflows, requests, slept;
      }
      currentBlock := chunkEnd + 1;
      NextChunk(currentBlock, endBlock);
    }
    NextChunk(currentBlock, endBlock);
    if currentBlock == startBlock { EmptyRange(ask, allEvents, startBlock, endBlock + 1); }
    r := Events(allEvents);
  }
}
