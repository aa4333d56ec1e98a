/**
 The best-fit selection of `mempool_get`: which ready record answers a
 request for `amount` bytes. The predicates state the selection rule
 independently of the scan; `Scan` follows the C loop record by record and
 is proved to pick exactly the record the rule describes.
 */
module BestFit {
  import opened MempoolTypes

  /** Some ready record is large enough for the request. */
  predicate Fits(ready: seq<Entry>, amount: uint32)
  {
    exists j :: 0 <= j < |ready| && ready[j].size >= amount
  }

  /** No record among the first `n` has exactly the requested size. */
  predicate NoExactBefore(ready: seq<Entry>, amount: uint32, n: nat)
    requires n <= |ready|
  {
    forall j :: 0 <= j < n ==> ready[j].size != amount
  }

  /** Among the first `n` records, record `i` is strictly larger than the
      request, no larger than any other such record, and strictly smaller
      than every such record before it (ties go to the earliest). */
  predicate LeastAbove(ready: seq<Entry>, amount: uint32, n: nat, i: nat)
    requires n <= |ready|
  {
    && i < n
    && ready[i].size > amount
    && (forall j :: 0 <= j < n && ready[j].size > amount ==> ready[i].size <= ready[j].size)
    && (forall j :: 0 <= j < i && ready[j].size > amount ==> ready[i].size < ready[j].size)
  }

  /** The selection rule: the first record of exactly the requested size;
      failing any such record, the least record strictly larger than it. */
  predicate IsBestFit(ready: seq<Entry>, amount: uint32, i: nat)
  {
    && i < |ready|
    && ((ready[i].size == amount && NoExactBefore(ready, amount, i))
        || (NoExactBefore(ready, amount, |ready|) && LeastAbove(ready, amount, |ready|, i)))
  }

  /** The rule picks at most one record. */
  lemma BestFitUnique(ready: seq<Entry>, amount: uint32, i: nat, k: nat)
    requires IsBestFit(ready, amount, i)
    requires IsBestFit(ready, amount, k)
    ensures i == k
  {
  }

  /** The scan of `mempool_get` (the `while` loop and the fallback to `best`
      after it), from position `k` with the candidate `best` found so far. */
  function Scan(ready: seq<Entry>, amount: uint32, k: nat, best: Option<nat>): (r: Option<nat>)
    requires k <= |ready|
    requires NoExactBefore(ready, amount, k)
    requires best.None? ==> forall j :: 0 <= j < k ==> ready[j].size < amount
    requires best.Some? ==> LeastAbove(ready, amount, k, best.value)
    ensures r.Some? <==> Fits(ready, amount)
    ensures r.Some? ==> IsBestFit(ready, amount, r.value)
    decreases |ready| - k
  {
    if k == |ready| then
      best
    else if ready[k].size == amount then
      Some(k)
    else if ready[k].size > amount && (best.None? || ready[k].size < ready[best.value].size) then
      Scan(ready, amount, k + 1, Some(k))
    else
      Scan(ready, amount, k + 1, best)
  }

  /** The record `mempool_get` lends for a request of `amount`, as a position
      in `ready`, or None when nothing fits. */
  function Select(ready: seq<Entry>, amount: uint32): (r: Option<nat>)
    ensures r.None? <==> forall j :: 0 <= j < |ready| ==> ready[j].size < amount
    ensures r.Some? ==> IsBestFit(ready, amount, r.value)
    ensures r.Some? ==> ready[r.value].size >= amount
  {
    Scan(ready, amount, 0, None)
  }

  /** A request of 18 among chunks of 20, 15 and 30 gets the 20: the least
      chunk that fits, not the least chunk. */
  lemma SmallestFitExample()
    ensures Select([Entry(1, 20), Entry(2, 15), Entry(3, 30)], 18) == Some(0)
  {
  }

  /** An exact match wins even when a larger chunk that fits comes before it. */
  lemma ExactAfterLargerExample()
    ensures Select([Entry(1, 30), Entry(2, 18), Entry(3, 18)], 18) == Some(1)
  {
  }

  /** Among equally sized candidates the earliest wins. */
  lemma TieEarliestExample()
    ensures Select([Entry(1, 10), Entry(2, 25), Entry(3, 25)], 18) == Some(1)
  {
  }
}
