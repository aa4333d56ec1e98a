/**
 The pool operations of `mempool.c`: initialisation, lending a chunk by best
 fit, taking a lent chunk back, and teardown. Each operation is a pure
 function from the pool before to the pool after. The C assertions on the
 caller's arguments are preconditions here; those `mempool_get` makes about
 the chunk it lends are proved to hold on a valid pool, and `Apply` treats
 their failure as an abort.
 */
module Mempool {
  import opened MempoolTypes
  import opened BestFit

  /** What `mempool_get` leaves behind: the pool after the call and the data
      pointer lent to the caller (None where the C code returns NULL). */
  datatype Loan = Loan(pool: Pool, data: Option<Handle>)

  /** `mempool_init`: a pool with nothing ready and nothing lent. */
  function Init(): (p: Pool)
    ensures p.ready == [] && p.used == []
    ensures Valid(p)
  {
    Pool([], [])
  }

  /** `mempool_get`: lends the best-fitting ready chunk, moving its record
      to the head of `used`; when nothing fits, lends nothing and changes
      nothing (the pool never allocates). */
  function Get(p: Pool, amount: uint32): (r: Loan)
    ensures r.data.Some? <==> Fits(p.ready, amount)
    ensures r.data.None? ==> r.pool == p
    ensures r.data.Some? ==>
              Select(p.ready, amount).Some? && IsBestFit(p.ready, amount, Select(p.ready, amount).value)
    ensures forall i: nat :: IsBestFit(p.ready, amount, i) ==>
              && r.data == Some(p.ready[i].data)
              && r.pool.ready == RemoveAt(p.ready, i)
              && r.pool.used == [p.ready[i]] + p.used
    ensures r.data.Some? ==>
              |r.pool.used| > 0 && r.pool.used[0].data == r.data.value && r.pool.used[0].size >= amount
  {
    match Select(p.ready, amount)
    case None => Loan(p, None)
    case Some(i) =>
      assert forall k: nat :: IsBestFit(p.ready, amount, k) ==> k == i by {
        forall k | IsBestFit(p.ready, amount, k)
          ensures k == i
        {
          BestFitUnique(p.ready, amount, i, k);
        }
      }
      Loan(Pool(RemoveAt(p.ready, i), [p.ready[i]] + p.used), Some(p.ready[i].data))
  }

  /** The position of the first record in `s` whose data pointer is `ptr`:
      the search loop of `mempool_return` over `used`, from position `k`. */
  function FirstIndex(s: seq<Entry>, ptr: Handle, k: nat): (i: nat)
    requires k <= |s|
    requires ptr in Handles(s[k..])
    ensures k <= i < |s|
    ensures s[i].data == ptr
    ensures forall j :: k <= j < i ==> s[j].data != ptr
    decreases |s| - k
  {
    if s[k].data == ptr then k
    else
      assert ptr in Handles(s[k + 1..]) by {
        var e :| e in s[k..] && e.data == ptr;
        assert s[k..] == [s[k]] + s[k + 1..];
      }
      FirstIndex(s, ptr, k + 1)
  }

  /** `mempool_return`: takes a lent chunk back. The pointer must be
      non-NULL, lent, and not already ready. Its record leaves `used` and is
      appended to `ready` with its size unchanged. */
  function Return(p: Pool, ptr: Handle): (r: Pool)
    requires ptr != Null
    requires ptr in Handles(p.used)
    requires ptr !in Handles(p.ready)
    ensures |r.ready| == |p.ready| + 1
    ensures r.ready[..|p.ready|] == p.ready
    ensures r.ready[|p.ready|].data == ptr
    ensures ptr in Handles(r.ready)
    ensures |r.used| == |p.used| - 1
    ensures multiset(r.used) + multiset{r.ready[|p.ready|]} == multiset(p.used)
    ensures exists i :: && 0 <= i < |p.used|
                        && p.used[i].data == ptr
                        && (forall j :: 0 <= j < i ==> p.used[j].data != ptr)
                        && r.used == RemoveAt(p.used, i)
                        && r.ready == p.ready + [p.used[i]]
  {
    assert p.used[0..] == p.used;
    var i := FirstIndex(p.used, ptr, 0);
    Pool(p.ready + [p.used[i]], RemoveAt(p.used, i))
  }

  /** `mempool_free`: all chunks must have been returned, and every ready
      record must be well-formed. Releases the ready chunks' data pointers in
      list order and leaves both lists empty. */
  method Free(p: Pool) returns (r: Pool, released: seq<Handle>)
    requires p.used == []
    requires AllWellFormed(p.ready)
    ensures r.ready == [] && r.used == []
    ensures |released| == |p.ready|
    ensures forall i :: 0 <= i < |p.ready| ==> released[i] == p.ready[i].data
    ensures forall i :: 0 <= i < |released| ==> released[i] != Null
    ensures Unique(p.ready) ==> forall i, j :: 0 <= i < j < |released| ==> released[i] != released[j]
  {
    var ready := p.ready;
    released := [];
    while ready != []
      invariant |released| + |ready| == |p.ready|
      invariant ready == p.ready[|released|..]
      invariant forall i :: 0 <= i < |released| ==> released[i] == p.ready[i].data
    {
      var e := ready[0];
      ready := ready[1..];
      released := released + [e.data];
    }
    r := Pool(ready, p.used);
  }

  /** Lending moves one record between the lists: the pool's combined
      contents are unchanged. */
  lemma GetPreservesContents(p: Pool, amount: uint32)
    ensures multiset(Get(p, amount).pool.ready + Get(p, amount).pool.used) == multiset(p.ready + p.used)
  {
  }

  /** Lending keeps the pool invariant, and the chunk lent out is a
      non-NULL pointer of positive size. */
  lemma GetPreservesValid(p: Pool, amount: uint32)
    requires Valid(p)
    ensures Valid(Get(p, amount).pool)
    ensures Get(p, amount).data.Some? ==>
              Get(p, amount).data.value != Null && Get(p, amount).pool.used[0].size > 0
  {
    var s := Select(p.ready, amount);
    if s.Some? {
      var i := s.value;
      var q := Get(p, amount).pool;
      RemoveAtHandles(p.ready, i);
      assert q.ready == RemoveAt(p.ready, i);
      assert q.used == [p.ready[i]] + p.used;
      assert Handles(q.used) == {p.ready[i].data} + Handles(p.used);
      assert WellFormed(p.ready[i]);
    }
  }

  /** Taking a chunk back moves one record between the lists: the pool's
      combined contents are unchanged. */
  lemma ReturnPreservesContents(p: Pool, ptr: Handle)
    requires ptr != Null && ptr in Handles(p.used) && ptr !in Handles(p.ready)
    ensures multiset(Return(p, ptr).ready + Return(p, ptr).used) == multiset(p.ready + p.used)
  {
  }

  /** Taking a chunk back keeps the pool invariant; afterwards the pointer
      is ready and no longer lent. */
  lemma ReturnPreservesValid(p: Pool, ptr: Handle)
    requires ptr != Null && ptr in Handles(p.used) && ptr !in Handles(p.ready)
    requires Valid(p)
    ensures Valid(Return(p, ptr))
    ensures ptr in Handles(Return(p, ptr).ready) && ptr !in Handles(Return(p, ptr).used)
  {
    assert p.used[0..] == p.used;
    var i := FirstIndex(p.used, ptr, 0);
    var r := Return(p, ptr);
    RemoveAtHandles(p.used, i);
    assert r.used == RemoveAt(p.used, i);
    assert r.ready == p.ready + [p.used[i]];
    assert Handles(r.ready) == Handles(p.ready) + {ptr};
    assert WellFormed(p.used[i]);
  }

  /** Returning a chunk straight after borrowing it puts `used` back as it
      was and leaves `ready` with the same records, the returned one last. */
  lemma GetThenReturn(p: Pool, amount: uint32)
    requires Valid(p)
    requires Fits(p.ready, amount)
    ensures var l := Get(p, amount);
            && l.data.value != Null
            && l.data.value in Handles(l.pool.used)
            && l.data.value !in Handles(l.pool.ready)
            && Return(l.pool, l.data.value).used == p.used
            && multiset(Return(l.pool, l.data.value).ready) == multiset(p.ready)
  {
  }

  /** A call a client makes on the pool between `mempool_init` and `mempool_free`. */
  datatype Op = GetOp(amount: uint32) | ReturnOp(ptr: Handle)

  /** One call; None when the call breaks an assertion: a get whose chosen
      record has a NULL pointer or size 0, or a return of a pointer that is
      NULL, not lent, or already ready. */
  function Apply(p: Pool, op: Op): (r: Option<Pool>)
    ensures op.GetOp? ==>
              (r.None? <==> exists i: nat :: IsBestFit(p.ready, op.amount, i) && !WellFormed(p.ready[i]))
    ensures op.ReturnOp? ==>
              (r.None? <==> op.ptr == Null || op.ptr !in Handles(p.used) || op.ptr in Handles(p.ready))
  {
    match op
    case GetOp(amount) =>
      var l := Get(p, amount);
      if l.data.Some? && !WellFormed(l.pool.used[0]) then None else Some(l.pool)
    case ReturnOp(ptr) =>
      if ptr != Null && ptr in Handles(p.used) && ptr !in Handles(p.ready) then Some(Return(p, ptr))
      else None
  }

  /** On a valid pool a get never breaks the assertions of `mempool_get`. */
  lemma ValidGetNeverAborts(p: Pool, amount: uint32)
    requires Valid(p)
    ensures Apply(p, GetOp(amount)) == Some(Get(p, amount).pool)
  {

  }

  /** A ready record with a NULL pointer makes a get that selects it abort. */
  lemma NullRecordGetAborts()
    ensures Apply(Pool([Entry(Null, 5)], []), GetOp(5)).None?
  {

  }

  /** A sequence of calls; None as soon as one of them breaks an assertion. */
  function Run(p: Pool, ops: seq<Op>): Option<Pool>
    decreases |ops|
  {
    if ops == [] then Some(p)
    else
      match Apply(p, ops[0])
      case None => None
      case Some(q) => Run(q, ops[1..])
  }

  /** Whatever calls a client makes, as long as none aborts, the pool stays
      valid: every known pointer is in exactly one list, once, and no record
      is created or lost. */
  lemma {:induction false} RunPreservesValid(p: Pool, ops: seq<Op>)
    requires Valid(p)
    ensures Run(p, ops).Some? ==> Valid(Run(p, ops).value)
    ensures Run(p, ops).Some? ==>
              multiset(Run(p, ops).value.ready + Run(p, ops).value.used) == multiset(p.ready + p.used)
    decreases |ops|
  {
    if ops != [] {
      match ops[0]
      case GetOp(amount) =>
        GetPreservesValid(p, amount);
        GetPreservesContents(p, amount);
        RunPreservesValid(Get(p, amount).pool, ops[1..]);
      case ReturnOp(ptr) =>
        if ptr != Null && ptr in Handles(p.used) && ptr !in Handles(p.ready) {
          ReturnPreservesValid(p, ptr);
          ReturnPreservesContents(p, ptr);
          RunPreservesValid(Return(p, ptr), ops[1..]);
        }
    }
  }
}
