# libmempool buffer pool, modelled in Dafny

libmempool keeps a pool of memory chunks that the caller allocated, so that
short-lived scratch buffers can be reused instead of allocated and freed
again and again. Each chunk is tracked by a record holding its data pointer
and its size. The pool keeps two lists of records: `ready` holds the chunks
available for reuse, and `used` holds the chunks lent out. The pool never
allocates a chunk itself. When nothing in `ready` is large enough, `mempool_get`
returns NULL, and adding memory is the caller's job.

The model has three modules:

- `MempoolTypes` (types.dfy) is the data model of `mempool.h`. `uint32` stands
  for the C `unsigned int` sizes. A `Handle` is a data pointer, with 0 as NULL.
  `Entry` is one chunk record, and `Pool` holds `ready` and `used` as head-first
  sequences. `Valid` is the pool invariant: every record has non-NULL data and
  a positive size, and every pointer sits in exactly one list, exactly once.
  `RemoveAt` unlinks one record from a list.
- `BestFit` (bestfit.dfy) is the selection rule of `mempool_get`. `IsBestFit`
  states the rule on its own terms: the first exact match, or else the least
  record strictly larger than the request, with ties going to the earliest.
  `Scan` follows the C loop record by record and is proved to choose exactly
  what `IsBestFit` describes.
- `Mempool` (mempool.dfy) holds the operations `Init`, `Get`, `Return` and
  `Free`, and the lemmas relating them. Those lemmas cover the invariant, the
  combined contents of the two lists, and a borrow followed by a return. `Run`
  applies any sequence of `Get`/`Return` calls; a call that would fail an
  assertion of `mempool_get` or `mempool_return` stops the sequence.

A failed `assert` in the C code aborts the program. The assertions that check
the caller's arguments appear as `requires` clauses: those of `mempool_return`
and `mempool_free`. The assertions that `mempool_get` makes about the chunk it
lends (mempool.c:109-111) are not preconditions of `Get`. Instead they are
proved: `Get` guarantees that the size is at least the request, and
`GetPreservesValid` proves that on a valid pool the pointer is non-NULL and the
size is positive. `Apply` models all of these assertions as an abort, for any
pool, valid or not. Where the C code returns NULL, the model returns `None`.

## Model

| member | source | states |
|---|---|---|
| `Mempool.Init` | src/libmempool/mempool.c:22-28 | the new pool has both lists empty and satisfies the pool invariant |
| `BestFit.Scan` | src/libmempool/mempool.c:75-97 | if the loop invariant holds (no exact match yet, and `best` is the least strictly-larger record so far, earliest on ties), the scan finds a record exactly when some ready record is at least `amount`, and the record it finds satisfies the best-fit rule |
| `BestFit.Select` | src/libmempool/mempool.c:72-97 | nothing is selected exactly when every ready record is smaller than the request; otherwise the selected record is the first exact match or, failing that, the least larger record with the earliest winning ties, and its size is at least the request |
| `BestFit.BestFitUnique` | src/libmempool/mempool.c:62-64 | the best-fit rule determines at most one record, so the selection is deterministic |
| `BestFit.SmallestFitExample` | src/libmempool/mempool.c:80-89 | for chunks of 20, 15 and 30, a request for 18 gets the 20: the least chunk that fits, not the least chunk overall |
| `BestFit.ExactAfterLargerExample` | src/libmempool/mempool.c:75-79 | an exact match is chosen even when a larger fitting chunk comes earlier in the list |
| `BestFit.TieEarliestExample` | src/libmempool/mempool.c:86-88 | between two equally sized candidates, the earlier one is chosen |
| `MempoolTypes.RemoveAt` | src/libmempool/mempool.c:102-104 | unlinking a record removes exactly that record; the others keep their order, and the multiset of records loses exactly that one |
| `MempoolTypes.RemoveAtHandles` | src/libmempool/mempool.c:102-104 | unlinking from a list of distinct pointers removes exactly that record's pointer and keeps the list distinct and well-formed |
| `Mempool.Get` | src/libmempool/mempool.c:65-117 | a pointer is lent exactly when some ready chunk is large enough; if none is, the pool is unchanged. Otherwise the selection yields a best-fit record and the lent chunk is that record, which leaves `ready` with the other records in order and becomes the head of `used`, with size at least the request |
| `Mempool.GetPreservesContents` | src/libmempool/mempool.c:101-107 | lending leaves the combined multiset of records in `ready` and `used` unchanged |
| `Mempool.GetPreservesValid` | src/libmempool/mempool.c:101-111 | lending keeps the pool invariant, and on a valid pool the lent pointer is non-NULL and its chunk has positive size |
| `Mempool.FirstIndex` | src/libmempool/mempool.c:150-159 | the search of `used` finds the first record holding the pointer |
| `Mempool.Return` | src/libmempool/mempool.c:131-182 | given a non-NULL pointer that is lent and not ready, the first `used` record holding it leaves `used`, the other lent records keep their order, and that record is appended to `ready` with its size unchanged; the earlier ready records stay in place |
| `Mempool.ReturnPreservesContents` | src/libmempool/mempool.c:150-180 | taking a chunk back leaves the combined multiset of records unchanged |
| `Mempool.ReturnPreservesValid` | src/libmempool/mempool.c:159-180 | on a valid pool, taking a chunk back keeps the invariant; the pointer is then ready and no longer lent |
| `Mempool.GetThenReturn` | src/libmempool/mempool.c:101-180 | after a successful get, the lent pointer meets every assertion of return, and returning it restores `used` exactly and `ready` as a multiset |
| `Mempool.Free` | src/libmempool/mempool.c:35-57 | teardown requires `used` to be empty and every ready record to be well-formed. It releases the ready pointers in list order, all non-NULL and, on a pool of distinct pointers, each exactly once. Both lists end empty |
| `Mempool.Apply` | src/libmempool/mempool.c:65-173 | a get aborts exactly when the best-fit record has a NULL pointer or size 0 (the assertions after the selection); a return aborts exactly when the pointer is NULL, not lent, or already ready |
| `Mempool.ValidGetNeverAborts` | src/libmempool/mempool.c:109-111 | on a valid pool, a get never trips the assertions about the lent chunk, so it has exactly the effect of `Get` |
| `Mempool.NullRecordGetAborts` | src/libmempool/mempool.c:109 | a get that selects a ready record with a NULL pointer aborts |
| `Mempool.RunPreservesValid` | src/libmempool/mempool.c:65-182 | for any sequence of get and return calls that fails no assertion, a valid pool stays valid and keeps the same combined multiset of records |

## Left out

- Memory release and growth are left out. The `free(tmp->data)` and `free(tmp)` calls of teardown (mempool.c:51-52) and the `realloc` of the ready array (mempool.c:177) are allocator calls. `Free` instead returns the released pointers in order and leaves both lists empty.
- The shrink step of `mempool_return` is left out: `buffer->length`, `list->max` and `expbuf_shrink` (mempool.c:142-148). They belong to the `expbuf_t` buffer type, which is not part of this model.
- `mempool_autoexpand`, `mempool_assign`, `mempool_release`, `mempool_active_count`, `mempool_inactive_count` and `mempool_peek` (mempool.h:38-49) are left out. They are declared but have no bodies, so their behaviour would be invented. The `expand` field of `mempool_t` is left out for the same reason.
- The `prev`/`next` pointer splicing (mempool.c:102-107) appears as positions in a sequence. The C splice never updates the old `used` head's `prev` link. That inconsistency cannot arise in the sequence model.
- `Mempool.Return` appends the record to the end of `ready`. The array draft it is written against (mempool.c:164-180) fills the first NULL slot when there is one. A sequence has no empty slots, so the model follows the no-free-slot case. As a result, when sizes tie, the record's position relative to the other ready records (and so which record `Get` picks) can differ from that draft.
- The checks `pool != NULL` (mempool.c:24, 38, 69, 136) are left out, because a pool here is a value. The always-true `assert(amount >= 0)` on an unsigned value (mempool.c:70) is also left out.
- The source mixes drafts. `mempool_free` asserts on a field `active` that `mempool_t` does not have (mempool.c:41, 55); it is read as `used`. `mempool_return` is written against an array-based pool, and the model applies it to the list pool of `mempool.h`. The missing parenthesis at mempool.c:111 is read as `assert(buff->size >= amount)`.
- The loop asserts of teardown (mempool.c:49-50) are preconditions of `Mempool.Free` covering the whole ready list. The C code would abort midway, after freeing the records before the bad one.
