/**
 The data model of the memory pool: a chunk record (a data pointer and the
 chunk's size) and a pool holding two lists of such records, `ready` (chunks
 available for reuse) and `used` (chunks currently lent out).
 */
module MempoolTypes {

  /** The C `unsigned int` used for chunk sizes and requested amounts. */
  newtype uint32 = x: int | 0 <= x < 0x1_0000_0000

  /** A chunk's data pointer, modelled as an address; address 0 is NULL. */
  type Handle = nat

  const Null: Handle := 0

  datatype Option<+T> = None | Some(value: T)

  /** One bookkeeping record of the pool: the chunk's data pointer and its size.
      The `prev`/`next` links of the C record are represented by the record's
      position in its list. */
  datatype Entry = Entry(data: Handle, size: uint32)

  /** The pool: both lists are kept head first, in the order the C code walks them. */
  datatype Pool = Pool(ready: seq<Entry>, used: seq<Entry>)

  /** The data pointers recorded in a list. */
  function Handles(s: seq<Entry>): set<Handle>
  {
    set e | e in s :: e.data
  }

  /** A record the pool may hand out or release: non-NULL data of positive size. */
  predicate WellFormed(e: Entry)
  {
    e.data != Null && e.size > 0
  }

  predicate AllWellFormed(s: seq<Entry>)
  {
    forall i :: 0 <= i < |s| ==> WellFormed(s[i])
  }

  /** No data pointer is recorded twice in the list. */
  predicate Unique(s: seq<Entry>)
  {
    forall i, j :: 0 <= i < j < |s| ==> s[i].data != s[j].data
  }

  /** The pool invariant: every record is well-formed, and every data pointer
      the pool knows is in exactly one of the two lists, exactly once. */
  predicate Valid(p: Pool)
  {
    && AllWellFormed(p.ready)
    && AllWellFormed(p.used)
    && Unique(p.ready)
    && Unique(p.used)
    && Handles(p.ready) !! Handles(p.used)
  }

  /** Unlinks position `i` from a list; every other element keeps its order. */
  function RemoveAt<T>(s: seq<T>, i: nat): (r: seq<T>)
    requires i < |s|
    ensures |r| == |s| - 1
    ensures forall j :: 0 <= j < i ==> r[j] == s[j]
    ensures forall j :: i <= j < |r| ==> r[j] == s[j + 1]
    ensures multiset(r) + multiset{s[i]} == multiset(s)
  {
    assert s == s[..i] + [s[i]] + s[i + 1..];
    s[..i] + s[i + 1..]
  }

  /** Unlinking a record from a list of unique pointers drops exactly that
      record's pointer and keeps the list unique and well-formed. */
  lemma RemoveAtHandles(s: seq<Entry>, i: nat)
    requires i < |s|
    requires Unique(s)
    ensures Unique(RemoveAt(s, i))
    ensures Handles(RemoveAt(s, i)) == Handles(s) - {s[i].data}
    ensures AllWellFormed(s) ==> AllWellFormed(RemoveAt(s, i))
  {
  }
}
