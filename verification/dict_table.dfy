/**
  The record shapes of the dictionary (dict.h) and the one operation on them
  that exists in dict.c, `_dictReset`.

  A hash table `dictht` is an array of `size` buckets; each bucket is a
  NULL-terminated singly linked chain of `dictEntry` nodes joined through
  `next`. The array size is a power of two, `sizemask` is `size - 1` and is
  used to turn a hash into a bucket index, and `used` counts the nodes of
  all chains. A reset table has no array and all three counters at 0.

  `unsigned long` is a 64-bit unsigned integer (an LP64 platform), kept as a
  bounded integer, with C's `&` written out bit by bit; `void *` is an
  opaque address; the chains are immutable values rather than heap nodes,
  so a chain is finite and acyclic by construction.
*/
module DictTable {
  import opened Wrappers
  import opened CTypes

  /* ---------------------------------------------------------------------- */
  /* Status codes                                                           */
  /* ---------------------------------------------------------------------- */

  /** The outcome of a dictionary operation: `DICT_OK` or `DICT_ERR`. */
  datatype DictStatus = DictOk | DictErr

  /** The integer each status is written as in C. */
  function StatusCode(s: DictStatus): int
  {
    match s
    case DictOk => 0
    case DictErr => 1
  }

  /** Reads an integer back as a status; other integers are not statuses. */
  function StatusOfCode(code: int): Option<DictStatus>
  {
    if code == 0 then Some(DictOk)
    else if code == 1 then Some(DictErr)
    else None
  }

  /** `DICT_OK` is 0 and `DICT_ERR` is 1, so the two codes are distinct and
      each code reads back as the status it was written from. */
  lemma StatusCodes(s: DictStatus, code: int)
    ensures StatusCode(DictOk) == 0 && StatusCode(DictErr) == 1
    ensures StatusOfCode(StatusCode(s)) == Some(s)
    ensures StatusOfCode(code) == Some(s) <==> code == StatusCode(s)
  {}

  /* ---------------------------------------------------------------------- */
  /* Entries and chains                                                     */
  /* ---------------------------------------------------------------------- */

  /** A `void *`: an opaque address, 0 being NULL. */
  type Address = nat

  /** The value union of an entry: exactly one of a pointer, an unsigned or
      a signed 64-bit integer, tagged by which member was stored. */
  datatype EntryValue = Val(ptr: Address) | U64(u64: bv64) | S64(s64: Int64)

  /** `dictEntry`: a key, its value and the rest of the chain. */
  datatype DictEntry = DictEntry(key: Address, v: EntryValue, next: Chain)

  /** A bucket, or an entry's `next`: NULL or the first node of a chain. */
  type Chain = Option<DictEntry>

  /** Number of nodes reachable from a bucket by following `next`. */
  function ChainLength(c: Chain): nat
  {
    match c
    case None => 0
    case Some(e) => 1 + ChainLength(e.next)
  }

  /** Number of nodes in all buckets together. */
  function TotalEntries(buckets: seq<Chain>): nat
  {
    if |buckets| == 0 then 0 else TotalEntries(buckets[..|buckets| - 1]) + ChainLength(buckets[|buckets| - 1])
  }

  /** The buckets hold no node at all exactly when every bucket is NULL. */
  lemma {:induction false} TotalEntriesZero(buckets: seq<Chain>)
    ensures TotalEntries(buckets) == 0 <==> forall i :: 0 <= i < |buckets| ==> buckets[i].None?
  {
    if |buckets| > 0 {
      var n := |buckets| - 1;
      TotalEntriesZero(buckets[..n]);
      assert forall i :: 0 <= i < n ==> buckets[..n][i] == buckets[i];
      assert buckets[n].Some? ==> ChainLength(buckets[n]) > 0;
    }
  }

  /* ---------------------------------------------------------------------- */
  /* Type callbacks                                                         */
  /* ---------------------------------------------------------------------- */

  /** `dictType`: the hash function, as a pure function of the key, and the
      addresses of the key and value duplicate, compare and destructor
      callbacks, whose behaviour is not part of this model. */
  datatype DictType = DictType(
    hashFunction: Address -> bv32,
    keyDup: Address,
    valDup: Address,
    keyCompare: Address,
    keyDestructor: Address,
    valDestructor: Address)

  /* ---------------------------------------------------------------------- */
  /* The table header                                                       */
  /* ---------------------------------------------------------------------- */

  /** `dictht`: the bucket array (`None` for a NULL `table`), its size, the
      index mask and the node count. */
  datatype DictHt = DictHt(table: Option<seq<Chain>>, size: ULong, sizemask: ULong, used: ULong)

  /** 1, 2, 4, 8, ...: the sizes the table takes. */
  predicate IsPowerOfTwo(n: nat)
    decreases n
  {
    n == 1 || (n >= 2 && n % 2 == 0 && IsPowerOfTwo(n / 2))
  }

  /** The invariant of a table header. An allocated table has a power-of-two
      number of buckets, `sizemask == size - 1`, and `used` equal to the
      number of chained nodes. A table without an array is the reset table:
      every counter is 0, including `sizemask`. */
  predicate Valid(ht: DictHt)
  {
    match ht.table
    case None => ht.size == 0 && ht.sizemask == 0 && ht.used == 0
    case Some(buckets) =>
      IsPowerOfTwo(ht.size) && ht.sizemask == ht.size - 1
      && |buckets| == ht.size
      && ht.used == TotalEntries(buckets)
  }

  /** _dictReset: the table forgets its array and its counters, whatever
      they were. The result is a valid table with no array and no node. */
  function Reset(ht: DictHt): (r: DictHt)
    ensures Valid(r)
    ensures r.table.None? && r.used == 0
    ensures r.size == 0 && r.sizemask == 0
  {
    DictHt(None, 0, 0, 0)
  }

  /** Reset ignores what was there before, so resetting twice is resetting
      once, and the valid tables of size 0 are exactly the reset table. */
  lemma ResetIsTheEmptyTable(ht: DictHt, other: DictHt)
    ensures Reset(Reset(ht)) == Reset(ht)
    ensures Reset(ht) == Reset(other)
    ensures Valid(ht) && ht.size == 0 ==> ht == Reset(other)
  {}

  /** The mask rule `sizemask == size - 1` holds of a valid table exactly
      when the table is allocated. The reset table, with `size` 0 and
      `sizemask` 0, is its one exception: `size - 1` there wraps to the
      largest `unsigned long`. */
  lemma MaskRuleException(ht: DictHt)
    requires Valid(ht)
    ensures ht.sizemask == ht.size - 1 <==> ht.table.Some?
    ensures ht.table.None? ==> (ht.size - 1) % ULongLimit == ULongLimit - 1
  {}

  /** A valid allocated table counts no node exactly when all its buckets
      are NULL. */
  lemma UsedZeroIffAllBucketsEmpty(ht: DictHt)
    requires Valid(ht) && ht.table.Some?
    ensures ht.used == 0 <==> forall i :: 0 <= i < |ht.table.value| ==> ht.table.value[i].None?
  {
    TotalEntriesZero(ht.table.value);
  }

  /* ---------------------------------------------------------------------- */
  /* Bucket index                                                           */
  /* ---------------------------------------------------------------------- */

  /** C's `&` on non-negative integers, one bit at a time from the lowest. */
  function BitAnd(a: nat, b: nat): nat
    decreases a
  {
    if a == 0 || b == 0 then 0
    else 2 * BitAnd(a / 2, b / 2) + (if a % 2 == 1 && b % 2 == 1 then 1 else 0)
  }

  /** The bucket of a hash: `hash & sizemask`, with the `unsigned int` hash
      widened to `unsigned long`. For a valid allocated table it is the
      hash modulo the number of buckets, so a valid index. */
  function BucketIndex(ht: DictHt, hash: bv32): (i: nat)
    requires Valid(ht) && ht.table.Some?
    ensures i == (hash as int) % ht.size
    ensures i < |ht.table.value|
  {
    MaskIsModulo(hash as int, ht.size);
    BitAnd(hash as int, ht.sizemask)
  }

  /** Masking with `n - 1` keeps the remainder modulo `n` when `n` is a
      power of two: the low bits of `x` are `x % n`. */
  lemma {:induction false} MaskIsModulo(x: nat, n: nat)
    requires IsPowerOfTwo(n)
    ensures BitAnd(x, n - 1) == x % n
    decreases n
  {
    if n == 1 {
    } else {
      var m := n / 2;
      MaskIsModulo(x / 2, m);
      if x == 0 {
      } else {
        assert (n - 1) / 2 == m - 1 && (n - 1) % 2 == 1;
        calc {
          BitAnd(x, n - 1);
          2 * BitAnd(x / 2, m - 1) + x % 2;
          2 * ((x / 2) % m) + x % 2;
          { HalvingRemainder(x, m); }
          x % n;
        }
      }
    }
  }

  /** `x % 2m` is twice `(x / 2) % m` plus the lowest bit of `x`. */
  lemma HalvingRemainder(x: nat, m: nat)
    requires m >= 1
    ensures x % (2 * m) == 2 * ((x / 2) % m) + x % 2
  {
    var q := (x / 2) / m;
    var r := (x / 2) % m;
    assert x / 2 == q * m + r;
    assert x == (2 * m) * q + (2 * r + x % 2);
    assert 0 <= 2 * r + x % 2 < 2 * m;
    ModuloUnique(x, 2 * m, q, 2 * r + x % 2);
  }

  /** A quotient and remainder in range determine `x % d`. */
  lemma ModuloUnique(x: int, d: int, q: int, r: int)
    requires d > 0 && x == d * q + r && 0 <= r < d
    ensures x % d == r
  {
    var k := x / d - q;
    assert x == d * (x / d) + x % d;
    assert d * (x / d) - d * q == d * k;
    if k > 0 {
      MulAtLeast(d, k);
    } else if k < 0 {
      MulAtLeast(d, -k);
    }
  }

  /** A positive multiple of `d` is at least `d`. */
  lemma MulAtLeast(d: int, k: int)
    requires d > 0 && k >= 1
    ensures d * k >= d
  {}
}
