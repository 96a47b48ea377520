# Redis dictionary hashes, hash-table header and sds construction in Dafny

This project models the parts of the early Redis event-loop sources that hold
logic:

- **The dictionary's hash functions** (`dict.c`):
  - Thomas Wang's 32-bit integer mix;
  - the identity hash;
  - the file-static seed `dict_hash_function_seed`, with its setter and getter;
  - the seeded MurmurHash2 `dictGenHashFunction`;
  - the seeded case-insensitive djb hash `dictGenCaseHashFunction`.

  All of this is `bv32` arithmetic, which wraps modulo 2^32 as C's `unsigned int` does. Byte buffers are `seq<bv8>`.
- **The hash-table records** (`dict.h`) and `_dictReset` (`dict.c`):
  - `dictEntry` has a tagged value union, which is exactly one of pointer, `u64` or `s64` by construction of the datatype. Its `next` chains are immutable, so they are finite and acyclic.
  - `dictType` has opaque callbacks.
  - `dictht` has a validity predicate: power-of-two size, `sizemask == size - 1`, and `used` equal to the number of chained nodes.
  - The status codes are `DICT_OK` and `DICT_ERR`.
- **Simple dynamic strings** (`sds.h`, `sds.c`):
  - the `sdshdr` header;
  - `sdsnewlen`, with allocation as a parameter that may fail;
  - `sdslen`.

  The C conversions between `size_t` and the header's `int` fields are written out explicitly.

Modules:

- `CTypes` (`c_types.dfy`): the C integer types `int`, `int64_t` and `unsigned long`/`size_t` at their LP64 widths.
- `Wrappers` (`wrappers.dfy`): `Option`, whose `None` stands for NULL.
- `DictHash` (`dict_hash.dfy`): the hash family and the seed.
- `DictTable` (`dict_table.dfy`): the dictionary records and `_dictReset`.
- `Sds` (`sds.dfy`): the string header, `sdsnewlen` and `sdslen`.

Modelling conventions:

- The module-level seed is an immutable `SeedState` value. The setter returns a new state, and the hashes read the seed through the getter.
- The hash methods follow the C control flow: the block loop, the fall-through `switch` and the byte loop. Each is proved equal to a reference definition:
  - `MurmurHash2`, a fold over the little-endian words plus the tail and the avalanche;
  - `CaseHash`, a fold over the bytes.
- `unsigned long` is a bounded 64-bit integer, and its `&` is spelled out bit by bit as `BitAnd`.

## Model

| member | source | states |
|---|---|---|
| DictHash.IntHash | 01-event-loop/dict.c:41-49 | the six wrap-around updates of the key, in the C order (its properties are stated by the two lemmas below) |
| DictHash.IntHashRoundTrip | 01-event-loop/dict.c:41-49 | each of the six wrap-around updates of the integer mix has an inverse, so the mix is undone by the composed inverse steps in both directions |
| DictHash.IntHashBijective | 01-event-loop/dict.c:41-49 | distinct integer keys get distinct hashes (iff), and every 32-bit value is the hash of some key |
| DictHash.IdentityHash | 01-event-loop/dict.c:52-54 | the identity hash returns its argument unchanged |
| DictHash.SetHashFunctionSeed | 01-event-loop/dict.c:61-63 | after the setter, the getter returns the seed just stored |
| DictHash.GetHashFunctionSeed | 01-event-loop/dict.c:56-70 | the seed reads as 5381 before any call to the setter |
| DictHash.SeedLastWriteWins | 01-event-loop/dict.c:56-70 | the getter returns the value of the last setter call, whatever was stored before; storing the current value changes nothing |
| DictHash.GenHashFunction | 01-event-loop/dict.c:83-124 | the C algorithm (seed xor length, block loop, fall-through tail, avalanche) computes the reference MurmurHash2 of the key under the current seed |
| DictHash.MixWholeBlocks | 01-event-loop/dict.c:96-108 | the block loop folds exactly the `len/4` little-endian words and stops with fewer than four bytes left, at offset `4*(len/4)` |
| DictHash.FoldBlocksSnoc | 01-event-loop/dict.c:96-108 | appending one four-byte block to a block-aligned buffer adds its little-endian word and exactly one more round of the loop |
| DictHash.MixTrailingBytes | 01-event-loop/dict.c:111-115 | the tail xors in the trailing bytes and multiplies by `m` once; with no trailing byte the hash is unchanged |
| DictHash.XorTrailingBytes | 01-event-loop/dict.c:111-114 | the fall-through xors of `b2<<16`, `b1<<8` and `b0` fold in the zero-extended little-endian value of the trailing bytes |
| DictHash.TailBytes | 01-event-loop/dict.c:112-114 | for each tail length 0..3, xoring the little-endian tail value equals the C code's xor chain, in its order |
| DictHash.MurmurHash2Empty | 01-event-loop/dict.c:117-123 | the avalanche is always applied, so the empty buffer hashes to the avalanche of the seed |
| DictHash.ToLower | 01-event-loop/dict.c:131 | C-locale `tolower`: 'A'..'Z' map to the matching 'a'..'z', every other byte is unchanged, and no upper-case letter remains |
| DictHash.CaseStepIsTimes33 | 01-event-loop/dict.c:131 | the update `((hash << 5) + hash) + c` is `hash * 33 + c` modulo 2^32 |
| DictHash.GenCaseHashFunction | 01-event-loop/dict.c:127-133 | the byte loop computes the reference fold `hash*33 + tolower(c)` over the buffer from the seed; the empty buffer returns the seed |
| DictHash.CaseHashIgnoresCase | 01-event-loop/dict.c:126-131 | two equal-length buffers that agree once lower-cased get the same case-insensitive hash |
| DictHash.CaseHashConcat | 01-event-loop/dict.c:130-131 | hashing a concatenation hashes the second part starting from the hash of the first part |
| DictTable.StatusCodes | 01-event-loop/dict.h:19-21 | `DICT_OK` is 0 and `DICT_ERR` is 1; each code reads back as its status, and a code denotes a status iff it is that status's code |
| DictTable.TotalEntriesZero | 01-event-loop/dict.h:42-43 | the chains hold no node iff every bucket is NULL |
| DictTable.UsedZeroIffAllBucketsEmpty | 01-event-loop/dict.h:93-94 | in a valid allocated table, `used` is 0 iff every bucket is NULL |
| DictTable.Valid | 01-event-loop/dict.h:82-96 | an allocated table has a power-of-two size, `sizemask == size - 1`, one bucket per slot, and `used` equal to the chained nodes; a table without an array has all counters 0 |
| DictTable.Reset | 01-event-loop/dict.c:142-147 | the reset table has a NULL array and `size`, `sizemask` and `used` all 0, and satisfies the table invariant |
| DictTable.ResetIsTheEmptyTable | 01-event-loop/dict.c:142-147 | reset ignores its input and is idempotent; every valid table of size 0 is the reset table |
| DictTable.MaskRuleException | 01-event-loop/dict.h:89-91 | in a valid table, `sizemask == size - 1` holds iff the table is allocated; in the reset table `size - 1` would wrap to the largest `unsigned long` |
| DictTable.BucketIndex | 01-event-loop/dict.h:89-91 | for a valid allocated table, `hash & sizemask` is the hash modulo `size`, hence a bucket index below `size` |
| DictTable.MaskIsModulo | 01-event-loop/dict.h:89-91 | masking with `n - 1` equals reducing modulo `n` for every power of two `n` |
| Sds.ValidSds | 01-event-loop/sds.h:17-27 | a well-formed string has non-negative `len` and `free`, `len + free + 1` buffer bytes, and NUL right after the `len` content bytes |
| Sds.SdsNewLen | 01-event-loop/sds.c:25-56 | NULL iff allocation fails; otherwise `len` is `initlen` stored into an `int`, `free` is 0, `buf` has `initlen + 1` bytes ending in NUL, and they are a copy of `init`'s first bytes, or zeros without `init` |
| Sds.Zmalloc | 01-event-loop/sds.c:31-34 | the uninitialised allocation is NULL iff it fails, and otherwise has the requested size |
| Sds.Zcalloc | 01-event-loop/sds.c:35-38 | the zeroing allocation is NULL iff it fails, and otherwise has the requested size with every byte 0 |
| Sds.IntOfSize | 01-event-loop/sds.c:44 | storing a `size_t` into the `int` field keeps values below 2^31 and is congruent to the input modulo 2^32 |
| Sds.SdsLen | 01-event-loop/sds.h:34-37 | `sdslen` returns the header's `len` as a `size_t`: unchanged when non-negative, plus 2^64 when negative |
| Sds.NewLenRoundTrip | 01-event-loop/sds.c:44-52 | a successful `sdsnewlen(init, n)` with `n < 2^31` is well formed, `sdslen` returns `n`, capacity `len + free` is `n`, and the content is `init`'s prefix or zeros |
| Sds.SdsLenIsContentLength | 01-event-loop/sds.h:17-27 | for a well-formed string, `sdslen` is the number of content bytes before the terminator |
| Sds.LengthBeyondIntWraps | 01-event-loop/sds.c:44 | a request for 2^31 bytes stores `len` as the most negative `int`; `sdslen` then reports 2^64 - 2^31 and the string is not well formed |

## Left out

- The rehashing dictionary is not modelled. This covers `dictCreate`, `_dictInit`, `_dictExpandIfNeeded`, `_dictNextPower`, `_dictKeyIndex`, add/find/delete, rehashing, iterators, and the `dict_can_resize` and `dict_force_resize_ratio` flags. `dictCreate` (dict.c:154-159) allocates and returns nothing. The other functions are only declared (dict.c:32-35), and the flags are never read.
- `dictType` callbacks: only the record is modelled. The hash function is a pure function of the key. The duplicate, compare and destructor callbacks are opaque addresses, because their code is not part of this model.
- `zmalloc.c` is not part of this model. Its byte accounting under a mutex is concurrency plumbing, and the file is truncated. Allocation is reduced to an `Allocator` parameter: it either fails or supplies the block's initial bytes.
- `ae.h` and `redis.h` hold only declarations and macros, with no logic.
- The platform is fixed to be little-endian with 4-byte `int`:
  - the unaligned `*(uint32_t*)data` read of MurmurHash2 is the little-endian word at the current offset;
  - big-endian results are not modelled.
- DictHash.ToLower: only the C locale is modelled. 'A'..'Z' are the only bytes mapped; other locales' `tolower` is not modelled.
- DictHash.GenHashFunction: requires the buffer length to be below 2^31, because the C `int len` cannot describe a longer buffer. The model takes the length from the buffer, so a negative `len` cannot arise. The C function handles a negative `len` without reading `key`: the block loop (dict.c:96) and the `switch` (dict.c:111) do not run, and it returns the avalanche of `seed ^ (uint32_t)len`. That result is not modelled.
- DictHash.GenCaseHashFunction: requires the buffer length to be below 2^31, for the same reason. For a negative `len`, the C `while (len--)` loop keeps reading bytes past the buffer until `len` passes `INT_MIN`, which is undefined behaviour; that case is not modelled.
- Sds.SdsNewLen: requires `sizeof(struct sdshdr) + initlen + 1` to fit in `size_t`. The wrapped, too-small allocation the C code would request is not modelled.
- Sds.SdsNewLen: requires `init`, when given, to hold at least `initlen` bytes. `memcpy` reading past the caller's buffer is undefined behaviour.
- Pointers become values:
  - raw pointers, pointer arithmetic and `memcpy` are replaced by sequences and records;
  - the `sds` handle carries its header record, so "the header sits just before `buf`" becomes a field access;
  - the header's own bytes in the allocation are not kept.
