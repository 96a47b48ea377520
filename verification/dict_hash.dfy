/**
  The hash-function family of the dictionary (dict.c): Thomas Wang's 32-bit
  integer mix, the identity hash, the seeded MurmurHash2 over a byte buffer and
  the seeded case-insensitive djb hash.

  All arithmetic is `unsigned int` / `uint32_t` in C, so it is modelled on
  `bv32`, whose `+`, `*` and shifts wrap modulo 2^32 exactly as the C
  operators do. Byte buffers are `seq<bv8>`; the `int len` argument of the C
  functions is the length of the sequence, which must fit in a C `int`.
  Four-byte blocks are read little-endian: the C code reads them in the
  machine's byte order, and this model fixes that order to little-endian.
*/
module DictHash {
  import opened CTypes

  /* ---------------------------------------------------------------------- */
  /* Thomas Wang's 32-bit mix                                               */
  /* ---------------------------------------------------------------------- */

  // The six in-place updates of the mix, one function each, so that each
  // can be paired with its inverse.
  function MixStep1(k: bv32): bv32 { k + !(k << 15) }
  function MixStep2(k: bv32): bv32 { k ^ (k >> 10) }
  function MixStep3(k: bv32): bv32 { k + (k << 3) }
  function MixStep4(k: bv32): bv32 { k ^ (k >> 6) }
  function MixStep5(k: bv32): bv32 { k + !(k << 11) }
  function MixStep6(k: bv32): bv32 { k ^ (k >> 16) }

  /** dictIntHashFunction: the six updates of `key`, in order. */
  function IntHash(key: bv32): bv32
  {
    MixStep6(MixStep5(MixStep4(MixStep3(MixStep2(MixStep1(key))))))
  }

  // Inverses of the steps. `k + ~(k << s)` is `k * (1 - 2^s) - 1` modulo
  // 2^32, and `1 + 2^s + 2^(2s)` is the inverse of `1 - 2^s` when 3s >= 32;
  // `k + (k << 3)` is `9 * k`, and 0x38E38E39 is the inverse of 9 modulo
  // 2^32; `k ^ (k >> s)` is undone by xoring in every further multiple of
  // the shift.
  function UnmixStep1(k: bv32): bv32 { (k + 1) + ((k + 1) << 15) + ((k + 1) << 30) }
  function UnmixStep2(k: bv32): bv32 { k ^ (k >> 10) ^ (k >> 20) ^ (k >> 30) }
  function UnmixStep3(k: bv32): bv32 { k * 0x38E3_8E39 }
  function UnmixStep4(k: bv32): bv32 { k ^ (k >> 6) ^ (k >> 12) ^ (k >> 18) ^ (k >> 24) ^ (k >> 30) }
  function UnmixStep5(k: bv32): bv32 { (k + 1) + ((k + 1) << 11) + ((k + 1) << 22) }
  function UnmixStep6(k: bv32): bv32 { k ^ (k >> 16) }

  /** The inverse of Wang's mix: the six inverse steps in reverse order. */
  function UnIntHash(h: bv32): bv32
  {
    UnmixStep1(UnmixStep2(UnmixStep3(UnmixStep4(UnmixStep5(UnmixStep6(h))))))
  }

  // Each step and its inverse undo one another. Most proofs unfold the
  // outer call on the literal inner expression, which leaves the solver a
  // pure bit-vector identity; for the xor-shift steps, the asserted facts
  // first distribute the outer right shift over the inner xor. The
  // multiplication by 9 and by its inverse (step 3) needs no such help.

  lemma UnmixAfterMix1(k: bv32)
    ensures UnmixStep1(MixStep1(k)) == k
  {
    calc {
      UnmixStep1(MixStep1(k));
      UnmixStep1(k + !(k << 15));
      ((k + !(k << 15)) + 1) + (((k + !(k << 15)) + 1) << 15) + (((k + !(k << 15)) + 1) << 30);
      k;
    }
  }

  lemma MixAfterUnmix1(k: bv32)
    ensures MixStep1(UnmixStep1(k)) == k
  {
    calc {
      MixStep1(UnmixStep1(k));
      MixStep1((k + 1) + ((k + 1) << 15) + ((k + 1) << 30));
      ((k + 1) + ((k + 1) << 15) + ((k + 1) << 30)) + !(((k + 1) + ((k + 1) << 15) + ((k + 1) << 30)) << 15);
      k;
    }
  }

  lemma UnmixAfterMix2(k: bv32)
    ensures UnmixStep2(MixStep2(k)) == k
  {
    assert (k ^ (k >> 10)) >> 10 == (k >> 10) ^ (k >> 20);
    assert (k ^ (k >> 10)) >> 20 == (k >> 20) ^ (k >> 30);
    assert (k ^ (k >> 10)) >> 30 == k >> 30;
    calc {
      UnmixStep2(MixStep2(k));
      UnmixStep2(k ^ (k >> 10));
      (k ^ (k >> 10)) ^ ((k ^ (k >> 10)) >> 10) ^ ((k ^ (k >> 10)) >> 20) ^ ((k ^ (k >> 10)) >> 30);
      k;
    }
  }

  lemma MixAfterUnmix2(k: bv32)
    ensures MixStep2(UnmixStep2(k)) == k
  {
    assert (k ^ (k >> 10) ^ (k >> 20) ^ (k >> 30)) >> 10 == (k >> 10) ^ (k >> 20) ^ (k >> 30);
    calc {
      MixStep2(UnmixStep2(k));
      MixStep2(k ^ (k >> 10) ^ (k >> 20) ^ (k >> 30));
      (k ^ (k >> 10) ^ (k >> 20) ^ (k >> 30)) ^ ((k ^ (k >> 10) ^ (k >> 20) ^ (k >> 30)) >> 10);
      k;
    }
  }

  lemma UnmixAfterMix3(k: bv32)
    ensures UnmixStep3(MixStep3(k)) == k
  {}

  lemma MixAfterUnmix3(k: bv32)
    ensures MixStep3(UnmixStep3(k)) == k
  {}

  lemma UnmixAfterMix4(k: bv32)
    ensures UnmixStep4(MixStep4(k)) == k
  {
    assert (k ^ (k >> 6)) >> 6 == (k >> 6) ^ (k >> 12);
    assert (k ^ (k >> 6)) >> 12 == (k >> 12) ^ (k >> 18);
    assert (k ^ (k >> 6)) >> 18 == (k >> 18) ^ (k >> 24);
    assert (k ^ (k >> 6)) >> 24 == (k >> 24) ^ (k >> 30);
    assert (k ^ (k >> 6)) >> 30 == k >> 30;
    calc {
      UnmixStep4(MixStep4(k));
      UnmixStep4(k ^ (k >> 6));
      (k ^ (k >> 6)) ^ ((k ^ (k >> 6)) >> 6) ^ ((k ^ (k >> 6)) >> 12) ^ ((k ^ (k >> 6)) >> 18) ^ ((k ^ (k >> 6)) >> 24) ^ ((k ^ (k >> 6)) >> 30);
      k;
    }
  }

  lemma MixAfterUnmix4(k: bv32)
    ensures MixStep4(UnmixStep4(k)) == k
  {
    assert (k ^ (k >> 6) ^ (k >> 12) ^ (k >> 18) ^ (k >> 24) ^ (k >> 30)) >> 6 == (k >> 6) ^ (k >> 12) ^ (k >> 18) ^ (k >> 24) ^ (k >> 30);
    calc {
      MixStep4(UnmixStep4(k));
      MixStep4(k ^ (k >> 6) ^ (k >> 12) ^ (k >> 18) ^ (k >> 24) ^ (k >> 30));
      (k ^ (k >> 6) ^ (k >> 12) ^ (k >> 18) ^ (k >> 24) ^ (k >> 30)) ^ ((k ^ (k >> 6) ^ (k >> 12) ^ (k >> 18) ^ (k >> 24) ^ (k >> 30)) >> 6);
      k;
    }
  }

  lemma UnmixAfterMix5(k: bv32)
    ensures UnmixStep5(MixStep5(k)) == k
  {
    calc {
      UnmixStep5(MixStep5(k));
      UnmixStep5(k + !(k << 11));
      ((k + !(k << 11)) + 1) + (((k + !(k << 11)) + 1) << 11) + (((k + !(k << 11)) + 1) << 22);
      k;
    }
  }

  lemma MixAfterUnmix5(k: bv32)
    ensures MixStep5(UnmixStep5(k)) == k
  {
    calc {
      MixStep5(UnmixStep5(k));
      MixStep5((k + 1) + ((k + 1) << 11) + ((k + 1) << 22));
      ((k + 1) + ((k + 1) << 11) + ((k + 1) << 22)) + !(((k + 1) + ((k + 1) << 11) + ((k + 1) << 22)) << 11);
      k;
    }
  }

  lemma UnmixAfterMix6(k: bv32)
    ensures UnmixStep6(MixStep6(k)) == k
  {
    assert (k ^ (k >> 16)) >> 16 == k >> 16;
    calc {
      UnmixStep6(MixStep6(k));
      UnmixStep6(k ^ (k >> 16));
      (k ^ (k >> 16)) ^ ((k ^ (k >> 16)) >> 16);
      k;
    }
  }

  lemma MixAfterUnmix6(k: bv32)
    ensures MixStep6(UnmixStep6(k)) == k
  {
    assert (k ^ (k >> 16)) >> 16 == k >> 16;
    calc {
      MixStep6(UnmixStep6(k));
      MixStep6(k ^ (k >> 16));
      (k ^ (k >> 16)) ^ ((k ^ (k >> 16)) >> 16);
      k;
    }
  }

  /** Every step is a bijection of the 32-bit words, so the whole mix is:
      UnIntHash undoes IntHash and IntHash undoes UnIntHash. */
  lemma IntHashRoundTrip(key: bv32, h: bv32)
    ensures UnIntHash(IntHash(key)) == key
    ensures IntHash(UnIntHash(h)) == h
  {
    var k1 := MixStep1(key);
    var k2 := MixStep2(k1);
    var k3 := MixStep3(k2);
    var k4 := MixStep4(k3);
    var k5 := MixStep5(k4);
    UnmixAfterMix6(k5);
    UnmixAfterMix5(k4);
    UnmixAfterMix4(k3);
    UnmixAfterMix3(k2);
    UnmixAfterMix2(k1);
    UnmixAfterMix1(key);
    var y5 := UnmixStep6(h);
    var y4 := UnmixStep5(y5);
    var y3 := UnmixStep4(y4);
    var y2 := UnmixStep3(y3);
    var y1 := UnmixStep2(y2);
    MixAfterUnmix6(h);
    MixAfterUnmix5(y5);
    MixAfterUnmix4(y4);
    MixAfterUnmix3(y3);
    MixAfterUnmix2(y2);
    MixAfterUnmix1(y1);
  }

  /** Distinct integer keys get distinct hashes, and every 32-bit value is
      the hash of some key. */
  lemma IntHashBijective(a: bv32, b: bv32, h: bv32)
    ensures IntHash(a) == IntHash(b) <==> a == b
    ensures exists key :: IntHash(key) == h
  {
    IntHashRoundTrip(a, h);
    IntHashRoundTrip(b, h);
  }

  /* ---------------------------------------------------------------------- */
  /* Identity hash                                                          */
  /* ---------------------------------------------------------------------- */

  /** dictIdentityHashFunction: the key is its own hash. */
  function IdentityHash(key: bv32): (h: bv32)
    ensures h == key
  {
    key
  }

  /* ---------------------------------------------------------------------- */
  /* The module-level seed                                                  */
  /* ---------------------------------------------------------------------- */

  /** The file-static `dict_hash_function_seed`, as an immutable state. */
  datatype SeedState = SeedState(seed: bv32)

  /** The seed's value before any call to the setter. */
  const InitialSeedState: SeedState := SeedState(5381)

  /** dictSetHashFunctionSeed: the state after storing `seed`. */
  function SetHashFunctionSeed(st: SeedState, seed: bv32): (st': SeedState)
    ensures GetHashFunctionSeed(st') == seed
  {
    st.(seed := seed)
  }

  /** dictGetHashFunctionSeed: reads the state and changes nothing. */
  function GetHashFunctionSeed(st: SeedState): (seed: bv32)
    ensures st == InitialSeedState ==> seed == 5381
  {
    st.seed
  }

  /** The getter returns the value passed to the last setter call, whatever
      was stored before, and a set followed by a get of the stored value
      leaves the state as it was. */
  lemma SeedLastWriteWins(st: SeedState, a: bv32, b: bv32)
    ensures GetHashFunctionSeed(SetHashFunctionSeed(SetHashFunctionSeed(st, a), b)) == b
    ensures SetHashFunctionSeed(st, GetHashFunctionSeed(st)) == st
  {}

  /* ---------------------------------------------------------------------- */
  /* MurmurHash2                                                            */
  /* ---------------------------------------------------------------------- */

  /** Mixing constants `m` and `r` of MurmurHash2. */
  const M: bv32 := 0x5bd1_e995
  const R: bv32 := 24

  /** Little-endian value of up to four bytes, zero-extended to 32 bits:
      byte `i` lands in bits `8i .. 8i+7`. */
  function LittleEndian(b: seq<bv8>): bv32
    requires |b| <= 4
  {
    (if |b| > 0 then Widen(b[0]) else 0)
    | (if |b| > 1 then Widen(b[1]) << 8 else 0)
    | (if |b| > 2 then Widen(b[2]) << 16 else 0)
    | (if |b| > 3 then Widen(b[3]) << 24 else 0)
  }

  /** C's promotion of an `unsigned char` to a 32-bit unsigned value. */
  function Widen(c: bv8): (w: bv32)
    ensures w <= 0xFF
  {
    c as bv32
  }

  /** The successive little-endian 32-bit words of `data`; a trailing
      fragment of fewer than four bytes contributes no word. */
  function Words(data: seq<bv8>): seq<bv32>
  {
    seq(|data| / 4, i requires 0 <= i < |data| / 4 => LittleEndian(data[4 * i .. 4 * i + 4]))
  }

  /** One round of the block loop: scramble the word `k`, then fold it into `h`. */
  function MixBlock(h: bv32, k: bv32): bv32
  {
    var k1 := k * M;
    var k2 := k1 ^ (k1 >> R);
    (h * M) ^ (k2 * M)
  }

  /** The block loop as a left fold over the words. */
  function FoldBlocks(h: bv32, ws: seq<bv32>): bv32
    decreases |ws|
  {
    if |ws| == 0 then h else MixBlock(FoldBlocks(h, ws[..|ws| - 1]), ws[|ws| - 1])
  }

  /** The multiplication by `m` that closes the tail step. */
  function TimesM(x: bv32): bv32 { x * M }

  /** The tail step: the trailing bytes, read as one zero-extended
      little-endian value, are xored in and followed by one multiplication;
      without trailing bytes nothing happens. */
  function MixTail(h: bv32, tail: seq<bv8>): bv32
    requires |tail| < 4
  {
    if |tail| == 0 then h else TimesM(h ^ LittleEndian(tail))
  }

  /** The final avalanche, applied to every input. */
  function Avalanche(h: bv32): bv32
  {
    var h1 := h ^ (h >> 13);
    var h2 := h1 * M;
    h2 ^ (h2 >> 15)
  }

  /** MurmurHash2 of `data` under `seed`, stated over whole words and the
      trailing fragment rather than over a moving pointer. */
  function MurmurHash2(seed: bv32, data: seq<bv8>): bv32
    requires |data| < IntLimit
  {
    var whole := 4 * (|data| / 4);
    Avalanche(MixTail(FoldBlocks(seed ^ (|data| as bv32), Words(data)), data[whole..]))
  }

  /** The empty buffer hashes to the avalanche of the seed itself. */
  lemma MurmurHash2Empty(seed: bv32)
    ensures MurmurHash2(seed, []) == Avalanche(seed)
  {
    assert Words([]) == [];
  }

  /** Appending one whole word to a word-aligned prefix adds its
      little-endian value to the words and exactly one round of the block
      loop. The element-wise proof keeps the solver from searching for it. */
  lemma {:induction false} FoldBlocksSnoc(h: bv32, data: seq<bv8>, w: seq<bv8>)
    requires |data| % 4 == 0 && |w| == 4
    ensures Words(data + w) == Words(data) + [LittleEndian(w)]
    ensures FoldBlocks(h, Words(data + w)) == MixBlock(FoldBlocks(h, Words(data)), LittleEndian(w))
  {
    var n := |data| / 4;
    assert |data + w| / 4 == n + 1;
    forall i | 0 <= i < n + 1
      ensures Words(data + w)[i] == (Words(data) + [LittleEndian(w)])[i]
    {
      if i < n {
        assert (data + w)[4 * i .. 4 * i + 4] == data[4 * i .. 4 * i + 4];
      } else {
        assert (data + w)[4 * i .. 4 * i + 4] == w;
      }
    }
    assert Words(data + w) == Words(data) + [LittleEndian(w)];
    assert (Words(data) + [LittleEndian(w)])[..n] == Words(data);
  }

  /** dictGenHashFunction, following the C code: the pointer `data` becomes
      the offset `pos`, the unaligned `*(uint32_t*)data` read becomes the
      little-endian word at `pos`, and the fall-through `switch` on the
      remaining length becomes three guarded updates. The loop consumes
      exactly `|key| / 4` words and leaves `|key| % 4` bytes for the tail. */
  method GenHashFunction(st: SeedState, key: seq<bv8>) returns (hash: bv32)
    requires |key| < IntLimit
    ensures hash == MurmurHash2(GetHashFunctionSeed(st), key)
  {
    var seed := GetHashFunctionSeed(st);
    var h: bv32 := seed ^ (|key| as bv32);
    var pos;
    h, pos := MixWholeBlocks(h, key);
    h := MixTrailingBytes(h, key[pos..]);
    hash := Avalanche(h);
  }

  /** The `while (len >= 4)` loop of dictGenHashFunction: folds every whole
      four-byte block of `key` into `h` and stops at the first byte of the
      fewer than four that remain. */
  method MixWholeBlocks(h: bv32, key: seq<bv8>) returns (r: bv32, pos: nat)
    ensures r == FoldBlocks(h, Words(key))
    ensures pos == 4 * (|key| / 4) && |key| - pos < 4
  {
    var len: nat := |key|;
    r := h;
    pos := 0;
    ghost var blocks: nat := 0;
    while len >= 4
      invariant pos + len == |key|
      invariant pos == 4 * blocks
      invariant r == FoldBlocks(h, Words(key[..pos]))
    {
      var k: bv32 := LittleEndian(key[pos .. pos + 4]);
      FoldNextBlock(h, key, pos, blocks);
      r := MixBlock(r, k);
      pos := pos + 4;
      len := len - 4;
      blocks := blocks + 1;
    }
    BlockCount(|key|, blocks, len);
    WordsOfWholeBlocks(key, pos);
  }

  /** Extending a prefix of whole blocks by the next four bytes folds one
      more word. */
  lemma FoldNextBlock(h: bv32, key: seq<bv8>, pos: nat, blocks: nat)
    requires pos == 4 * blocks && pos + 4 <= |key|
    ensures FoldBlocks(h, Words(key[..pos + 4]))
            == MixBlock(FoldBlocks(h, Words(key[..pos])), LittleEndian(key[pos .. pos + 4]))
  {
    assert key[..pos + 4] == key[..pos] + key[pos .. pos + 4];
    FoldBlocksSnoc(h, key[..pos], key[pos .. pos + 4]);
  }

  /** Cutting off the trailing fragment leaves the words unchanged. */
  lemma WordsOfWholeBlocks(key: seq<bv8>, pos: nat)
    requires pos == 4 * (|key| / 4)
    ensures Words(key[..pos]) == Words(key)
  {
    assert |key[..pos]| / 4 == |key| / 4;
    forall i | 0 <= i < |key| / 4
      ensures key[..pos][4 * i .. 4 * i + 4] == key[4 * i .. 4 * i + 4]
    {}
  }

  /** The `switch (len)` of dictGenHashFunction on the `len < 4` trailing
      bytes: its xors, then, unless no byte is left, `h *= m` of `case 1`. */
  method MixTrailingBytes(h: bv32, data: seq<bv8>) returns (r: bv32)
    requires |data| < 4
    ensures r == MixTail(h, data)
    ensures |data| == 0 ==> r == h
  {
    r := XorTrailingBytes(h, data);
    if |data| >= 1 {
      r := TimesM(r);
    }
  }

  /** The xors of the fall-through `switch (len)`: `case 3` folds in
      `data[2] << 16` and falls through to `case 2`, which folds in
      `data[1] << 8` and falls through to `case 1`, which folds in
      `data[0]`. Together they fold in the little-endian value of the tail. */
  method XorTrailingBytes(h: bv32, data: seq<bv8>) returns (r: bv32)
    requires |data| < 4
    ensures r == h ^ LittleEndian(data)
  {
    var len := |data|;
    r := h;
    if len == 3 {
      r := XorByteAt(r, data[2], 16);
    }
    if len >= 2 {
      r := XorByteAt(r, data[1], 8);
    }
    if len >= 1 {
      r := XorByteAt(r, data[0], 0);
    }
    TailBytes(h, data);
  }

  /** One update of the `switch`: `h ^= c << shift`, the byte widened to
      32 bits first (`case 1` is the shift by 0). */
  function XorByteAt(h: bv32, c: bv8, shift: bv32): bv32
    requires shift <= 24
  {
    h ^ (Widen(c) << shift)
  }

  /** A length split into whole blocks and fewer than four remaining bytes
      is split by division and remainder by four. */
  lemma BlockCount(n: nat, blocks: nat, rest: nat)
    requires n == 4 * blocks + rest && rest < 4
    ensures blocks == n / 4 && rest == n % 4
  {}

  /** The trailing bytes folded in by the fall-through `switch`, in its
      order: with three bytes left, `b2 << 16`, then `b1 << 8`, then `b0`;
      with two, `b1 << 8` then `b0`; with one, `b0`. Together they are the
      zero-extended little-endian value of the tail. */
  lemma TailBytes(h: bv32, tail: seq<bv8>)
    requires |tail| < 4
    ensures |tail| == 3 ==>
              h ^ LittleEndian(tail) == XorByteAt(XorByteAt(XorByteAt(h, tail[2], 16), tail[1], 8), tail[0], 0)
    ensures |tail| == 2 ==> h ^ LittleEndian(tail) == XorByteAt(XorByteAt(h, tail[1], 8), tail[0], 0)
    ensures |tail| == 1 ==> h ^ LittleEndian(tail) == XorByteAt(h, tail[0], 0)
    ensures |tail| == 0 ==> h ^ LittleEndian(tail) == h
  {
  }

  /* ---------------------------------------------------------------------- */
  /* Case-insensitive djb hash                                              */
  /* ---------------------------------------------------------------------- */

  /** The ASCII codes of 'A', 'Z' and 'a'. */
  const UpperA: bv8 := 0x41
  const UpperZ: bv8 := 0x5A
  const LowerA: bv8 := 0x61

  /** C-locale `tolower` on a byte: 'A'..'Z' move to 'a'..'z', every other
      byte is unchanged. */
  function ToLower(c: bv8): (l: bv8)
    ensures !(UpperA <= l <= UpperZ)
    ensures UpperA <= c <= UpperZ ==> LowerA <= l <= LowerA + 25 && l - LowerA == c - UpperA
    ensures !(UpperA <= c <= UpperZ) ==> l == c
  {
    if UpperA <= c <= UpperZ then c + (LowerA - UpperA) else c
  }

  /** The C code's `(hash << 5) + hash`. */
  function ShiftAdd33(h: bv32): bv32
  {
    (h << 5) + h
  }

  /** One update of the djb hash with an already lower-cased byte, in the
      C code's form. */
  function CaseStep(h: bv32, lower: bv8): bv32
  {
    ShiftAdd33(h) + Widen(lower)
  }

  /** `(hash << 5) + hash` is `hash * 33` modulo 2^32. */
  lemma ShiftAdd33IsTimes33(h: bv32)
    ensures ShiftAdd33(h) == h * 33
  {}

  /** Each update is `hash * 33 + tolower(c)` modulo 2^32. */
  lemma CaseStepIsTimes33(h: bv32, lower: bv8)
    ensures CaseStep(h, lower) == h * 33 + Widen(lower)
  {
    ShiftAdd33IsTimes33(h);
  }

  /** djb hash of `buf` from `seed`: each byte updates the hash to
      `hash * 33 + tolower(byte)` modulo 2^32. */
  function CaseHash(seed: bv32, buf: seq<bv8>): bv32
    decreases |buf|
  {
    if |buf| == 0 then seed else CaseStep(CaseHash(seed, buf[..|buf| - 1]), ToLower(buf[|buf| - 1]))
  }

  /** Hashing one more byte is one more update. */
  lemma CaseHashSnoc(seed: bv32, buf: seq<bv8>, pos: nat)
    requires pos < |buf|
    ensures CaseHash(seed, buf[..pos + 1]) == CaseStep(CaseHash(seed, buf[..pos]), ToLower(buf[pos]))
  {
    assert buf[..pos + 1][..pos] == buf[..pos];
  }

  /** dictGenCaseHashFunction: one update per byte, front to back. */
  method GenCaseHashFunction(st: SeedState, buf: seq<bv8>) returns (hash: bv32)
    requires |buf| < IntLimit
    ensures hash == CaseHash(GetHashFunctionSeed(st), buf)
    ensures |buf| == 0 ==> hash == GetHashFunctionSeed(st)
  {
    var seed := GetHashFunctionSeed(st);
    hash := seed;
    var len: nat := |buf|;
    var pos: nat := 0;
    while len > 0
      invariant pos + len == |buf|
      invariant hash == CaseHash(seed, buf[..pos])
    {
      CaseHashSnoc(seed, buf, pos);
      hash := CaseStep(hash, ToLower(buf[pos]));
      pos := pos + 1;
      len := len - 1;
    }
    assert buf[..pos] == buf;
  }

  /** Two byte strings that are equal once lower-cased. */
  predicate SameIgnoringCase(a: seq<bv8>, b: seq<bv8>)
  {
    |a| == |b| && forall i :: 0 <= i < |a| ==> ToLower(a[i]) == ToLower(b[i])
  }

  /** Inputs of equal length that differ only in ASCII letter case hash alike. */
  lemma {:induction false} CaseHashIgnoresCase(seed: bv32, a: seq<bv8>, b: seq<bv8>)
    requires SameIgnoringCase(a, b)
    ensures CaseHash(seed, a) == CaseHash(seed, b)
    decreases |a|
  {
    if |a| > 0 {
      var n := |a| - 1;
      assert SameIgnoringCase(a[..n], b[..n]) by {
        forall i | 0 <= i < n ensures ToLower(a[..n][i]) == ToLower(b[..n][i]) {
          assert a[..n][i] == a[i] && b[..n][i] == b[i];
        }
      }
      CaseHashIgnoresCase(seed, a[..n], b[..n]);
      assert ToLower(a[n]) == ToLower(b[n]);
      calc {
        CaseHash(seed, a);
        CaseStep(CaseHash(seed, a[..n]), ToLower(a[n]));
        CaseStep(CaseHash(seed, b[..n]), ToLower(b[n]));
        CaseHash(seed, b);
      }
    }
  }

  /** The case hash is a left fold: hashing a concatenation hashes the second
      part starting from the hash of the first. */
  lemma {:induction false} CaseHashConcat(seed: bv32, a: seq<bv8>, b: seq<bv8>)
    ensures CaseHash(seed, a + b) == CaseHash(CaseHash(seed, a), b)
    decreases |b|
  {
    if |b| > 0 {
      var n := |b| - 1;
      assert (a + b)[..|a + b| - 1] == a + b[..n];
      assert (a + b)[|a + b| - 1] == b[n];
      CaseHashConcat(seed, a, b[..n]);
      calc {
        CaseHash(seed, a + b);
        CaseStep(CaseHash(seed, a + b[..n]), ToLower(b[n]));
        CaseStep(CaseHash(CaseHash(seed, a), b[..n]), ToLower(b[n]));
        CaseHash(CaseHash(seed, a), b);
      }
    } else {
      assert a + b == a;
    }
  }
}
