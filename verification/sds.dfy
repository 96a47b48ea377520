/**
  Simple dynamic strings (sds.h, sds.c): the `sdshdr` header, its
  constructor `sdsnewlen` and the length accessor `sdslen`.

  A string lives in one allocation: the header's two `int` fields `len`
  and `free`, immediately followed by the bytes of `buf`. The handle the
  library hands out, an `sds`, designates `buf`; the header is found by
  stepping back over it. Here the allocation is a record holding the header
  fields and the bytes of `buf`, and the handle carries that record, so the
  step back is a field access.

  Allocation is an abstract step that may fail: `zmalloc` yields bytes of
  unknown content, `zcalloc` yields zero bytes, and a failed allocation is
  NULL. The C conversions between `size_t` and `int` are written out:
  storing a `size_t` into an `int` keeps its low 32 bits as a two's
  complement value, and reading an `int` back as `size_t` adds 2^64 to a
  negative value.
*/
module Sds {
  import opened Wrappers
  import opened CTypes

  /** `sizeof(struct sdshdr)`: two `int` fields; the flexible `buf` adds
      nothing. */
  const HeaderSize: nat := 8

  /** `struct sdshdr`: the used length, the spare length, and the bytes of
      `buf` that the allocation provides. */
  datatype SdsHdr = SdsHdr(len: Int32, free: Int32, buf: seq<bv8>)

  /** An `sds` handle: it designates the `buf` of the header it carries. */
  datatype Sds = Sds(hdr: SdsHdr)

  /* ---------------------------------------------------------------------- */
  /* Integer conversions                                                    */
  /* ---------------------------------------------------------------------- */

  /** `(int) n` for a `size_t n`: the low 32 bits, read as two's complement. */
  function IntOfSize(n: nat): (r: Int32)
    requires n < ULongLimit
    ensures n < IntLimit ==> r as int == n
    ensures (r as int - n) % 0x1_0000_0000 == 0
  {
    var low := n % 0x1_0000_0000;
    if low < IntLimit then low as Int32 else (low - 0x1_0000_0000) as Int32
  }

  /** `(size_t) x` for an `int x`: a negative value wraps modulo 2^64. */
  function SizeOfInt(x: Int32): (n: nat)
    ensures n < ULongLimit
    ensures x >= 0 ==> n == x as int
    ensures x < 0 ==> n == x as int + ULongLimit
  {
    if x >= 0 then x as int else x as int + ULongLimit
  }

  /* ---------------------------------------------------------------------- */
  /* Allocation                                                             */
  /* ---------------------------------------------------------------------- */

  /** What the allocator does on this call: whether it fails, and the bytes
      an uninitialised block happens to hold. */
  datatype Allocator = Allocator(fails: bool, junk: nat -> bv8)

  /** zmalloc: a block of `size` bytes of unknown content, or NULL. */
  function Zmalloc(a: Allocator, size: nat): (block: Option<seq<bv8>>)
    ensures block.None? <==> a.fails
    ensures block.Some? ==> |block.value| == size
  {
    if a.fails then None else Some(seq(size, i requires 0 <= i => a.junk(i)))
  }

  /** zcalloc: a block of `size` zero bytes, or NULL. */
  function Zcalloc(a: Allocator, size: nat): (block: Option<seq<bv8>>)
    ensures block.None? <==> a.fails
    ensures block.Some? ==> |block.value| == size
    ensures block.Some? ==> forall i :: 0 <= i < size ==> block.value[i] == 0
  {
    if a.fails then None else Some(seq(size, _ => 0))
  }

  /* ---------------------------------------------------------------------- */
  /* Construction and length                                                */
  /* ---------------------------------------------------------------------- */

  /** sdsnewlen. `init` is NULL (`None`) or points at bytes, of which the
      first `initlen` are copied. The block comes from zmalloc when there is
      content to copy and from zcalloc otherwise; a failed allocation makes
      the result NULL. Otherwise the header gets `len = initlen` and
      `free = 0`, the content is copied when both `initlen` and `init` are
      non-zero, and `buf[initlen]` is set to NUL; the handle designates
      `buf`. */
  function SdsNewLen(init: Option<seq<bv8>>, initlen: nat, a: Allocator): (s: Option<Sds>)
    requires initlen < ULongLimit - HeaderSize - 1
    requires init.Some? ==> initlen <= |init.value|
    ensures s.None? <==> a.fails
    ensures s.Some? ==> s.value.hdr.len == IntOfSize(initlen) && s.value.hdr.free == 0
    ensures s.Some? ==> |s.value.hdr.buf| == initlen + 1 && s.value.hdr.buf[initlen] == 0
    ensures s.Some? && init.Some? ==> s.value.hdr.buf[..initlen] == init.value[..initlen]
    ensures s.Some? && init.None? ==> forall i :: 0 <= i < initlen ==> s.value.hdr.buf[i] == 0
  {
    var size := HeaderSize + initlen + 1;
    var block := if init.Some? then Zmalloc(a, size) else Zcalloc(a, size);
    if block.None? then None
    else
      var raw := block.value[HeaderSize..];
      var filled := if initlen != 0 && init.Some? then init.value[..initlen] + raw[initlen..] else raw;
      Some(Sds(SdsHdr(IntOfSize(initlen), 0, filled[initlen := 0])))
  }

  /** sdslen: the header's `len`, read through the handle and returned as
      a `size_t`: a non-negative `len` unchanged, a negative one wrapped
      modulo 2^64. */
  function SdsLen(s: Sds): (n: nat)
    ensures n < ULongLimit
    ensures s.hdr.len >= 0 ==> n == s.hdr.len as int
    ensures s.hdr.len < 0 ==> n == s.hdr.len as int + ULongLimit
  {
    SizeOfInt(s.hdr.len)
  }

  /** The well-formed strings: non-negative `len` and `free`, a buffer of
      `len + free` bytes plus the terminator, and NUL right after the
      content. */
  predicate ValidSds(s: Sds)
  {
    s.hdr.len >= 0 && s.hdr.free >= 0
    && |s.hdr.buf| == s.hdr.len as int + s.hdr.free as int + 1
    && s.hdr.buf[s.hdr.len as int] == 0
  }

  /** The bytes of the string: the first `len` bytes of `buf`. */
  function Content(s: Sds): (c: seq<bv8>)
    requires ValidSds(s)
    ensures |c| == s.hdr.len as int
  {
    s.hdr.buf[..s.hdr.len as int]
  }

  /** A successful sdsnewlen of a length that fits in an `int` yields a
      well-formed string whose length reads back as `initlen`, whose
      capacity `len + free` is exactly `initlen`, and whose content is the
      copied prefix of `init`, or zeros without `init`. */
  lemma NewLenRoundTrip(init: Option<seq<bv8>>, initlen: nat, a: Allocator)
    requires initlen < IntLimit
    requires init.Some? ==> initlen <= |init.value|
    requires !a.fails
    ensures SdsNewLen(init, initlen, a).Some?
    ensures ValidSds(SdsNewLen(init, initlen, a).value)
    ensures SdsLen(SdsNewLen(init, initlen, a).value) == initlen
    ensures SdsNewLen(init, initlen, a).value.hdr.len as int + SdsNewLen(init, initlen, a).value.hdr.free as int == initlen
    ensures init.Some? ==> Content(SdsNewLen(init, initlen, a).value) == init.value[..initlen]
    ensures init.None? ==> Content(SdsNewLen(init, initlen, a).value) == seq(initlen, _ => 0)
  {
    var s := SdsNewLen(init, initlen, a).value;
    assert Content(s) == s.hdr.buf[..initlen];
  }

  /** For a well-formed string, sdslen is the number of content bytes. */
  lemma SdsLenIsContentLength(s: Sds)
    requires ValidSds(s)
    ensures SdsLen(s) == |Content(s)|
  {}

  /** Beyond the largest `int` the length does not survive: a request for
      2^31 bytes stores `len` as the most negative `int`, and sdslen then
      reports 2^64 - 2^31. */
  lemma LengthBeyondIntWraps(init: Option<seq<bv8>>, a: Allocator)
    requires init.Some? ==> IntLimit <= |init.value|
    requires !a.fails
    ensures SdsNewLen(init, IntLimit, a).Some?
    ensures SdsLen(SdsNewLen(init, IntLimit, a).value) == ULongLimit - IntLimit
    ensures !ValidSds(SdsNewLen(init, IntLimit, a).value)
  {
    assert IntOfSize(IntLimit) as int == -IntLimit;
  }
}
