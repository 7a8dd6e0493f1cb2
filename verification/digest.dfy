/** Key digests (`AssemblyHash`): every key type the table accepts is turned
    into a 32-bit digest. Byte strings use a two-word lookup over their first
    and last two bytes; integers use identity, high/low folding or
    truncation, depending on the type. */
module KeyDigest {

  /** Digest reported for inputs shorter than four bytes. */
  const SHORT_INPUT: bv32 := 80

  const TWO_POW_32: int := 0x1_0000_0000
  const TWO_POW_64: int := 0x1_0000_0000_0000_0000

  /** Rust's signed integer types, as the integers they hold. */
  newtype i32 = x: int | -0x8000_0000 <= x < 0x8000_0000
  newtype i64 = x: int | -0x8000_0000_0000_0000 <= x < 0x8000_0000_0000_0000
  /** `isize` on a 64-bit target. */
  newtype isize = x: int | -0x8000_0000_0000_0000 <= x < 0x8000_0000_0000_0000

  /** The lowest byte of a word. */
  function LowByte(x: bv32): bv8 {
    (x & 0xFF) as bv8
  }

  /** The four bytes of a word, least significant first (its little-endian
      memory image). */
  function LeBytes(x: bv32): (bv8, bv8, bv8, bv8) {
    (LowByte(x), LowByte(x >> 8), LowByte(x >> 16), LowByte(x >> 24))
  }

  /** A 16-bit little-endian load zero-extended to 32 bits (`movzx`, `ldrh`). */
  function Word16(lo: bv8, hi: bv8): bv32 {
    (lo as bv32) | ((hi as bv32) << 8)
  }

  /** Two little-endian words packed high then low: bytes `c0, c1, b0, b1`
      from the least significant byte up. */
  function PackWords(b0: bv8, b1: bv8, c0: bv8, c1: bv8): (r: bv32)
    ensures LeBytes(r) == (c0, c1, b0, b1)
  {
    (Word16(b0, b1) << 16) | Word16(c0, c1)
  }

  /** `look_up_identifier`: the word at offset 0 goes to the high half, the
      word at offset `len - 2` to the low half; inputs shorter than four
      bytes give 80. Read byte by byte, the digest is
      `b[n-2], b[n-1], b[0], b[1]` from the least significant byte up. */
  function LookUpIdentifier(data: seq<bv8>): (r: bv32)
    ensures |data| < 4 ==> r == SHORT_INPUT
    ensures |data| >= 4 ==> LeBytes(r) == (data[|data| - 2], data[|data| - 1], data[0], data[1])
  {
    if |data| < 4 then SHORT_INPUT
    else PackWords(data[0], data[1], data[|data| - 2], data[|data| - 1])
  }

  /** `impl AssemblyHash for &str`: the digest of the string's UTF-8 bytes. */
  function HashStr(s: seq<bv8>): (r: bv32)
    ensures |s| < 4 ==> r == SHORT_INPUT
    ensures |s| >= 4 ==> LeBytes(r) == (s[|s| - 2], s[|s| - 1], s[0], s[1])
  {
    LookUpIdentifier(s)
  }

  /** `impl AssemblyHash for String`: delegates to the `&str` digest. */
  function HashString(s: seq<bv8>): (r: bv32)
    ensures |s| < 4 ==> r == SHORT_INPUT
    ensures |s| >= 4 ==> LeBytes(r) == (s[|s| - 2], s[|s| - 1], s[0], s[1])
  {
    HashStr(s)
  }

  /** `impl AssemblyHash for u32`: the value itself, which is also what the
      `u64` and `usize` digests give for the same value widened. */
  function HashU32(x: bv32): (r: bv32)
    ensures r == HashU64(x as bv64) && r == HashUsize(x as bv64)
  {
    x
  }

  /** `impl AssemblyHash for u64`: high 32 bits XOR low 32 bits. A value
      that lives in one half only hashes to that half. */
  function HashU64(x: bv64): (r: bv32)
    ensures x >> 32 == 0 ==> r as bv64 == x
    ensures x & 0xFFFF_FFFF == 0 ==> r as bv64 == x >> 32
  {
    ((x >> 32) as bv32) ^ ((x & 0xFFFF_FFFF) as bv32)
  }

  /** Rust's `as u32` on an integer, read as a number: the one value below
      2^32 congruent to `x`, which is the low 32 bits of its two's complement
      pattern. */
  function Wrap32(x: int): (r: nat)
    ensures r < TWO_POW_32 && (x - r) % TWO_POW_32 == 0
    ensures 0 <= x < TWO_POW_32 ==> r == x
    ensures -TWO_POW_32 <= x < 0 ==> r == x + TWO_POW_32
  {
    x % TWO_POW_32
  }

  /** `impl AssemblyHash for usize` (64-bit target): truncation, not folding.
      The digest is the low half of the word, whatever the high half holds. */
  function HashUsize(x: bv64): (r: bv32)
    ensures r as bv64 == x & 0xFFFF_FFFF
  {
    (x & 0xFFFF_FFFF) as bv32
  }

  /** `impl AssemblyHash for i32`: the two's complement bit pattern. */
  function HashI32(x: i32): (r: bv32)
    ensures x >= 0 ==> r == x as int as bv32
    ensures x < 0 ==> r == (x as int + TWO_POW_32) as bv32
  {
    Wrap32(x as int) as bv32
  }

  /** Rust's `as u64` on an `i64`, read as a number. */
  function Wrap64(x: int): (r: nat)
    ensures r < TWO_POW_64 && (x - r) % TWO_POW_64 == 0
    ensures 0 <= x < TWO_POW_64 ==> r == x
    ensures -TWO_POW_64 <= x < 0 ==> r == x + TWO_POW_64
  {
    x % TWO_POW_64
  }

  /** Rust's `as u64` on an `i64`: the two's complement bit pattern. */
  function AsU64(x: i64): (r: bv64)
    ensures x >= 0 ==> r == x as int as bv64
    ensures x < 0 ==> r == (x as int + TWO_POW_64) as bv64
  {
    var w := Wrap64(x as int);
    assert x < 0 ==> w == x as int + TWO_POW_64;
    w as bv64
  }

  /** `impl AssemblyHash for i64`: reinterpret as `u64`, then fold. */
  function HashI64(x: i64): (r: bv32)
    ensures x >= 0 ==> r == HashU64(x as int as bv64)
    ensures x < 0 ==> r == HashU64((x as int + TWO_POW_64) as bv64)
  {
    HashU64(AsU64(x))
  }

  /** `impl AssemblyHash for isize` (64-bit target): truncation, not folding. */
  function HashIsize(x: isize): (r: bv32)
    ensures r == Wrap32(x as int) as bv32
    ensures 0 <= x as int < TWO_POW_32 ==> r == x as int as bv32
    ensures -TWO_POW_32 <= x as int < 0 ==> r == (x as int + TWO_POW_32) as bv32
  {
    Wrap32(x as int) as bv32
  }

  /** For inputs of at least four bytes the digest depends on exactly the
      first two and the last two bytes: two inputs collide iff those agree. */
  lemma DigestDeterminedByEnds(a: seq<bv8>, b: seq<bv8>)
    requires |a| >= 4 && |b| >= 4
    ensures LookUpIdentifier(a) == LookUpIdentifier(b) <==>
      && a[0] == b[0] && a[1] == b[1]
      && a[|a| - 2] == b[|b| - 2] && a[|a| - 1] == b[|b| - 1]
  {
    var ra, rb := LookUpIdentifier(a), LookUpIdentifier(b);
    if ra == rb {
      assert LeBytes(ra) == LeBytes(rb);
    }
  }

  /** The `String` and `&str` digests agree. */
  lemma StringAgreesWithStr(s: seq<bv8>)
    ensures HashString(s) == HashStr(s)
    ensures |s| < 4 ==> HashString(s) == SHORT_INPUT
  {
  }

  /** The sentinel is not a separate error channel: a four-byte input can
      hash to 80 as well. */
  lemma SentinelIsReachableByLongInput()
    ensures LookUpIdentifier([0, 0, 80, 0]) == SHORT_INPUT
  {
  }

  /** The demo program's inputs: "hello" and "ab". */
  lemma DemoVectors()
    ensures LookUpIdentifier([0x68, 0x65, 0x6C, 0x6C, 0x6F]) == 0x6568_6F6C
    ensures LookUpIdentifier([0x61, 0x62]) == SHORT_INPUT
  {
  }

  /** A value that fits in 31 bits hashes to itself under every unsigned
      digest, so the integer rules agree where their domains overlap. */
  lemma UnsignedDigestsAgreeOnSmallValues(x: bv32)
    requires x < 0x8000_0000
    ensures HashU32(x) == x
    ensures HashU64(x as bv64) == x
    ensures HashUsize(x as bv64) == x
  {
  }

  /** The same for the signed digests, on non-negative values. */
  lemma SignedDigestsAgreeOnSmallValues(v: int)
    requires 0 <= v < 0x8000_0000
    ensures HashI32(v as i32) == v as bv32
    ensures HashIsize(v as isize) == v as bv32
    ensures HashI64(v as i64) == HashU64(v as bv64)
  {
  }

  /** `usize` keys are truncated, not folded: 2^32 hashes to 0 as `usize`
      but to 1 as `u64`. */
  lemma UsizeTruncatesWhereU64Folds()
    ensures HashUsize(0x1_0000_0000) == 0
    ensures HashU64(0x1_0000_0000) == 1
    ensures HashIsize(0x1_0000_0000 as isize) == 0
    ensures HashI64(0x1_0000_0000 as i64) == 1
  {
    assert AsU64(0x1_0000_0000 as i64) == 0x1_0000_0000;
  }

  /** On every word, folding is truncation XOR the high half. */
  lemma FoldIsTruncationXorHigh(x: bv64)
    ensures HashU64(x) == HashUsize(x) ^ (x >> 32) as bv32
  {
  }

  /** The `u64` and `usize` digests of a word agree exactly when its high
      half is zero. */
  lemma FoldAgreesIffHighZero(x: bv64)
    ensures HashU64(x) == HashUsize(x) <==> x >> 32 == 0
  {
    var high := (x >> 32) as bv32;
    assert high == 0 <==> x >> 32 == 0;
    FoldIsTruncationXorHigh(x);
    XorIdentity(HashUsize(x), high);
  }

  lemma XorIdentity(a: bv32, b: bv32)
    ensures a ^ b == a <==> b == 0
  {
  }
}
