/** The fixed-width digest values `fc::sha1` (20 bytes), `fc::sha256`
    (32 bytes) and `fc::sha512` (64 bytes). The three classes share every
    operation modelled here and differ only in their width, so one module
    serves all three, indexed by `Kind`. A digest is modelled by the bytes of
    its `_hash` array as they lie in memory. */
module Digests {
  import opened Bytes
  import opened Results

  datatype Kind = Sha1 | Sha256 | Sha512

  /** `sizeof(_hash)`: five 32-bit words, four or eight 64-bit words. */
  function Size(k: Kind): (n: nat)
    ensures n == WordCount(k) * WordSize(k)
  {
    match k
    case Sha1 => 20
    case Sha256 => 32
    case Sha512 => 64
  }

  function WordCount(k: Kind): nat
  {
    match k
    case Sha1 => 5
    case Sha256 => 4
    case Sha512 => 8
  }

  function WordSize(k: Kind): nat
  {
    if k == Sha1 then 4 else 8
  }

  /** The default constructor `memset`s `_hash` to zero. */
  function Zero(k: Kind): (z: seq<byte>)
    ensures |z| == Size(k)
    ensures forall i :: 0 <= i < |z| ==> z[i] == 0
  {
    Zeros(Size(k))
  }

  /** `sha256( const char* data, size_t size )`: throws unless exactly 32 bytes
      are given, and then holds those bytes. */
  function Sha256FromData(data: seq<byte>): (r: Result<seq<byte>>)
    ensures r.Ok? <==> |data| == Size(Sha256)
    ensures r.Ok? ==> r.value == data && |r.value| == 32
  {
    if |data| != Size(Sha256) then Err("sha256: size mismatch") else Ok(data)
  }

  // ---------------------------------------------------------------------
  // Comparison: every operator is a sign test on `memcmp` over `_hash`.

  /** The sign of `memcmp( a, b, n )`: unsigned bytes, first difference decides. */
  function MemCmp(a: seq<byte>, b: seq<byte>): (c: int)
    requires |a| == |b|
    ensures -1 <= c <= 1
    ensures c == 0 <==> a == b
  {
    if |a| == 0 then 0
    else if a[0] < b[0] then -1
    else if a[0] > b[0] then 1
    else
      var c := MemCmp(a[1..], b[1..]);
      assert c == 0 ==> a == [a[0]] + a[1..] == [b[0]] + b[1..] == b;
      c
  }

  predicate Less(a: seq<byte>, b: seq<byte>) requires |a| == |b| { MemCmp(a, b) < 0 }
  predicate Greater(a: seq<byte>, b: seq<byte>) requires |a| == |b| { MemCmp(a, b) > 0 }
  predicate GreaterEq(a: seq<byte>, b: seq<byte>) requires |a| == |b| { MemCmp(a, b) >= 0 }
  predicate Equal(a: seq<byte>, b: seq<byte>) requires |a| == |b| { MemCmp(a, b) == 0 }
  predicate NotEqual(a: seq<byte>, b: seq<byte>) requires |a| == |b| { MemCmp(a, b) != 0 }

  /** `a` comes before `b` in lexicographic byte order: they agree up to some
      position `k`, where `a` has the smaller byte. */
  ghost predicate LexBefore(a: seq<byte>, b: seq<byte>)
    requires |a| == |b|
  {
    exists k :: 0 <= k < |a| && a[..k] == b[..k] && a[k] < b[k]
  }

  /** A first difference in the tails is a first difference of the whole
      when the first bytes agree. */
  lemma LexBeforeFromTail(a: seq<byte>, b: seq<byte>)
    requires |a| == |b| > 0 && a[0] == b[0] && LexBefore(a[1..], b[1..])
    ensures LexBefore(a, b)
  {
    var k :| 0 <= k < |a| - 1 && a[1..][..k] == b[1..][..k] && a[1..][k] < b[1..][k];
    assert a[..k + 1] == [a[0]] + a[1..][..k];
    assert b[..k + 1] == [b[0]] + b[1..][..k];
  }

  /** Conversely a first difference of the whole lies in the tails when the
      first bytes agree. */
  lemma LexBeforeToTail(a: seq<byte>, b: seq<byte>)
    requires |a| == |b| > 0 && a[0] == b[0] && LexBefore(a, b)
    ensures LexBefore(a[1..], b[1..])
  {
    var k :| 0 <= k < |a| && a[..k] == b[..k] && a[k] < b[k];
    assert k > 0;
    assert a[1..][..k - 1] == a[..k][1..];
    assert b[1..][..k - 1] == b[..k][1..];
  }

  /** When the first byte of `a` is the larger, `a` is not before `b`. */
  lemma NotLexBeforeWhenFirstGreater(a: seq<byte>, b: seq<byte>)
    requires |a| == |b| > 0 && a[0] > b[0]
    ensures !LexBefore(a, b)
  {

  }

  /** `<` is exactly lexicographic byte order. */
  lemma {:induction false} LessIsLexicographic(a: seq<byte>, b: seq<byte>)
    requires |a| == |b|
    ensures Less(a, b) <==> LexBefore(a, b)
  {
    if |a| > 0 {
      if a[0] < b[0] {
        assert a[..0] == b[..0];
      } else if a[0] > b[0] {
        NotLexBeforeWhenFirstGreater(a, b);
      } else {
        LessIsLexicographic(a[1..], b[1..]);
        if LexBefore(a[1..], b[1..]) {
          LexBeforeFromTail(a, b);
        }
        if LexBefore(a, b) {
          LexBeforeToTail(a, b);
        }
      }
    }
  }

  /** Swapping the operands of `memcmp` flips its sign. */
  lemma {:induction false} MemCmpAntisymmetric(a: seq<byte>, b: seq<byte>)
    requires |a| == |b|
    ensures MemCmp(b, a) == -MemCmp(a, b)
  {
    if |a| > 0 && a[0] == b[0] {
      MemCmpAntisymmetric(a[1..], b[1..]);
    }
  }

  /** `<` is transitive, so the digests are totally ordered. */
  lemma {:induction false} LessTransitive(a: seq<byte>, b: seq<byte>, c: seq<byte>)
    requires |a| == |b| == |c|
    requires Less(a, b) && Less(b, c)
    ensures Less(a, c)
  {
    if a[0] == b[0] && b[0] == c[0] {
      LessTransitive(a[1..], b[1..], c[1..]);
    }
  }

  /** The five operators agree with each other: exactly one of `<`, `==`,
      `>` holds, `!=` negates `==`, `>=` negates `<`, and `a > b` is `b < a`. */
  lemma OperatorsConsistent(a: seq<byte>, b: seq<byte>)
    requires |a| == |b|
    ensures Less(a, b) || Equal(a, b) || Greater(a, b)
    ensures !(Less(a, b) && Equal(a, b)) && !(Less(a, b) && Greater(a, b)) && !(Equal(a, b) && Greater(a, b))
    ensures NotEqual(a, b) <==> !Equal(a, b)
    ensures GreaterEq(a, b) <==> !Less(a, b)
    ensures Equal(a, b) <==> a == b
    ensures Greater(a, b) <==> Less(b, a)
  {
    MemCmpAntisymmetric(a, b);
  }

  // ---------------------------------------------------------------------
  // XOR: `operator^` XORs the words of `_hash` pairwise. XOR acts on each bit
  // independently, so XORing whole words equals XORing their bytes, whatever
  // the byte order of a word.

  function Xor(a: seq<byte>, b: seq<byte>): (r: seq<byte>)
    requires |a| == |b|
    ensures |r| == |a|
  {
    seq(|a|, i requires 0 <= i < |a| => a[i] ^ b[i])
  }

  /** `^` is commutative, `h ^ h` is the zero digest and zero is its identity. */
  lemma XorLaws(k: Kind, a: seq<byte>, b: seq<byte>)
    requires |a| == |b| == Size(k)
    ensures Xor(a, b) == Xor(b, a)
    ensures Xor(a, a) == Zero(k)
    ensures Xor(a, Zero(k)) == a
    ensures Xor(Xor(a, b), b) == a
  {
  }

  // ---------------------------------------------------------------------
  // Variant conversion. `to_variant` emits the `sizeof` bytes of the digest
  // as a byte vector; the variant layer itself is taken as the identity.

  function ToVariant(h: seq<byte>): (v: seq<byte>)
    ensures |v| == |h|
  {
    h
  }

  /** What `from_variant` leaves in a digest of `n` bytes: the first
      `min(|ve|, n)` bytes of `ve`, zero after them. */
  function Padded(ve: seq<byte>, n: nat): (h: seq<byte>)
    ensures |h| == n
  {
    seq(n, i requires 0 <= i < n => if i < |ve| then ve[i] else 0)
  }

  /** `from_variant`: zero-fill `_hash` byte by byte, then `memcpy` the first
      `min(|ve|, sizeof)` bytes of the vector when it is not empty. */
  method FromVariant(k: Kind, ve: seq<byte>) returns (h: seq<byte>)
    ensures |h| == Size(k)
    ensures h == Padded(ve, Size(k))
  {
    var bi := new byte[Size(k)];
    var i := 0;
    while i < bi.Length
      invariant 0 <= i <= bi.Length
      invariant forall j :: 0 <= j < i ==> bi[j] == 0
    {
      bi[i] := 0;
      i := i + 1;
    }
    if |ve| > 0 {
      var n := if |ve| < bi.Length then |ve| else bi.Length;
      var j := 0;
      while j < n
        invariant 0 <= j <= n
        invariant forall m :: 0 <= m < j ==> bi[m] == ve[m]
        invariant forall m :: j <= m < bi.Length ==> bi[m] == 0
      {
        bi[j] := ve[j];
        j := j + 1;
      }
    }
    h := bi[..];
  }

  /** Short input is zero-padded, long input truncated, empty input gives the
      zero digest, and a full-width input is kept as it is. */
  lemma PaddedCases(k: Kind, ve: seq<byte>)
    ensures |ve| <= Size(k) ==> Padded(ve, Size(k)) == ve + Zeros(Size(k) - |ve|)
    ensures |ve| >= Size(k) ==> Padded(ve, Size(k)) == ve[..Size(k)]
    ensures ve == [] ==> Padded(ve, Size(k)) == Zero(k)
  {
  }

  /** `from_variant( to_variant( h ) )` gives back `h`. */
  lemma VariantRoundTrip(k: Kind, h: seq<byte>)
    requires |h| == Size(k)
    ensures Padded(ToVariant(h), Size(k)) == h
  {
  }

  /** `hmac<H>::internal_block_size()`, the block size B of section 2 of
      RFC 2104: 64 bytes for SHA-256 and 128 for SHA-512, twice the digest
      width in both cases. sha1.cpp defines no HMAC block size. */
  function HmacInternalBlockSize(k: Kind): (b: nat)
    requires k != Sha1
    ensures b == 2 * Size(k)
    ensures k == Sha256 ==> b == 64
  {
    if k == Sha256 then 64 else 128
  }
}
