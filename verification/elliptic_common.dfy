/** The byte-level layer of `fc::ecc` shared by every curve implementation:
    big-endian integers in a byte buffer, the BIP-32 child-derivation message,
    the 78-byte extended-key layout of the BIP-32 section "Serialization
    format", the checksummed payload of a public key's base58 text, and the
    canonical-signature test. Hashing, HMAC, base58 and all curve arithmetic
    are foreign: a hash enters as a function parameter, base58 text enters as
    the bytes it decodes to. */
module EllipticCommon {
  import opened Bytes
  import opened Results

  type int32 = x: int | -0x8000_0000 <= x < 0x8000_0000

  type Bytes32 = s: seq<byte> | |s| == 32 witness Zeros(32)
  type Bytes33 = s: seq<byte> | |s| == 33 witness Zeros(33)
  type Bytes64 = s: seq<byte> | |s| == 64 witness Zeros(64)

  /** A compact signature: a recovery byte, then the 32 bytes of r and of s. */
  type CompactSignature = s: seq<byte> | |s| == 65 witness Zeros(65)

  const BtcExtPubMagic: u32 := 0x0488_B21E
  const BtcExtPrivMagic: u32 := 0x0488_ADE4

  /** The size of `extended_key_data`. */
  const ExtendedKeySize: nat := 78

  // ---------------------------------------------------------------------
  // detail::_left / detail::_right

  /** The first 32 bytes of a sha512 value, as a sha256. */
  function Left(v: Bytes64): (r: Bytes32)
    ensures forall i :: 0 <= i < 32 ==> r[i] == v[i]
  {
    v[..32]
  }

  /** The last 32 bytes of a sha512 value, as a sha256. */
  function Right(v: Bytes64): (r: Bytes32)
    ensures forall i :: 0 <= i < 32 ==> r[i] == v[32 + i]
  {
    v[32..]
  }

  /** The two halves are disjoint and together make up the whole value. */
  lemma LeftRightSplit(v: Bytes64)
    ensures Left(v) + Right(v) == v
  {
  }

  // ---------------------------------------------------------------------
  // detail::_put / detail::_get

  /** The `int` to `unsigned int` conversion applied when a signed index is
      handed to `_put`: the value modulo 2^32. */
  function AsUnsigned(i: int32): (u: u32)
    ensures (u - i) % 0x1_0000_0000 == 0
    ensures i >= 0 ==> u == i
  {
    if i < 0 then i + 0x1_0000_0000 else i
  }

  /** The four bytes `_put` writes for `v`: `v >> 24`, `v >> 16`, `v >> 8` and
      `v`, each masked to its low eight bits. */
  function BigEndian32(v: u32): (s: seq<byte>)
    ensures |s| == 4
    ensures BigEndianValue(s) == v
  {
    var s := [ToByte(v / 0x100_0000), ToByte(v / 0x1_0000 % 256),
              ToByte(v / 0x100 % 256), ToByte(v % 256)];
    BigEndianValue4(s);
    SplitU32(v);
    s
  }

  /** The four base-256 digits of a 32-bit number. */
  lemma SplitU32(v: u32)
    ensures v == (v / 0x100_0000) * 0x100_0000 + (v / 0x1_0000 % 256) * 0x1_0000
                 + (v / 0x100 % 256) * 0x100 + v % 256
  {
    var a, d := v / 256, v % 256;
    var b, c := a / 256, a % 256;
    var e, f := b / 256, b % 256;
    assert v == a * 256 + d;
    assert a == b * 256 + c;
    assert b == e * 256 + f;
    assert v / 0x1_0000 == b;
    assert v / 0x100_0000 == e;
  }

  lemma MulMono(a: int, b: int, p: int)
    requires a <= b && p >= 0
    ensures a * p <= b * p
  {
  }

  /** A number and a last base-256 digit determine each other. */
  lemma LastDigitUnique(a: int, x: int, b: int, y: int)
    requires 0 <= x < 256 && 0 <= y < 256
    requires a * 256 + x == b * 256 + y
    ensures a == b && x == y
  {
    if a < b {
      MulMono(a + 1, b, 256);
    } else if b < a {
      MulMono(b + 1, a, 256);
    }
  }

  /** The value of four bytes, written out. */
  lemma BigEndianValue4(s: seq<byte>)
    requires |s| == 4
    ensures BigEndianValue(s)
      == s[0] as int * 0x100_0000 + s[1] as int * 0x1_0000 + s[2] as int * 0x100 + s[3] as int
  {
    var s3, s2, s1 := s[..3], s[..2], s[..1];
    assert s3[..2] == s2 && s2[..1] == s1 && s1[..0] == [];
    assert BigEndianValue(s1) == s[0] as int;
    assert BigEndianValue(s2) == s[0] as int * 0x100 + s[1] as int;
    assert BigEndianValue(s3) == s[0] as int * 0x1_0000 + s[1] as int * 0x100 + s[2] as int;
  }

  /** The value `_get` assembles from four bytes, the first one highest. */
  function FromBigEndian32(s: seq<byte>): (v: u32)
    requires |s| == 4
  {
    BigEndianValueBound(s);
    assert Pow256(4) == 0x1_0000_0000;
    BigEndianValue(s)
  }

  /** `_get` ORs the four bytes in shifted by 24, 16, 8 and 0 bits; as the
      shifted bytes do not overlap, that is their weighted sum. */
  lemma FromBigEndian32Shifts(s: seq<byte>)
    requires |s| == 4
    ensures FromBigEndian32(s)
      == s[0] as int * 0x100_0000 + s[1] as int * 0x1_0000 + s[2] as int * 0x100 + s[3] as int
  {
    BigEndianValue4(s);
  }

  /** Two byte strings of one length that denote the same number are equal. */
  lemma {:induction false} BigEndianValueInjective(s: seq<byte>, t: seq<byte>)
    requires |s| == |t|
    requires BigEndianValue(s) == BigEndianValue(t)
    ensures s == t
  {
    if |s| > 0 {
      var n := |s| - 1;
      InjectiveStep(s, t);
      BigEndianValueInjective(s[..n], t[..n]);
      assert s == s[..n] + [s[n]];
      assert t == t[..n] + [t[n]];
    }
  }

  /** Equal values of equal length agree on the last byte and on the value
      of the bytes before it. */
  lemma InjectiveStep(s: seq<byte>, t: seq<byte>)
    requires |s| == |t| > 0 && BigEndianValue(s) == BigEndianValue(t)
    ensures BigEndianValue(s[..|s| - 1]) == BigEndianValue(t[..|t| - 1]) && s[|s| - 1] == t[|t| - 1]
  {
    var n := |s| - 1;
    var a, b := BigEndianValue(s[..n]), BigEndianValue(t[..n]);
    var x, y := s[n] as int, t[n] as int;
    LastDigitUnique(a, x, b, y);
    ByteIntInjective(s[n], t[n]);
  }

  lemma ByteIntInjective(x: byte, y: byte)
    requires x as int == y as int
    ensures x == y
  {
  }

  /** `_get` after `_put` yields the value written, and `_put` after `_get`
      rewrites the bytes read. */
  lemma BigEndian32RoundTrip(v: u32, s: seq<byte>)
    requires |s| == 4
    ensures FromBigEndian32(BigEndian32(v)) == v
    ensures BigEndian32(FromBigEndian32(s)) == s
  {
    BigEndianValueInjective(BigEndian32(FromBigEndian32(s)), s);
  }

  /** `memcpy( buf + at, src, |src| )`. */
  method MemCpy(buf: array<byte>, at: nat, src: seq<byte>)
    requires at + |src| <= buf.Length
    modifies buf
    ensures buf[..at + |src|] == old(buf[..at]) + src
    ensures forall m :: at + |src| <= m < buf.Length ==> buf[m] == old(buf[m])
  {
    var j := 0;
    while j < |src|
      invariant 0 <= j <= |src|
      invariant forall m :: 0 <= m < at ==> buf[m] == old(buf[m])
      invariant forall m :: 0 <= m < j ==> buf[at + m] == src[m]
      invariant forall m :: at + j <= m < buf.Length ==> buf[m] == old(buf[m])
    {
      buf[at + j] := src[j];
      j := j + 1;
    }
    assert buf[..at + |src|] == old(buf[..at]) + src;
  }

  /** `_put( &dest, i )`: writes `i` most-significant byte first at `dest`
      and advances `dest` by four. */
  method Put(buf: array<byte>, dest: nat, i: u32) returns (next: nat)
    requires dest + 4 <= buf.Length
    modifies buf
    ensures next == dest + 4
    ensures buf[..next] == old(buf[..dest]) + BigEndian32(i)
    ensures forall m :: next <= m < buf.Length ==> buf[m] == old(buf[m])
  {
    next := dest;
    buf[next] := ToByte(i / 0x100_0000);
    next := next + 1;
    buf[next] := ToByte(i / 0x1_0000 % 256);
    next := next + 1;
    buf[next] := ToByte(i / 0x100 % 256);
    next := next + 1;
    buf[next] := ToByte(i % 256);
    next := next + 1;
    assert buf[..next] == old(buf[..dest]) + BigEndian32(i);
  }

  /** `_get( &src )`: reads four bytes at `src`, the first one most
      significant, and advances `src` by four. */
  method Get(buf: array<byte>, src: nat) returns (v: u32, next: nat)
    requires src + 4 <= buf.Length
    ensures next == src + 4
    ensures v == BigEndianValue(buf[src..src + 4])
  {
    next := src;
    v := buf[next] as int * 0x100_0000;
    next := next + 1;
    v := v + buf[next] as int * 0x1_0000;
    next := next + 1;
    v := v + buf[next] as int * 0x100;
    next := next + 1;
    v := v + buf[next] as int;
    next := next + 1;
    FromBigEndian32Shifts(buf[src..src + 4]);
  }

  // ---------------------------------------------------------------------
  // detail::_derive_message

  /** The 37-byte message HMAC-SHA512 is applied to when deriving a child
      (BIP-32, section "Child key derivation (CKD) functions"): a prefix
      byte, 32 key bytes and the child index as four big-endian bytes. */
  function DerivationMessage(first: byte, key32: Bytes32, i: int32): (m: seq<byte>)
  {
    [first] + key32 + BigEndian32(AsUnsigned(i))
  }

  /** The message layout: prefix at 0, key at 1..33, and bytes 33..37 read
      back as the index modulo 2^32, with the top bit set exactly for a
      negative (hardened) index. */
  lemma DerivationMessageLayout(first: byte, key32: Bytes32, i: int32)
    ensures |DerivationMessage(first, key32, i)| == 37
    ensures DerivationMessage(first, key32, i)[0] == first
    ensures DerivationMessage(first, key32, i)[1..33] == key32
    ensures FromBigEndian32(DerivationMessage(first, key32, i)[33..]) == AsUnsigned(i)
    ensures DerivationMessage(first, key32, i)[33] >= 0x80 <==> i < 0
  {
    var m := DerivationMessage(first, key32, i);
    var e := BigEndian32(AsUnsigned(i));
    assert m[33..] == e;
    assert m[33] == e[0];
    BigEndian32RoundTrip(AsUnsigned(i), e);
    TopByte(AsUnsigned(i));
    ByteHigh(e[0]);
  }

  /** The first byte `_put` writes is the top eight bits. */
  lemma TopByte(v: u32)
    ensures BigEndian32(v)[0] as int == v / 0x100_0000
  {
  }

  lemma ByteHigh(b: byte)
    ensures b >= 0x80 <==> b as int >= 0x80
  {
  }

  /** `_derive_message( first, key32, i )`: fills a zero-initialised 37-byte
      array through an advancing pointer. */
  method DeriveMessage(first: byte, key32: Bytes32, i: int32) returns (m: seq<byte>)
    ensures |m| == 37
    ensures m == DerivationMessage(first, key32, i)
  {
    var result := new byte[37](_ => 0);
    var dest := 0;
    result[dest] := first;
    dest := dest + 1;
    MemCpy(result, dest, key32);
    dest := dest + 32;
    dest := Put(result, dest, AsUnsigned(i));
    m := result[..];
  }

  /** The public-key overload: the 33-byte compressed key (its first byte as
      prefix) followed by the index, serP(K) || ser32(i) in BIP-32. */
  method DeriveMessagePublic(key: Bytes33, i: int32) returns (m: seq<byte>)
    ensures |m| == 37
    ensures m[..33] == key
    ensures FromBigEndian32(m[33..]) == AsUnsigned(i)
  {
    m := DeriveMessage(key[0], key[1..], i);
    DerivationMessageLayout(key[0], key[1..], i);
    assert m[..33] == [key[0]] + key[1..] == key;
  }

  /** The private-key overload: 0x00, the 32-byte secret, then the index,
      0x00 || ser256(k) || ser32(i) in BIP-32. */
  method DeriveMessagePrivate(secret: Bytes32, i: int32) returns (m: seq<byte>)
    ensures |m| == 37
    ensures m[0] == 0 && m[1..33] == secret
    ensures FromBigEndian32(m[33..]) == AsUnsigned(i)
  {
    m := DeriveMessage(0, secret, i);
    DerivationMessageLayout(0, secret, i);
  }

  // ---------------------------------------------------------------------
  // public_key::is_canonical

  /** The test on a compact signature: for each of r (bytes 1..33) and s
      (bytes 33..65), the top bit of the first byte is clear, and the first
      byte is not zero unless the second has its top bit set. */
  predicate IsCanonical(c: CompactSignature)
  {
    (c[1] & 0x80) == 0
    && !(c[1] == 0 && (c[2] & 0x80) == 0)
    && (c[33] & 0x80) == 0
    && !(c[33] == 0 && (c[34] & 0x80) == 0)
  }

  /** 2^247 and 2^255. */
  function Pow2To247(): nat { 128 * Pow256(30) }
  function Pow2To255(): nat { 128 * Pow256(31) }

  /** A byte has its top bit set exactly when it is at least 128. */
  lemma TopBit(b: byte)
    ensures (b & 0x80) == 0 <==> b as int < 128
  {
  }

  /** The two range facts for a number b0 * 256p + b1 * p + rest with
      bytes b0, b1 and rest < p. */
  lemma UpperRange(b0: int, tail: int, p31: int)
    requires 0 <= b0 < 256 && 0 <= tail < p31
    ensures b0 * p31 + tail < 128 * p31 <==> b0 < 128
  {
    if b0 < 128 {
      MulMono(b0, 127, p31);
    } else {
      MulMono(128, b0, p31);
    }
  }

  lemma LowerRange(b0: int, b1: int, rest: int, p30: int)
    requires 0 <= b0 < 256 && 0 <= b1 < 256 && 0 <= rest < p30
    ensures b0 * (256 * p30) + b1 * p30 + rest >= 128 * p30 <==> (b0 != 0 || b1 >= 128)
  {
    MulMono(0, b1, p30);
    if b0 != 0 {
      MulMono(1, b0, 256 * p30);
    } else if b1 >= 128 {
      MulMono(128, b1, p30);
    } else {
      MulMono(b1, 127, p30);
    }
  }

  /** For a big-endian number of n >= 2 bytes: below 128 * 256^(n-1) iff
      the first byte is below 128, and at least 128 * 256^(n-2) iff the first
      byte is non-zero or the second is at least 128. */
  lemma ComponentRange(t: seq<byte>)
    requires |t| >= 2
    ensures BigEndianValue(t) < 128 * Pow256(|t| - 1) <==> t[0] as int < 128
    ensures BigEndianValue(t) >= 128 * Pow256(|t| - 2) <==> (t[0] != 0 || t[1] as int >= 128)
  {
    var n := |t|;
    var p30, p31 := Pow256(n - 2), Pow256(n - 1);
    assert p31 == 256 * p30;
    var t1, t2 := t[1..], t[2..];
    BigEndianValueCons(t);
    BigEndianValueCons(t1);
    BigEndianValueBound(t1);
    BigEndianValueBound(t2);
    assert t1[1..] == t2;
    var b0, b1, rest := t[0] as int, t[1] as int, BigEndianValue(t2);
    var tail := BigEndianValue(t1);
    assert tail == b1 * p30 + rest;
    assert BigEndianValue(t) == b0 * p31 + tail;
    UpperRange(b0, tail, p31);
    LowerRange(b0, b1, rest, p30);
  }

  /** A signature is canonical exactly when both r and s, read as 32-byte
      big-endian numbers, lie in [2^247, 2^255): below 2^255 so that a DER
      encoding needs no sign-padding byte, and at least 2^247 so that it
      needs all 32 bytes. */
  lemma IsCanonicalRange(c: CompactSignature)
    ensures IsCanonical(c) <==>
      (Pow2To247() <= BigEndianValue(c[1..33]) < Pow2To255()
       && Pow2To247() <= BigEndianValue(c[33..65]) < Pow2To255())
  {
    ComponentCanonical(c[1..33]);
    ComponentCanonical(c[33..65]);
  }

  /** One 32-byte component passes the two top-bit tests exactly when it
      lies in [2^247, 2^255). */
  lemma ComponentCanonical(t: seq<byte>)
    requires |t| == 32
    ensures ((t[0] & 0x80) == 0 && !(t[0] == 0 && (t[1] & 0x80) == 0))
            <==> Pow2To247() <= BigEndianValue(t) < Pow2To255()
  {
    TopBit(t[0]);
    TopBit(t[1]);
    ComponentRange(t);
  }

  // ---------------------------------------------------------------------
  // public_key::to_base58 / public_key::from_base58

  /** The 37 bytes `to_base58` hands to the base58 encoder: the 33 key bytes,
      then the first four bytes of their SHA-256. */
  function PublicKeyBase58Payload(key: Bytes33, sha256: seq<byte> -> Bytes32): (d: seq<byte>)
    ensures |d| == 37 && d[..33] == key
    ensures d[33..] == sha256(key)[..4]
  {
    key + sha256(key)[..4]
  }

  /** `from_base58` given the bytes its text decodes to: it throws unless
      exactly 37 bytes came out and the last four equal the start of the
      SHA-256 of the first 33, and then yields those 33 bytes as the key. */
  function PublicKeyFromBase58Payload(decoded: seq<byte>, sha256: seq<byte> -> Bytes32): (r: Result<Bytes33>)
    ensures r.Ok? <==> |decoded| == 37 && decoded[33..] == sha256(decoded[..33])[..4]
    ensures r.Ok? ==> decoded == PublicKeyBase58Payload(r.value, sha256)
  {
    if |decoded| != 37 then Err("s == sizeof(data)")
    else if sha256(decoded[..33])[..4] != decoded[33..] then Err("checksum mismatch")
    else Ok(decoded[..33])
  }

  /** Decoding what `to_base58` encodes gives back the key. */
  lemma PublicKeyBase58RoundTrip(key: Bytes33, sha256: seq<byte> -> Bytes32)
    ensures PublicKeyFromBase58Payload(PublicKeyBase58Payload(key, sha256), sha256) == Ok(key)
  {
    var d := PublicKeyBase58Payload(key, sha256);
    assert d[..33] == key;
  }

  // ---------------------------------------------------------------------
  // Extended keys (BIP-32, section "Serialization format")

  /** An extended public key: compressed point, chain code, child number,
      parent fingerprint and depth. The two 32-bit fields are kept as the bit
      patterns `_put` writes and `_get` reads. */
  datatype ExtendedPublicKey = ExtendedPublicKey(
    key: Bytes33, chainCode: Bytes32, childNum: u32, parentFp: u32, depth: byte)

  /** An extended private key, represented by its 32-byte secret. */
  datatype ExtendedPrivateKey = ExtendedPrivateKey(
    secret: Bytes32, chainCode: Bytes32, childNum: u32, parentFp: u32, depth: byte)

  /** The 78 bytes `extended_public_key::serialize_extended` produces. */
  function PublicLayout(k: ExtendedPublicKey): (d: seq<byte>)
  {
    BigEndian32(BtcExtPubMagic) + [k.depth] + BigEndian32(k.parentFp)
      + BigEndian32(k.childNum) + k.chainCode + k.key
  }

  /** The 78 bytes `extended_private_key::serialize_extended` produces. */
  function PrivateLayout(k: ExtendedPrivateKey): (d: seq<byte>)
  {
    BigEndian32(BtcExtPrivMagic) + [k.depth] + BigEndian32(k.parentFp)
      + BigEndian32(k.childNum) + k.chainCode + [0] + k.secret
  }

  /** Where the six fields of a layout lie. */
  lemma FieldOffsets(a: seq<byte>, b: seq<byte>, c: seq<byte>, e: seq<byte>, f: seq<byte>, g: seq<byte>)
    requires |a| == 4 && |b| == 1 && |c| == 4 && |e| == 4 && |f| == 32
    ensures var d := a + b + c + e + f + g;
      |d| == 45 + |g| && d[0..4] == a && d[4] == b[0] && d[5..9] == c && d[9..13] == e
      && d[13..45] == f && d[45..] == g
  {
    var d := a + b + c + e + f + g;
    assert d[0..4] == a;
    assert d[5..9] == c;
    assert d[9..13] == e;
    assert d[13..45] == f;
    assert d[45..] == g;
  }

  /** The fixed offsets of the public layout: version 0..4, depth 4,
      fingerprint 5..9, child number 9..13, chain code 13..45, key 45..78. */
  lemma PublicLayoutOffsets(k: ExtendedPublicKey)
    ensures |PublicLayout(k)| == ExtendedKeySize
    ensures PublicLayout(k)[0..4] == BigEndian32(BtcExtPubMagic)
    ensures PublicLayout(k)[4] == k.depth
    ensures PublicLayout(k)[5..9] == BigEndian32(k.parentFp)
    ensures PublicLayout(k)[9..13] == BigEndian32(k.childNum)
    ensures PublicLayout(k)[13..45] == k.chainCode
    ensures PublicLayout(k)[45..78] == k.key
  {
    FieldOffsets(BigEndian32(BtcExtPubMagic), [k.depth], BigEndian32(k.parentFp),
                 BigEndian32(k.childNum), k.chainCode, k.key);
  }

  /** The fixed offsets of the private layout: as the public one up to the
      chain code, then a zero byte at 45 and the secret at 46..78. */
  lemma PrivateLayoutOffsets(k: ExtendedPrivateKey)
    ensures |PrivateLayout(k)| == ExtendedKeySize
    ensures PrivateLayout(k)[0..4] == BigEndian32(BtcExtPrivMagic)
    ensures PrivateLayout(k)[4] == k.depth
    ensures PrivateLayout(k)[5..9] == BigEndian32(k.parentFp)
    ensures PrivateLayout(k)[9..13] == BigEndian32(k.childNum)
    ensures PrivateLayout(k)[13..45] == k.chainCode
    ensures PrivateLayout(k)[45] == 0
    ensures PrivateLayout(k)[46..78] == k.secret
  {
    var g := [0 as byte] + k.secret;
    assert PrivateLayout(k) == BigEndian32(BtcExtPrivMagic) + [k.depth] + BigEndian32(k.parentFp)
      + BigEndian32(k.childNum) + k.chainCode + g;
    FieldOffsets(BigEndian32(BtcExtPrivMagic), [k.depth], BigEndian32(k.parentFp),
                 BigEndian32(k.childNum), k.chainCode, g);
    assert PrivateLayout(k)[46..78] == g[1..];
  }

  /** The 45 bytes both layouts begin with. */
  function LayoutHeader(magic: u32, depth: byte, parentFp: u32, childNum: u32, chainCode: Bytes32): (h: seq<byte>)
    ensures |h| == 45
  {
    BigEndian32(magic) + [depth] + BigEndian32(parentFp) + BigEndian32(childNum) + chainCode
  }

  /** The first four statements both `serialize_extended` bodies open with:
      version, depth, fingerprint and child number, written through an
      advancing pointer. */
  method WriteFields(result: array<byte>, magic: u32, depth: byte, parentFp: u32, childNum: u32)
    returns (dest: nat)
    requires result.Length >= 13
    modifies result
    ensures dest == 13
    ensures result[..13] == BigEndian32(magic) + [depth] + BigEndian32(parentFp) + BigEndian32(childNum)
    ensures forall m :: 13 <= m < result.Length ==> result[m] == old(result[m])
  {
    dest := 0;
    dest := Put(result, dest, magic);
    ghost var p4 := result[..4];
    result[dest] := depth;
    assert result[..5] == p4 + [depth];
    dest := dest + 1;
    ghost var p5 := result[..5];
    dest := Put(result, dest, parentFp);
    ghost var p9 := result[..9];
    assert p9 == p5 + BigEndian32(parentFp);
    dest := Put(result, dest, childNum);
  }

  /** The statements both `serialize_extended` bodies open with: the fields
      above, then the chain code. The key bytes after them are untouched. */
  method WriteHeader(result: array<byte>, magic: u32, depth: byte, parentFp: u32, childNum: u32, chainCode: Bytes32)
    returns (dest: nat)
    requires result.Length == ExtendedKeySize
    modifies result
    ensures dest == 45
    ensures result[..45] == LayoutHeader(magic, depth, parentFp, childNum, chainCode)
    ensures result[45..] == old(result[45..])
  {
    dest := WriteFields(result, magic, depth, parentFp, childNum);
    ghost var p13 := result[..13];
    MemCpy(result, dest, chainCode);
    dest := dest + 32;
    assert result[..45] == p13 + chainCode;
    assert forall m :: 45 <= m < result.Length ==> result[m] == old(result[m]);
  }

  /** `extended_public_key::serialize_extended`: writes the fields through an
      advancing pointer into a 78-byte array. */
  method SerializeExtendedPublic(k: ExtendedPublicKey) returns (d: seq<byte>)
    ensures |d| == ExtendedKeySize
    ensures d == PublicLayout(k)
  {
    var result := new byte[ExtendedKeySize](_ => 0);
    var dest := WriteHeader(result, BtcExtPubMagic, k.depth, k.parentFp, k.childNum, k.chainCode);
    MemCpy(result, dest, k.key);
    d := result[..];
    assert d == result[..78];
  }

  /** `extended_private_key::serialize_extended`: as the public one, but a zero
      byte and the 32-byte secret take the place of the key. */
  method SerializeExtendedPrivate(k: ExtendedPrivateKey) returns (d: seq<byte>)
    ensures |d| == ExtendedKeySize
    ensures d == PrivateLayout(k)
  {
    var result := new byte[ExtendedKeySize](_ => 0);
    var dest := WriteHeader(result, BtcExtPrivMagic, k.depth, k.parentFp, k.childNum, k.chainCode);
    ghost var head := result[..45];
    result[dest] := 0;
    dest := dest + 1;
    assert result[..46] == head + [0];
    MemCpy(result, dest, k.secret);
    d := result[..];
    assert d == result[..78] == head + [0] + k.secret;
  }

  // ---------------------------------------------------------------------
  // Reading an extended key back

  /** How many bytes `_parse_extended_data` copies out of an `n`-byte decoded
      string: it stops at index 78 or at the first index above `n - 4`, and
      for `n < 4` that subtraction wraps around in `size_t`, so every byte is
      copied. */
  function CopiedCount(n: nat): (c: nat)
    ensures c <= 78 && c <= n
  {
    if n < 4 then n else if n - 3 < 78 then n - 3 else 78
  }

  /** The 78-byte buffer `_parse_extended_data` leaves: the copied prefix of
      `decoded`, zero after it. */
  function ParsedBuffer(decoded: seq<byte>): (b: seq<byte>)
    ensures |b| == ExtendedKeySize
  {
    seq(ExtendedKeySize, i requires 0 <= i < ExtendedKeySize =>
      if i < CopiedCount(|decoded|) then decoded[i] else 0)
  }

  /** `decoded.size() - 4` computed in 64-bit `size_t`. */
  function SizeTMinus4(n: nat): nat
  {
    (n - 4) % 0x1_0000_0000_0000_0000
  }

  /** `_parse_extended_data`: zero the 78-byte buffer, then copy decoded bytes
      one at a time until index 78 or an index above `size - 4`. */
  method ParseExtendedData(buffer: array<byte>, decoded: seq<byte>)
    requires buffer.Length == ExtendedKeySize
    requires |decoded| < 0x1_0000_0000_0000_0000
    modifies buffer
    ensures buffer[..] == ParsedBuffer(decoded)
  {
    var z := 0;
    while z < ExtendedKeySize
      invariant 0 <= z <= ExtendedKeySize
      invariant forall m :: 0 <= m < z ==> buffer[m] == 0
    {
      buffer[z] := 0;
      z := z + 1;
    }
    var last := SizeTMinus4(|decoded|);
    var i := 0;
    while i < |decoded|
      invariant 0 <= i <= |decoded|
      invariant i <= CopiedCount(|decoded|)
      invariant forall m :: 0 <= m < i ==> buffer[m] == decoded[m]
      invariant forall m :: i <= m < ExtendedKeySize ==> buffer[m] == 0
    {
      if i >= ExtendedKeySize || i > last {
        break;
      }
      buffer[i] := decoded[i];
      i := i + 1;
    }
    assert i == CopiedCount(|decoded|);
  }

  /** A standard 82-byte string, 78 payload bytes then a 4-byte checksum,
      yields exactly its payload. */
  lemma ParsedBufferStripsChecksum(payload: seq<byte>, checksum: seq<byte>)
    requires |payload| == ExtendedKeySize && |checksum| == 4
    ensures ParsedBuffer(payload + checksum) == payload
  {
    var d := payload + checksum;
    assert CopiedCount(|d|) == 78;
    assert forall i :: 0 <= i < 78 ==> ParsedBuffer(d)[i] == d[i] == payload[i];
  }

  /** The version test: the first four bytes read as the expected version
      exactly when they are its big-endian encoding. */
  lemma VersionMatch(s: seq<byte>, version: u32)
    requires |s| == 4
    ensures FromBigEndian32(s) == version <==> s == BigEndian32(version)
  {
    BigEndian32RoundTrip(version, s);
  }

  /** What `extended_public_key::from_base58` reads from the parsed buffer:
      it throws unless the first four bytes spell the public version, and
      otherwise takes every field from its fixed offset. */
  function DecodeExtendedPublic(b: seq<byte>): (r: Result<ExtendedPublicKey>)
    requires |b| == ExtendedKeySize
    ensures r.Ok? <==> b[0..4] == BigEndian32(BtcExtPubMagic)
  {
    VersionMatch(b[0..4], BtcExtPubMagic);
    if FromBigEndian32(b[0..4]) != BtcExtPubMagic then Err("Invalid extended private key")
    else Ok(ExtendedPublicKey(b[45..78], b[13..45], FromBigEndian32(b[9..13]), FromBigEndian32(b[5..9]), b[4]))
  }

  /** What `extended_private_key::from_base58` reads: the private version is
      required, the byte at offset 45 is skipped unread, and the secret is
      taken from 46..78. */
  function DecodeExtendedPrivate(b: seq<byte>): (r: Result<ExtendedPrivateKey>)
    requires |b| == ExtendedKeySize
    ensures r.Ok? <==> b[0..4] == BigEndian32(BtcExtPrivMagic)
  {
    VersionMatch(b[0..4], BtcExtPrivMagic);
    if FromBigEndian32(b[0..4]) != BtcExtPrivMagic then Err("Invalid extended private key")
    else Ok(ExtendedPrivateKey(b[46..78], b[13..45], FromBigEndian32(b[9..13]), FromBigEndian32(b[5..9]), b[4]))
  }

  /** The reads both `from_base58` bodies share after the version check:
      depth, fingerprint, child number and chain code, through an advancing
      pointer that ends at offset 45. */
  method ReadHeaderFields(buffer: array<byte>, start: nat)
    returns (d: byte, fp: u32, cn: u32, chain: Bytes32, ptr: nat)
    requires buffer.Length == ExtendedKeySize && start == 4
    ensures d == buffer[4]
    ensures fp == FromBigEndian32(buffer[5..9]) && cn == FromBigEndian32(buffer[9..13])
    ensures chain == buffer[13..45] && ptr == 45
  {
    ptr := start;
    d := buffer[ptr];
    ptr := ptr + 1;
    fp, ptr := Get(buffer, ptr);
    cn, ptr := Get(buffer, ptr);
    chain := buffer[ptr..ptr + 32];
    ptr := ptr + 32;
  }

  /** `extended_public_key::from_base58` given the decoded bytes of its text:
      parse them into a local 78-byte buffer, then read the fields through an
      advancing pointer. */
  method ExtendedPublicFromBase58(decoded: seq<byte>) returns (r: Result<ExtendedPublicKey>)
    requires |decoded| < 0x1_0000_0000_0000_0000
    ensures r == DecodeExtendedPublic(ParsedBuffer(decoded))
  {
    var buffer := new byte[ExtendedKeySize];
    ParseExtendedData(buffer, decoded);
    var ptr := 0;
    var version;
    version, ptr := Get(buffer, ptr);
    assert version == FromBigEndian32(buffer[0..4]);
    if version != BtcExtPubMagic {
      return Err("Invalid extended private key");
    }
    var d, fp, cn, chain;
    d, fp, cn, chain, ptr := ReadHeaderFields(buffer, ptr);
    var key := buffer[ptr..ptr + 33];
    r := Ok(ExtendedPublicKey(key, chain, cn, fp, d));
  }

  /** `extended_private_key::from_base58`: as the public one, with the private
      version, and the pointer stepped over one byte before the secret. */
  method ExtendedPrivateFromBase58(decoded: seq<byte>) returns (r: Result<ExtendedPrivateKey>)
    requires |decoded| < 0x1_0000_0000_0000_0000
    ensures r == DecodeExtendedPrivate(ParsedBuffer(decoded))
  {
    var buffer := new byte[ExtendedKeySize];
    ParseExtendedData(buffer, decoded);
    var ptr := 0;
    var version;
    version, ptr := Get(buffer, ptr);
    assert version == FromBigEndian32(buffer[0..4]);
    if version != BtcExtPrivMagic {
      return Err("Invalid extended private key");
    }
    var d, fp, cn, chain;
    d, fp, cn, chain, ptr := ReadHeaderFields(buffer, ptr);
    ptr := ptr + 1;
    var secret := buffer[ptr..ptr + 32];
    r := Ok(ExtendedPrivateKey(secret, chain, cn, fp, d));
  }

  /** Reading a serialised public key gives back every field. */
  lemma ExtendedPublicDecodeEncode(k: ExtendedPublicKey)
    ensures DecodeExtendedPublic(PublicLayout(k)) == Ok(k)
  {
    var d := PublicLayout(k);
    PublicLayoutOffsets(k);
    BigEndian32RoundTrip(k.parentFp, d[5..9]);
    BigEndian32RoundTrip(k.childNum, d[9..13]);
  }

  /** Reading a serialised private key gives back every field. */
  lemma ExtendedPrivateDecodeEncode(k: ExtendedPrivateKey)
    ensures DecodeExtendedPrivate(PrivateLayout(k)) == Ok(k)
  {
    var d := PrivateLayout(k);
    PrivateLayoutOffsets(k);
    BigEndian32RoundTrip(k.parentFp, d[5..9]);
    BigEndian32RoundTrip(k.childNum, d[9..13]);
  }

  /** Two 78-byte buffers that agree on every field of the layout are equal. */
  lemma SameFields(d: seq<byte>, e: seq<byte>)
    requires |d| == |e| == ExtendedKeySize
    requires d[0..4] == e[0..4] && d[4] == e[4] && d[5..9] == e[5..9] && d[9..13] == e[9..13]
    requires d[13..45] == e[13..45] && d[45..78] == e[45..78]
    ensures d == e
  {
    assert d == d[0..4] + [d[4]] + d[5..9] + d[9..13] + d[13..45] + d[45..78];
    assert e == e[0..4] + [e[4]] + e[5..9] + e[9..13] + e[13..45] + e[45..78];
  }

  /** Every buffer the public reader accepts is the layout of what it read. */
  lemma ExtendedPublicEncodeDecode(b: seq<byte>)
    requires |b| == ExtendedKeySize && DecodeExtendedPublic(b).Ok?
    ensures PublicLayout(DecodeExtendedPublic(b).value) == b
  {
    var k := DecodeExtendedPublic(b).value;
    PublicLayoutOffsets(k);
    BigEndian32RoundTrip(0, b[5..9]);
    BigEndian32RoundTrip(0, b[9..13]);
    SameFields(PublicLayout(k), b);
  }

  /** A buffer agreeing with a private layout `d` everywhere but offset 45
      is `d` with that byte replaced. */
  lemma SameFieldsButZeroByte(d: seq<byte>, b: seq<byte>)
    requires |d| == |b| == ExtendedKeySize
    requires d[0..4] == b[0..4] && d[4] == b[4] && d[5..9] == b[5..9] && d[9..13] == b[9..13]
    requires d[13..45] == b[13..45] && d[45] == 0 && d[46..78] == b[46..78]
    ensures d == b[..45] + [0] + b[46..]
    ensures d == b <==> b[45] == 0
  {
    var e := b[..45] + [0] + b[46..];
    assert e[0..4] == b[0..4] && e[5..9] == b[5..9] && e[9..13] == b[9..13] && e[13..45] == b[13..45];
    assert d[45..78] == [0] + d[46..78];
    assert e[45..78] == [0] + b[46..78];
    SameFields(d, e);
    assert b == b[..45] + [b[45]] + b[46..];
  }

  /** An accepted private buffer is the layout of what was read from it
      except at offset 45, which is never checked: the layout is the buffer
      exactly when that byte is zero. */
  lemma ExtendedPrivateEncodeDecode(b: seq<byte>)
    requires |b| == ExtendedKeySize && DecodeExtendedPrivate(b).Ok?
    ensures PrivateLayout(DecodeExtendedPrivate(b).value) == b[..45] + [0] + b[46..]
    ensures PrivateLayout(DecodeExtendedPrivate(b).value) == b <==> b[45] == 0
  {
    var k := DecodeExtendedPrivate(b).value;
    PrivateLayoutOffsets(k);
    BigEndian32RoundTrip(0, b[5..9]);
    BigEndian32RoundTrip(0, b[9..13]);
    SameFieldsButZeroByte(PrivateLayout(k), b);
  }

  /** A public key's layout is refused by the private reader and the other
      way round: the two versions differ. */
  lemma VersionsSeparate(pk: ExtendedPublicKey, sk: ExtendedPrivateKey)
    ensures DecodeExtendedPrivate(PublicLayout(pk)).Err?
    ensures DecodeExtendedPublic(PrivateLayout(sk)).Err?
  {
    PublicLayoutOffsets(pk);
    PrivateLayoutOffsets(sk);
    BigEndian32RoundTrip(BtcExtPubMagic, BigEndian32(BtcExtPrivMagic));
  }

  /** `_to_base58`: the 78 bytes followed by the first four bytes of their
      double SHA-256, ready for the base58 encoder. */
  function ExtendedBase58Payload(data: seq<byte>, sha256: seq<byte> -> Bytes32): (p: seq<byte>)
    requires |data| == ExtendedKeySize
    ensures |p| == 82 && p[..78] == data
    ensures p[78..] == sha256(sha256(data))[..4]
  {
    data + sha256(sha256(data))[..4]
  }

  /** `str()` followed by `from_base58` restores a public key. The checksum
      is never compared on the way back, so this holds whatever hash is used. */
  lemma ExtendedPublicStrRoundTrip(k: ExtendedPublicKey, sha256: seq<byte> -> Bytes32)
    ensures |PublicLayout(k)| == ExtendedKeySize
    ensures DecodeExtendedPublic(ParsedBuffer(ExtendedBase58Payload(PublicLayout(k), sha256))) == Ok(k)
  {
    PublicLayoutOffsets(k);
    ParsedBufferStripsChecksum(PublicLayout(k), sha256(sha256(PublicLayout(k)))[..4]);
    ExtendedPublicDecodeEncode(k);
  }

  /** `str()` followed by `from_base58` restores a private key. */
  lemma ExtendedPrivateStrRoundTrip(k: ExtendedPrivateKey, sha256: seq<byte> -> Bytes32)
    ensures |PrivateLayout(k)| == ExtendedKeySize
    ensures DecodeExtendedPrivate(ParsedBuffer(ExtendedBase58Payload(PrivateLayout(k), sha256))) == Ok(k)
  {
    PrivateLayoutOffsets(k);
    ParsedBufferStripsChecksum(PrivateLayout(k), sha256(sha256(PrivateLayout(k)))[..4]);
    ExtendedPrivateDecodeEncode(k);
  }

  // ---------------------------------------------------------------------
  // derive_child dispatch

  /** Which derivation a child index selects. */
  datatype ChildDerivation = NormalChild(index: int32) | HardenedChild(index: int32)

  /** `i & 0x80000000` on the unsigned value: bit 31. */
  predicate HighBitSet(u: u32)
  {
    (u / 0x8000_0000) % 2 == 1
  }

  /** `extended_public_key::derive_child`: throws for an index with bit 31
      set, since hardened children need the private key. */
  function PublicDeriveChild(i: int32): (r: Result<ChildDerivation>)
    ensures r.Ok? <==> i >= 0
    ensures r.Ok? ==> r.value == NormalChild(i)
  {
    if HighBitSet(AsUnsigned(i)) then Err("Can't derive hardened public key!")
    else Ok(NormalChild(i))
  }

  /** `extended_private_key::derive_child`: a negative index, whose bit 31 is
      set, selects the hardened path. */
  function PrivateDeriveChild(i: int32): (r: ChildDerivation)
    ensures r.index == i
    ensures r.HardenedChild? <==> HighBitSet(AsUnsigned(i))
  {
    if i < 0 then HardenedChild(i) else NormalChild(i)
  }

  /** Public derivation is possible for exactly the indices that private
      derivation treats as normal. */
  lemma PublicDerivableIffNormal(i: int32)
    ensures PublicDeriveChild(i).Ok? <==> PrivateDeriveChild(i).NormalChild?
  {
  }

  /** The message `derive_normal_child` / `derive_hardened_child` feed to
      HMAC-SHA512 keyed by the chain code. The point multiplication that
      yields the public key of a secret is foreign and enters as a parameter. */
  function PrivateChildMessage(k: ExtendedPrivateKey, i: int32, publicKeyOf: Bytes32 -> Bytes33): (m: seq<byte>)
  {
    match PrivateDeriveChild(i)
    case HardenedChild(_) => DerivationMessage(0, k.secret, i)
    case NormalChild(_) => DerivationMessage(publicKeyOf(k.secret)[0], publicKeyOf(k.secret)[1..], i)
  }

  /** A hardened child hashes 0x00 and the secret, a normal child the
      compressed public key; the index follows, and its leading byte has the
      top bit set exactly on the hardened path. */
  lemma PrivateChildMessageShape(k: ExtendedPrivateKey, i: int32, publicKeyOf: Bytes32 -> Bytes33)
    ensures |PrivateChildMessage(k, i, publicKeyOf)| == 37
    ensures i < 0 ==> PrivateChildMessage(k, i, publicKeyOf)[0] == 0
                      && PrivateChildMessage(k, i, publicKeyOf)[1..33] == k.secret
    ensures i >= 0 ==> PrivateChildMessage(k, i, publicKeyOf)[..33] == publicKeyOf(k.secret)
    ensures FromBigEndian32(PrivateChildMessage(k, i, publicKeyOf)[33..]) == AsUnsigned(i)
    ensures PrivateChildMessage(k, i, publicKeyOf)[33] >= 0x80 <==> i < 0
  {
    var pub := publicKeyOf(k.secret);
    if i < 0 {
      DerivationMessageLayout(0, k.secret, i);
    } else {
      DerivationMessageLayout(pub[0], pub[1..], i);
      var m := PrivateChildMessage(k, i, publicKeyOf);
      assert m[..33] == [pub[0]] + pub[1..] == pub;
    }
  }
}
