/**
 * Argument packing and digest rendering of keccakHash: each argument is
 * rendered as 64 hex digits and decoded into 32 bytes (Buffer.from(hex,
 * 'hex')), the pieces are concatenated, and the digest is returned as "0x"
 * followed by its lower-case hex. The digest itself is SHA-256 (section 6.2
 * of FIPS 180-4) from a library; it is a parameter here.
 */
module Packing {
  import opened Wrappers
  import opened Hex

  type byte = b: int | 0 <= b < 256

  /** The digest function handed the packed bytes. */
  type Sha256 = seq<byte> -> seq<byte>

  const WORD_BYTES: nat := 32

  /** What the model assumes of the digest: SHA-256 always yields 32 bytes. */
  ghost predicate DigestsAre32Bytes(sha: Sha256) {
    forall m :: |sha(m)| == WORD_BYTES
  }

  /** Every value fits one 32-byte word. */
  predicate AllFitWord(vs: seq<nat>) {
    forall i :: 0 <= i < |vs| ==> vs[i] < WORD_LIMIT
  }

  /**
   * Buffer.from(s, 'hex'): one byte per pair of hex digits; decoding stops
   * at the first pair that is not two hex digits, and a trailing odd digit
   * is dropped.
   */
  function HexToBytes(s: string): (b: seq<byte>)
    ensures |b| <= |s| / 2
    decreases |s|
  {
    if |s| < 2 || !IsHexDigit(s[0]) || !IsHexDigit(s[1]) then []
    else [16 * DigitValue(s[0]) + DigitValue(s[1])] + HexToBytes(s[2..])
  }

  /** The unsigned big-endian value of a byte string. */
  function BigEndian(b: seq<byte>): nat
    decreases |b|
  {
    if b == [] then 0 else 256 * BigEndian(b[..|b| - 1]) + b[|b| - 1]
  }

  /** Two lower-case hex digits for one byte, as digest('hex') writes it. */
  function ByteHex(b: byte): string {
    [HexDigit(b / 16), HexDigit(b % 16)]
  }

  /** digest('hex'): two lower-case hex digits per byte, in order. */
  function BytesToHex(d: seq<byte>): (s: string)
    ensures |s| == 2 * |d| && AllLowerHex(s) && AllHex(s)
    decreases |d|
  {
    if d == [] then [] else ByteHex(d[0]) + BytesToHex(d[1..])
  }

  /** One packed argument: Buffer.from(BigInt(v).toString(16).padStart(64, '0'), 'hex'). */
  function PackWord(v: nat): seq<byte> {
    HexToBytes(PadStart(ToHex(v), WORD_DIGITS, '0'))
  }

  /** Buffer.concat(values.map(...)): the packed arguments, in order. */
  function Pack(vs: seq<nat>): seq<byte>
    decreases |vs|
  {
    if vs == [] then [] else PackWord(vs[0]) + Pack(vs[1..])
  }

  /** Splits packed bytes back into 32-byte big-endian words; a short tail is dropped. */
  function Unpack(b: seq<byte>): seq<nat>
    decreases |b|
  {
    if |b| < WORD_BYTES then [] else [BigEndian(b[..WORD_BYTES])] + Unpack(b[WORD_BYTES..])
  }

  /** keccakHash(...values): "0x" and the hex of the digest of the packed arguments. */
  function KeccakHash(sha: Sha256, vs: seq<nat>): string {
    "0x" + BytesToHex(sha(Pack(vs)))
  }

  /** The number BigInt reads back from KeccakHash(sha, vs). */
  function Hash(sha: Sha256, vs: seq<nat>): nat {
    BigEndian(sha(Pack(vs)))
  }

  /** A string of hex digits decodes to half as many bytes (rounded down). */
  lemma {:induction false} HexToBytesLength(s: string)
    requires AllHex(s)
    ensures |HexToBytes(s)| == |s| / 2
    decreases |s|
  {
    if |s| >= 2 {
      HexToBytesLength(s[2..]);
    }
  }

  /** Decoding an even-length hex string extended by one more pair appends one byte. */
  lemma {:induction false} HexToBytesSnoc(s: string, x: char, y: char)
    requires AllHex(s) && |s| % 2 == 0 && IsHexDigit(x) && IsHexDigit(y)
    ensures HexToBytes(s + [x, y]) == HexToBytes(s) + [16 * DigitValue(x) + DigitValue(y)]
    decreases |s|
  {
    if s == [] {
      assert [x, y][2..] == [];
    } else {
      HexToBytesSnoc(s[2..], x, y);
      assert (s + [x, y])[2..] == s[2..] + [x, y];
    }
  }

  /** Reading a hex string extended by one pair shifts its value by one byte. */
  lemma ParseHexSnoc2(s: string, x: char, y: char)
    requires AllHex(s) && IsHexDigit(x) && IsHexDigit(y)
    ensures AllHex(s + [x, y])
    ensures ParseHex(s + [x, y]) == 256 * ParseHex(s) + 16 * DigitValue(x) + DigitValue(y)
  {
    var t := s + [x, y];
    assert t[..|t| - 1] == s + [x];
    assert (s + [x])[..|s|] == s;
  }

  /** Decoding an even-length hex string keeps its value: the bytes are big-endian. */
  lemma {:induction false} HexToBytesValue(s: string)
    requires AllHex(s) && |s| % 2 == 0
    ensures BigEndian(HexToBytes(s)) == ParseHex(s)
    decreases |s|
  {
    if s != [] {
      var n := |s| - 2;
      var t, x, y := s[..n], s[n], s[n + 1];
      assert s == t + [x, y];
      HexToBytesValue(t);
      HexToBytesSnoc(t, x, y);
      ParseHexSnoc2(t, x, y);
      var b := HexToBytes(t) + [16 * DigitValue(x) + DigitValue(y)];
      assert b[..|b| - 1] == HexToBytes(t);
    }
  }

  lemma {:induction false} BytesToHexSnoc(d: seq<byte>, b: byte)
    ensures BytesToHex(d + [b]) == BytesToHex(d) + ByteHex(b)
    decreases |d|
  {
    if d == [] {
      assert [b][1..] == [];
    } else {
      BytesToHexSnoc(d[1..], b);
      assert (d + [b])[1..] == d[1..] + [b];
    }
  }

  /** The hex text of a digest reads back as the digest's big-endian value. */
  lemma {:induction false} BytesToHexValue(d: seq<byte>)
    ensures ParseHex(BytesToHex(d)) == BigEndian(d)
    decreases |d|
  {
    if d != [] {
      var n := |d| - 1;
      var e, b := d[..n], d[n];
      assert d == e + [b];
      BytesToHexValue(e);
      BytesToHexSnoc(e, b);
      ParseHexSnoc2(BytesToHex(e), HexDigit(b / 16), HexDigit(b % 16));
    }
  }

  /** Buffer.from(digest('hex'), 'hex') gives the digest back. */
  lemma {:induction false} HexRoundTrip(d: seq<byte>)
    ensures HexToBytes(BytesToHex(d)) == d
    decreases |d|
  {
    if d != [] {
      HexRoundTrip(d[1..]);
      var s := BytesToHex(d);
      assert s[2..] == BytesToHex(d[1..]);
    }
  }

  /**
   * A value below 2^256 packs into exactly 32 bytes whose big-endian value
   * is the value: left-padded, most significant byte first.
   */
  lemma PackWordSpec(v: nat)
    requires v < WORD_LIMIT
    ensures |PackWord(v)| == WORD_BYTES && BigEndian(PackWord(v)) == v
  {
    var p := PadStart(ToHex(v), WORD_DIGITS, '0');
    PaddedWord(v);
    HexToBytesLength(p);
    HexToBytesValue(p);
  }

  /** The hashed input is 32 bytes per argument. */
  lemma {:induction false} PackLength(vs: seq<nat>)
    requires AllFitWord(vs)
    ensures |Pack(vs)| == WORD_BYTES * |vs|
    decreases |vs|
  {
    if vs != [] {
      PackWordSpec(vs[0]);
      PackLength(vs[1..]);
    }
  }

  /** The packing is undone word by word: distinct argument lists never share a hash input. */
  lemma {:induction false} PackRoundTrip(vs: seq<nat>)
    requires AllFitWord(vs)
    ensures Unpack(Pack(vs)) == vs
    decreases |vs|
  {
    if vs != [] {
      PackWordSpec(vs[0]);
      PackRoundTrip(vs[1..]);
      var w, rest := PackWord(vs[0]), Pack(vs[1..]);
      assert Pack(vs) == w + rest;
      assert (w + rest)[..WORD_BYTES] == w;
      assert (w + rest)[WORD_BYTES..] == rest;
      assert Unpack(w + rest) == [vs[0]] + vs[1..];
      assert vs == [vs[0]] + vs[1..];
    }
  }

  /**
   * With a 32-byte digest, keccakHash returns exactly fieldToBytes32 of the
   * number it hashes to, and BigInt reads that number back.
   */
  lemma KeccakHashIsField(sha: Sha256, vs: seq<nat>)
    requires |sha(Pack(vs))| == WORD_BYTES
    ensures KeccakHash(sha, vs) == FieldToBytes32(Hash(sha, vs))
    ensures BigIntFromHexLiteral(KeccakHash(sha, vs)) == Some(Hash(sha, vs))
  {
    var d := sha(Pack(vs));
    var s := BytesToHex(d);
    BytesToHexValue(d);
    LowerWordIsField(s);
    FieldRoundTrip(Hash(sha, vs));
  }

  /** With a 32-byte digest the hashed number fits a word: below 2^256. */
  lemma HashFitsWord(sha: Sha256, vs: seq<nat>)
    requires |sha(Pack(vs))| == WORD_BYTES
    ensures Hash(sha, vs) < WORD_LIMIT
  {
    BytesToHexValue(sha(Pack(vs)));
    WordLimitDigits();
  }
}
