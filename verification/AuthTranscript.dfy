/**
 The transcript a phone signs and the PC verifies: eight fields, each preceded by its length as a
 big-endian 32-bit number.
 */
module AuthTranscript {
  import opened Wrappers

  newtype byte = x: int | 0 <= x < 256

  type Bytes = seq<byte>

  const TOO_LARGE: nat := 0x1_0000_0000

  function Ascii(s: string): Bytes {
    seq(|s|, i requires 0 <= i < |s| => (s[i] as int % 128) as byte)
  }

  const DOMAIN_TEXT: string := "gemacast-device-auth-v1"

  function Power(k: nat): nat {
    if k == 0 then 1 else 256 * Power(k - 1)
  }

  // The last `k` bytes of a number, most significant first.
  function ToBytes(n: nat, k: nat): (bytes: Bytes)
    ensures |bytes| == k
  {
    if k == 0 then [] else ToBytes(n / 256, k - 1) + [(n % 256) as byte]
  }

  function FromBytes(b: Bytes): nat {
    if b == [] then 0 else FromBytes(b[..|b| - 1]) * 256 + b[|b| - 1] as nat
  }

  function BigEndian(n: nat): (bytes: Bytes)
    ensures |bytes| == 4
  {
    ToBytes(n, 4)
  }

  lemma {:induction false} FromToBytes(n: nat, k: nat)
    requires n < Power(k)
    ensures FromBytes(ToBytes(n, k)) == n
  {
    if k > 0 {
      FromToBytes(n / 256, k - 1);
      assert ToBytes(n, k)[..k - 1] == ToBytes(n / 256, k - 1);
    }
  }

  lemma {:induction false} ToFromBytes(b: Bytes)
    ensures FromBytes(b) < Power(|b|)
    ensures ToBytes(FromBytes(b), |b|) == b
  {
    if b != [] {
      ToFromBytes(b[..|b| - 1]);
    }
  }

  lemma FourBytes()
    ensures Power(4) == TOO_LARGE
  {
    assert Power(2) == 65536;
  }

  predicate Encodable(fields: seq<Bytes>) {
    forall f :: f in fields ==> |f| < TOO_LARGE
  }

  function Prefixed(field: Bytes): Bytes {
    BigEndian(|field|) + field
  }

  function Encode(fields: seq<Bytes>): Bytes
    requires Encodable(fields)
  {
    if fields == [] then [] else Encode(fields[..|fields| - 1]) + Prefixed(fields[|fields| - 1])
  }

  // The inverse: read `count` fields off the front and return what follows them.
  function Parse(bytes: Bytes, count: nat): Option<(seq<Bytes>, Bytes)> {
    if count == 0 then Some(([], bytes))
    else if |bytes| < 4 then None
    else
      var length := FromBytes(bytes[..4]);
      if |bytes| < 4 + length then None
      else
        var rest := Parse(bytes[4 + length..], count - 1);
        if rest.None? then None else Some(([bytes[4..4 + length]] + rest.value.0, rest.value.1))
  }

  lemma {:induction false} EncodeFromFront(first: Bytes, others: seq<Bytes>)
    requires Encodable([first] + others)
    ensures Encodable(others)
    ensures Encode([first] + others) == Prefixed(first) + Encode(others)
  {
    var fields := [first] + others;
    assert forall f :: f in others ==> f in fields;
    if others == [] {
      assert fields[..|fields| - 1] == [];
      assert [] + Prefixed(first) == Prefixed(first) + [];
    } else {
      var middle, last := others[..|others| - 1], others[|others| - 1];
      assert fields[..|fields| - 1] == [first] + middle;
      EncodeFromFront(first, middle);
      Associate(Prefixed(first), Encode(middle), Prefixed(last));
    }
  }

  lemma Associate(a: Bytes, b: Bytes, c: Bytes)
    ensures (a + b) + c == a + (b + c)
  {
  }

  lemma TakeFront(prefix: Bytes, first: Bytes, others: Bytes, tail: Bytes, bytes: Bytes)
    requires bytes == prefix + first + others + tail
    ensures bytes[..|prefix|] == prefix
    ensures bytes[|prefix|..|prefix| + |first|] == first
    ensures bytes[|prefix| + |first|..] == others + tail
  {
  }

  // Four bytes of length and as many bytes as they say are a prefixed field.
  lemma ReadBack(bytes: Bytes, length: nat)
    requires |bytes| >= 4 && length == FromBytes(bytes[..4]) && 4 + length <= |bytes|
    ensures length < TOO_LARGE && Prefixed(bytes[4..4 + length]) == bytes[..4 + length]
  {
    FourBytes();
    ToFromBytes(bytes[..4]);
    assert bytes[..4] + bytes[4..4 + length] == bytes[..4 + length];
  }

  lemma PutFront(bytes: Bytes, cut: nat, others: Bytes, tail: Bytes)
    requires cut <= |bytes| && others + tail == bytes[cut..]
    ensures (bytes[..cut] + others) + tail == bytes
  {
    Associate(bytes[..cut], others, tail);
  }

  /** Parsing undoes encoding, whatever follows the encoded fields. */
  lemma {:induction false} ParseUndoesEncode(fields: seq<Bytes>, tail: Bytes)
    requires Encodable(fields)
    ensures Parse(Encode(fields) + tail, |fields|) == Some((fields, tail))
  {
    if fields == [] {
      assert [] + tail == tail;
    } else {
      var first, others := fields[0], fields[1..];
      assert fields == [first] + others;
      EncodeFromFront(first, others);
      assert Encode(fields) == BigEndian(|first|) + first + Encode(others);
      FourBytes();
      FromToBytes(|first|, 4);
      TakeFront(BigEndian(|first|), first, Encode(others), tail, Encode(fields) + tail);
      ParseUndoesEncode(others, tail);
    }
  }

  // What one step of the parser reads.
  lemma ParseStep(bytes: Bytes, count: nat)
    requires count > 0 && Parse(bytes, count).Some?
    ensures |bytes| >= 4 && 4 + FromBytes(bytes[..4]) <= |bytes|
    ensures var cut := 4 + FromBytes(bytes[..4]);
            var rest := Parse(bytes[cut..], count - 1);
            rest.Some? && Parse(bytes, count).value == ([bytes[4..cut]] + rest.value.0, rest.value.1)
  {
  }

  // A field that was read off the front is put back by encoding it.
  lemma EncodeStep(bytes: Bytes, others: seq<Bytes>, tail: Bytes)
    requires |bytes| >= 4 && 4 + FromBytes(bytes[..4]) <= |bytes| && Encodable(others)
    requires Encode(others) + tail == bytes[4 + FromBytes(bytes[..4])..]
    ensures var first := bytes[4..4 + FromBytes(bytes[..4])];
            Encodable([first] + others) && Encode([first] + others) + tail == bytes
  {
    var length := FromBytes(bytes[..4]);
    ReadBack(bytes, length);
    EncodeFromFront(bytes[4..4 + length], others);
    PutFront(bytes, 4 + length, Encode(others), tail);
  }

  /** And only encodings parse: what is read off is what was encoded there. */
  lemma {:induction false} EncodeUndoesParse(bytes: Bytes, count: nat)
    requires Parse(bytes, count).Some?
    ensures var (fields, tail) := Parse(bytes, count).value;
            |fields| == count && Encodable(fields) && Encode(fields) + tail == bytes
  {
    if count > 0 {
      ParseStep(bytes, count);
      var rest := bytes[4 + FromBytes(bytes[..4])..];
      EncodeUndoesParse(rest, count - 1);
      var (others, tail) := Parse(rest, count - 1).value;
      EncodeStep(bytes, others, tail);
    }
  }

  /** Two transcripts of equally many fields agree, even as prefixes of longer messages, only when
      all their fields agree. */
  lemma EncodingIsUnambiguous(a: seq<Bytes>, x: Bytes, b: seq<Bytes>, y: Bytes)
    requires Encodable(a) && Encodable(b) && |a| == |b|
    requires Encode(a) + x == Encode(b) + y
    ensures a == b && x == y
  {
    ParseUndoesEncode(a, x);
    ParseUndoesEncode(b, y);
  }

  // ----- the transcript itself -----

  datatype Claims = Claims(
    deviceId: Bytes,
    pcId: Bytes,
    pcCertificateFingerprint: Bytes,
    publicKey: Bytes,
    phoneNonce: Bytes,
    challengeId: Bytes,
    challenge: Bytes)

  function Fields(c: Claims): seq<Bytes> {
    [Ascii(DOMAIN_TEXT), c.deviceId, c.pcId, c.pcCertificateFingerprint, c.publicKey, c.phoneNonce, c.challengeId,
     c.challenge]
  }

  /** The transcript, built field by field; none when a field is too large for its length prefix,
      where the program panics. */
  method BuildDeviceAuthTranscript(c: Claims) returns (transcript: Option<Bytes>)
    ensures transcript.Some? <==> Encodable(Fields(c))
    ensures transcript.Some? ==> transcript.value == Encode(Fields(c))
    ensures transcript.Some? ==> Parse(transcript.value, 8) == Some((Fields(c), []))
  {
    var fields := Fields(c);
    var bytes: Bytes := [];
    for i := 0 to |fields|
      invariant Encodable(fields[..i]) && bytes == Encode(fields[..i])
    {
      var field := fields[i];
      if |field| >= TOO_LARGE {
        assert field in fields;
        return None;
      }
      Associate(bytes, BigEndian(|field|), field);
      bytes := bytes + BigEndian(|field|);
      bytes := bytes + field;
      assert fields[..i + 1][..i] == fields[..i];
    }
    assert fields[..|fields|] == fields;
    ParseUndoesEncode(fields, []);
    assert bytes + [] == bytes;
    return Some(bytes);
  }

  // A number as four bytes, the most significant first.
  predicate Spells(b: Bytes, n: nat) {
    |b| == 4 && n == b[0] as nat * 16777216 + b[1] as nat * 65536 + b[2] as nat * 256 + b[3] as nat
  }

  // Where a field is laid down: its length in four bytes, and then the field.
  predicate LiesAt(bytes: Bytes, at: nat, field: Bytes) {
    && at + 4 + |field| <= |bytes|
    && Spells(bytes[at..at + 4], |field|)
    && bytes[at + 4..at + 4 + |field|] == field
  }

  lemma LengthIsSpelled(n: nat)
    requires n < TOO_LARGE
    ensures Spells(BigEndian(n), n)
  {
    FourBytes();
    FromToBytes(n, 4);
    var b := BigEndian(n);
    assert b[..4] == b;
    assert b[..3][..2] == b[..2] && b[..2][..1] == b[..1] && b[..1][..0] == [];
    assert FromBytes(b[..1]) == b[0] as nat;
    assert FromBytes(b[..2]) == FromBytes(b[..1]) * 256 + b[1] as nat;
    assert FromBytes(b[..3]) == FromBytes(b[..2]) * 256 + b[2] as nat;
  }

  /** Some fields, laid down one behind the other from some place on, and nothing after them. */
  predicate LaidDown(bytes: Bytes, at: nat, fields: seq<Bytes>)
    decreases fields
  {
    if fields == [] then at == |bytes|
    else LiesAt(bytes, at, fields[0]) && LaidDown(bytes, at + 4 + |fields[0]|, fields[1..])
  }

  lemma FirstLies(before: Bytes, field: Bytes, after: Bytes)
    requires |field| < TOO_LARGE
    ensures LiesAt((before + Prefixed(field)) + after, |before|, field)
  {
    LengthIsSpelled(|field|);
    var bytes := (before + Prefixed(field)) + after;
    assert bytes[|before|..|before| + 4] == BigEndian(|field|);
    assert bytes[|before| + 4..|before| + 4 + |field|] == field;
  }

  /** What is encoded is laid down, behind whatever came before. */
  lemma {:induction false} EncodeLaysDown(before: Bytes, fields: seq<Bytes>)
    requires Encodable(fields)
    ensures LaidDown(before + Encode(fields), |before|, fields)
    decreases fields
  {
    if fields != [] {
      var first, others := fields[0], fields[1..];
      assert fields == [first] + others;
      EncodeFromFront(first, others);
      Associate(before, Prefixed(first), Encode(others));
      FirstLies(before, first, Encode(others));
      EncodeLaysDown(before + Prefixed(first), others);
    }
  }

  lemma DomainLies(bytes: Bytes)
    requires LiesAt(bytes, 0, Ascii(DOMAIN_TEXT))
    ensures |bytes| >= 27 && bytes[..4] == [0, 0, 0, 23]
    ensures forall i :: 0 <= i < 23 ==> bytes[4 + i] as int == "gemacast-device-auth-v1"[i] as int
  {
    var domain := Ascii(DOMAIN_TEXT);
    assert |domain| == 23;
    assert bytes[4..27] == domain;
    assert forall i :: 0 <= i < 23 ==> bytes[4 + i] == bytes[4..27][i];
    assert forall i :: 0 <= i < 23 ==> domain[i] as int == "gemacast-device-auth-v1"[i] as int;
    assert bytes[0..4] == bytes[..4];
  }

  /** The layout of a transcript, byte for byte: the 23 characters of the domain, the device, the PC, the
      certificate fingerprint, the public key, the phone's nonce, the challenge's number and the challenge, in
      this order and without anything between or after them, each behind its length in big-endian. */
  lemma TranscriptLayout(c: Claims)
    requires Encodable(Fields(c))
    ensures var bytes := Encode(Fields(c));
            && LaidDown(bytes, 0, [Ascii("gemacast-device-auth-v1"), c.deviceId, c.pcId, c.pcCertificateFingerprint,
                                   c.publicKey, c.phoneNonce, c.challengeId, c.challenge])
            && bytes[..4] == [0, 0, 0, 23]
            && forall i :: 0 <= i < 23 ==> bytes[4 + i] as int == "gemacast-device-auth-v1"[i] as int
  {
    EncodeLaysDown([], Fields(c));
    assert [] + Encode(Fields(c)) == Encode(Fields(c));
    DomainLies(Encode(Fields(c)));
  }

  /** Equal transcripts vouch for equal claims: no two different sets of claims can be confused,
      whatever bytes the identifiers contain. */
  lemma TranscriptDeterminesClaims(a: Claims, b: Claims)
    requires Encodable(Fields(a)) && Encodable(Fields(b)) && Encode(Fields(a)) == Encode(Fields(b))
    ensures a == b
  {
    EncodingIsUnambiguous(Fields(a), [], Fields(b), []);
    var f, g := Fields(a), Fields(b);
    assert f[1] == g[1] && f[2] == g[2] && f[3] == g[3] && f[4] == g[4] && f[5] == g[5] && f[6] == g[6] && f[7] == g[7];
  }
}
