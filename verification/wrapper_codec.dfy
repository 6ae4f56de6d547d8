/**
 The wrapped cache entry: a payload preceded by two header lines,

   timestamp=<decimal seconds>\n
   checksum=<32 lowercase hex digits>\n
   <payload, verbatim>

 `Wrap` builds it; `Unwrap` parses it back, checks the checksum against the
 digest of the payload and classifies the entry as valid, stale or corrupt.
 The digest algorithm and the clock are parameters of the model.
 */
module WrapperCodec {
  import opened Wrappers
  import opened Strings
  import opened Decimal

  const TimestampPrefix: string := "timestamp="
  const ChecksumPrefix: string := "checksum="
  const Separator: char := '\n'
  const DigestLength: nat := 32

  /** A lowercase hexadecimal digit. */
  predicate IsHexChar(c: char) {
    '0' <= c <= '9' || 'a' <= c <= 'f'
  }

  /** 32 lowercase hexadecimal characters: the rendering of a 128-bit digest. */
  predicate IsHexDigest(s: string) {
    |s| == DigestLength && forall i :: 0 <= i < |s| ==> IsHexChar(s[i])
  }

  /**
   The digest function; which one is left open. The digest used by the store
   renders every payload as a hex digest, and the round-trip properties below
   require exactly that of the payloads they are about.
   */
  type Hasher = string -> string

  /** The three logical fields of a wrapped entry. */
  datatype Envelope = Envelope(timestamp: nat, checksum: string, payload: string)

  /** One header line: `<prefix><value>\n`. */
  function HeaderLine(prefix: string, value: string): string {
    prefix + value + [Separator]
  }

  /** The wire form of an envelope: the two header lines, then the payload verbatim. */
  function Serialize(e: Envelope): (bytes: string)
    ensures TimestampPrefix <= bytes
    ensures |bytes| >= |e.payload| && bytes[|bytes| - |e.payload|..] == e.payload
  {
    HeaderLine(TimestampPrefix, NatToDecimal(e.timestamp))
    + (HeaderLine(ChecksumPrefix, e.checksum) + e.payload)
  }

  /** Reads a header line `<prefix><value>\n`, returning the value and what follows it. */
  function ReadHeader(prefix: string, s: string): (r: Option<(string, string)>)
    ensures r.Some? ==> Separator !in r.value.0
  {
    if prefix <= s then
      SplitFirstSpec(s[|prefix|..], Separator);
      SplitFirst(s[|prefix|..], Separator)
    else None
  }

  /** A header that was read is exactly a header line followed by the rest of the input. */
  lemma ReadHeaderLayout(prefix: string, s: string)
    requires ReadHeader(prefix, s).Some?
    ensures s == HeaderLine(prefix, ReadHeader(prefix, s).value.0) + ReadHeader(prefix, s).value.1
  {
    SplitFirstSpec(s[|prefix|..], Separator);
    assert s == prefix + s[|prefix|..];
  }

  lemma ReadHeaderOfLine(prefix: string, value: string, rest: string)
    requires Separator !in value
    ensures ReadHeader(prefix, HeaderLine(prefix, value) + rest) == Some((value, rest))
  {
    var s := HeaderLine(prefix, value) + rest;
    assert s[|prefix|..] == value + [Separator] + rest;
    SplitFirstOfConcat(value, Separator, rest);
  }

  /**
   Parses the two header lines. Fails unless the timestamp is a decimal number
   and the checksum is a hex digest; the payload is whatever follows.
   */
  function Parse(bytes: string): (r: Option<Envelope>)
    ensures r.Some? ==> IsHexDigest(r.value.checksum) && Serialize(r.value) == bytes
  {
    match ReadHeader(TimestampPrefix, bytes)
    case None => None
    case Some((digits, afterTimestamp)) =>
      ReadHeaderLayout(TimestampPrefix, bytes);
      match ParseDecimal(digits)
      case None => None
      case Some(timestamp) =>
        match ReadHeader(ChecksumPrefix, afterTimestamp)
        case None => None
        case Some((checksum, payload)) =>
          ReadHeaderLayout(ChecksumPrefix, afterTimestamp);
          if IsHexDigest(checksum) then
            RenderingOfParse(digits);
            assert NatToDecimal(timestamp) == digits;
            Some(Envelope(timestamp, checksum, payload))
          else None
  }

  /** Every envelope with a hex-digest checksum is read back from its wire form. */
  lemma ParseOfSerialize(e: Envelope)
    requires IsHexDigest(e.checksum)
    ensures Parse(Serialize(e)) == Some(e)
  {
    var digits := NatToDecimal(e.timestamp);
    var checksumLine := HeaderLine(ChecksumPrefix, e.checksum) + e.payload;
    assert Separator !in digits by {
      assert forall i :: 0 <= i < |digits| ==> IsDigit(digits[i]);
    }
    ReadHeaderOfLine(TimestampPrefix, digits, checksumLine);
    ParseRendering(e.timestamp);
    assert Separator !in e.checksum by {
      assert forall i :: 0 <= i < |e.checksum| ==> IsHexChar(e.checksum[i]);
    }
    ReadHeaderOfLine(ChecksumPrefix, e.checksum, e.payload);
  }

  /** The entry stored for `payload` written at time `now`. */
  function Wrap(h: Hasher, payload: string, now: nat): (bytes: string)
    ensures IsHexDigest(h(payload)) ==> Parse(bytes) == Some(Envelope(now, h(payload), payload))
  {
    var e := Envelope(now, h(payload), payload);
    assert IsHexDigest(e.checksum) ==> Parse(Serialize(e)) == Some(e) by {
      if IsHexDigest(e.checksum) {
        ParseOfSerialize(e);
      }
    }
    Serialize(e)
  }

  /** Outcome of unwrapping: intact and fresh, intact but old, or unusable. */
  datatype Verdict = Valid(payload: string) | Stale(payload: string) | Corrupt

  /**
   Whether an entry written at `timestamp` is too old at time `now`: more than
   `threshold` seconds have passed since it was written.
   */
  function IsStale(timestamp: nat, now: nat, threshold: nat): (stale: bool)
    ensures stale ==> timestamp < now
  {
    now - timestamp > threshold
  }

  /** Once stale, an entry stays stale as time goes on; a fresh entry was fresh before. */
  lemma StalenessIsMonotone(timestamp: nat, now: nat, later: nat, threshold: nat)
    requires now <= later
    ensures IsStale(timestamp, now, threshold) ==> IsStale(timestamp, later, threshold)
    ensures !IsStale(timestamp, later, threshold) ==> !IsStale(timestamp, now, threshold)
  {
  }

  /**
   Parses and validates stored bytes. Corrupt when the headers are malformed
   or the checksum does not match the payload; otherwise stale or valid by age.
   */
  function Unwrap(h: Hasher, bytes: string, now: nat, threshold: nat): (r: Verdict)
    ensures r.Corrupt? <==> (forall p, t :: IsHexDigest(h(p)) ==> bytes != Wrap(h, p, t))
    ensures !r.Corrupt? ==> IsHexDigest(h(r.payload))
    ensures !r.Corrupt? ==> bytes == Wrap(h, r.payload, Parse(bytes).value.timestamp)
    ensures r.Stale? <==> !r.Corrupt? && IsStale(Parse(bytes).value.timestamp, now, threshold)
  {
    match Parse(bytes)
    case None =>
      NotWrappingWhenUnparsed(h, bytes);
      Corrupt
    case Some(e) =>
      if e.checksum != h(e.payload) then
        NotWrappingWhenUnparsed(h, bytes);
        Corrupt
      else
        IsWrappingWhenParsed(h, bytes);
        if IsStale(e.timestamp, now, threshold) then Stale(e.payload) else Valid(e.payload)
  }

  /** Bytes that do not parse to an envelope whose checksum matches are no wrapping at all. */
  lemma NotWrappingWhenUnparsed(h: Hasher, bytes: string)
    requires Parse(bytes).None? || Parse(bytes).value.checksum != h(Parse(bytes).value.payload)
    ensures forall p, t :: IsHexDigest(h(p)) ==> bytes != Wrap(h, p, t)
  {
  }

  /** Bytes that parse to an envelope whose checksum matches are the wrapping of its payload. */
  lemma IsWrappingWhenParsed(h: Hasher, bytes: string)
    requires Parse(bytes).Some? && Parse(bytes).value.checksum == h(Parse(bytes).value.payload)
    ensures bytes == Wrap(h, Parse(bytes).value.payload, Parse(bytes).value.timestamp)
    ensures IsHexDigest(h(Parse(bytes).value.payload))
    ensures !forall p, t :: IsHexDigest(h(p)) ==> bytes != Wrap(h, p, t)
  {
    var e := Parse(bytes).value;
    assert e == Envelope(e.timestamp, h(e.payload), e.payload);
  }

  /** Unwrapping a fresh wrapping returns its payload, whatever bytes the payload holds. */
  lemma UnwrapOfWrap(h: Hasher, payload: string, written: nat, now: nat, threshold: nat)
    requires IsHexDigest(h(payload))
    ensures Unwrap(h, Wrap(h, payload, written), now, threshold)
         == if IsStale(written, now, threshold) then Stale(payload) else Valid(payload)
  {
  }

  /** Two wrappings are equal only when payload and write time are equal. */
  lemma WrapInjective(h: Hasher, p1: string, t1: nat, p2: string, t2: nat)
    requires IsHexDigest(h(p1)) && IsHexDigest(h(p2))
    requires Wrap(h, p1, t1) == Wrap(h, p2, t2)
    ensures p1 == p2 && t1 == t2
  {
  }
}
