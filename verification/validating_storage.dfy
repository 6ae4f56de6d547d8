/**
 The validating store: a raw key-value store whose values are wrapped entries.
 `Put` wraps the payload with the write time and its digest; `Get` reads the
 raw bytes back and reports a (success, key, data) triple:

   valid entry            -> (true,  key, payload)
   stale but intact entry -> (false, key, payload)
   corrupt entry          -> (false, key, "")
   missing key            -> (false, key, "")

 The raw store is a map from key to bytes (last write wins); the digest, the
 current time and the staleness threshold are parameters.
 */
module ValidatingStorage {
  import opened Wrappers
  import opened WrapperCodec

  /** The wrapped raw store: a plain map from key to stored bytes. */
  datatype Storage = Storage(entries: map<string, string>) {

    /** Writes `bytes` under `key`, replacing any earlier value. */
    function Put(key: string, bytes: string): (s: Storage)
      ensures key in s.entries && s.entries[key] == bytes
      ensures forall k :: k != key ==> (k in s.entries <==> k in entries)
      ensures forall k :: k != key && k in entries ==> s.entries[k] == entries[k]
    {
      Storage(entries[key := bytes])
    }

    /** The bytes stored under `key`, if any. */
    function Get(key: string): Option<string> {
      if key in entries then Some(entries[key]) else None
    }
  }

  /** What the completion callback of `Get` receives. */
  datatype GetResult = GetResult(success: bool, key: string, data: string)

  /** The validating wrapper around an exclusively held raw store. */
  datatype Validating = Validating(wrapped: Storage)

  /** Stores `data` under `key`, wrapped with the write time `now` and its digest. */
  function Put(s: Validating, h: Hasher, key: string, data: string, now: nat): (s': Validating)
    ensures s'.wrapped.Get(key) == Some(Wrap(h, data, now))
    ensures forall k :: k != key ==> s'.wrapped.Get(k) == s.wrapped.Get(k)
  {
    RawPut(s, key, Wrap(h, data, now))
  }

  /**
   Reads `key` and validates what is stored there at time `now`. Reports the
   requested key on every path; data is returned only when the stored bytes
   are exactly the wrapping of that data, and success only when it is fresh.
   */
  function Get(s: Validating, h: Hasher, key: string, now: nat, threshold: nat): (r: GetResult)
    ensures r.key == key
    ensures r.success || r.data != "" ==>
              exists written: nat :: s.wrapped.Get(key) == Some(Wrap(h, r.data, written))
                                     && (r.success <==> !IsStale(written, now, threshold))
    ensures s.wrapped.Get(key).None? ==> !r.success && r.data == ""
    ensures forall p, t: nat :: IsHexDigest(h(p)) && s.wrapped.Get(key) == Some(Wrap(h, p, t)) ==>
              r == GetResult(!IsStale(t, now, threshold), key, p)
    ensures s.wrapped.Get(key).Some?
            && (forall p, t: nat :: IsHexDigest(h(p)) ==> s.wrapped.Get(key).value != Wrap(h, p, t)) ==>
              r == GetResult(false, key, "")
  {
    match s.wrapped.Get(key)
    case None => GetResult(false, key, "")
    case Some(bytes) =>
      var verdict := Unwrap(h, bytes, now, threshold);
      if verdict.Corrupt? then GetResult(false, key, "")
      else
        var written := Parse(bytes).value.timestamp;
        assert bytes == Wrap(h, verdict.payload, written);
        assert verdict.Valid? <==> !IsStale(written, now, threshold);
        assert forall p, t: nat :: IsHexDigest(h(p)) && bytes == Wrap(h, p, t) ==>
                 p == verdict.payload && t == written by {
          forall p, t: nat | IsHexDigest(h(p)) && bytes == Wrap(h, p, t)
            ensures p == verdict.payload && t == written
          {
            assert Parse(bytes) == Some(Envelope(t, h(p), p));
          }
        }
        GetResult(verdict.Valid?, key, verdict.payload)
  }

  /** A direct write to the wrapped raw store, bypassing the wrapper. */
  function RawPut(s: Validating, key: string, bytes: string): (s': Validating)
    ensures s'.wrapped.Get(key) == Some(bytes)
    ensures forall k :: k != key ==> s'.wrapped.Get(k) == s.wrapped.Get(k)
  {
    Validating(s.wrapped.Put(key, bytes))
  }

  /** Put then Get within the staleness threshold returns success, the key and exactly the data. */
  lemma GetAfterPut(s: Validating, h: Hasher, key: string, data: string, written: nat, now: nat, threshold: nat)
    requires IsHexDigest(h(data))
    requires !IsStale(written, now, threshold)
    ensures Get(Put(s, h, key, data, written), h, key, now, threshold) == GetResult(true, key, data)
  {
    UnwrapOfWrap(h, data, written, now, threshold);
  }

  /** A key that was never written reads as failure with empty data. */
  lemma GetMissing(s: Validating, h: Hasher, key: string, now: nat, threshold: nat)
    requires s.wrapped.Get(key).None?
    ensures Get(s, h, key, now, threshold) == GetResult(false, key, "")
  {
  }

  /** The empty payload round-trips as success, which a missing key never does. */
  lemma EmptyPayloadIsNotMissing(s: Validating, h: Hasher, key: string, written: nat, now: nat, threshold: nat)
    requires IsHexDigest(h(""))
    requires !IsStale(written, now, threshold)
    requires s.wrapped.Get(key).None?
    ensures Get(Put(s, h, key, "", written), h, key, now, threshold).success
    ensures !Get(s, h, key, now, threshold).success
  {
    GetAfterPut(s, h, key, "", written, now, threshold);
  }

  /** Stored bytes that are no wrapping of any payload read as failure with empty data. */
  lemma GetCorrupt(s: Validating, h: Hasher, key: string, bytes: string, now: nat, threshold: nat)
    requires forall p, t :: IsHexDigest(h(p)) ==> bytes != Wrap(h, p, t)
    ensures Get(RawPut(s, key, bytes), h, key, now, threshold) == GetResult(false, key, "")
  {
  }

  /** An intact entry written too long ago reads as failure but still delivers its payload. */
  lemma GetStale(s: Validating, h: Hasher, key: string, data: string, written: nat, now: nat, threshold: nat)
    requires IsHexDigest(h(data))
    requires IsStale(written, now, threshold)
    ensures Get(RawPut(s, key, Wrap(h, data, written)), h, key, now, threshold) == GetResult(false, key, data)
  {
    UnwrapOfWrap(h, data, written, now, threshold);
  }

  /** A second raw write to a key replaces the first entirely. */
  lemma OverwriteHides(s: Validating, key: string, first: string, second: string)
    ensures RawPut(RawPut(s, key, first), key, second) == RawPut(s, key, second)
  {
    var m := s.wrapped.entries;
    assert m[key := first][key := second] == m[key := second];
  }

  /** A later write to the same key, wrapped or raw, hides every earlier one. */
  lemma LastWriteWins(s: Validating, h: Hasher, key: string, data: string, written: nat, bytes: string)
    ensures RawPut(Put(s, h, key, data, written), key, bytes) == RawPut(s, key, bytes)
    ensures Put(RawPut(s, key, bytes), h, key, data, written) == Put(s, h, key, data, written)
  {
    var w := Wrap(h, data, written);
    OverwriteHides(s, key, w, bytes);
    OverwriteHides(s, key, bytes, w);
  }

  /** Writing one key leaves what every other key reads unchanged. */
  lemma PutLeavesOtherKeys(s: Validating, h: Hasher, key: string, data: string, written: nat,
                           other: string, now: nat, threshold: nat)
    requires other != key
    ensures Get(Put(s, h, key, data, written), h, other, now, threshold) == Get(s, h, other, now, threshold)
  {
  }
}
