/**
 The five cases of the validating storage test, stated over the model: a good
 payload, the empty payload, a missing key, garbage written directly to the
 wrapped store, and an intact entry with an old timestamp written directly.
 The digest function stays a parameter; the stale case only assumes that it
 maps the test payload to the checksum the test embeds.
 */
module StorageScenarios {
  import opened Decimal
  import opened WrapperCodec
  import opened ValidatingStorage

  const TestKey: string := "key"
  const TestChecksum: string := "dd63dafcbd4d5b28badfcaf86fb6fcdb"
  const TestData: string := "{'foo': 'bar'}"
  const OldTimestamp: string := "0"
  const StaleWrappedData: string :=
    "timestamp=" + OldTimestamp + "\n" + "checksum=" + TestChecksum + "\n" + TestData
  const Garbage: string := "garbage"

  /** A validating store over an empty fake store. */
  const EmptyStore: Validating := Validating(Storage(map[]))

  lemma GoodData(h: Hasher, written: nat, now: nat, threshold: nat)
    requires IsHexDigest(h(TestData))
    requires !IsStale(written, now, threshold)
    ensures Get(Put(EmptyStore, h, TestKey, TestData, written), h, TestKey, now, threshold)
         == GetResult(true, TestKey, TestData)
  {
    GetAfterPut(EmptyStore, h, TestKey, TestData, written, now, threshold);
  }

  lemma EmptyData(h: Hasher, written: nat, now: nat, threshold: nat)
    requires IsHexDigest(h(""))
    requires !IsStale(written, now, threshold)
    ensures Get(Put(EmptyStore, h, TestKey, "", written), h, TestKey, now, threshold)
         == GetResult(true, TestKey, "")
  {
    GetAfterPut(EmptyStore, h, TestKey, "", written, now, threshold);
  }

  lemma MissingKey(h: Hasher, now: nat, threshold: nat)
    ensures Get(EmptyStore, h, TestKey, now, threshold) == GetResult(false, TestKey, "")
  {
  }

  lemma GarbageData(h: Hasher, written: nat, now: nat, threshold: nat)
    ensures Get(RawPut(Put(EmptyStore, h, TestKey, TestData, written), TestKey, Garbage), h, TestKey, now, threshold)
         == GetResult(false, TestKey, "")
  {
    LastWriteWins(EmptyStore, h, TestKey, TestData, written, Garbage);
    assert !(TimestampPrefix <= Garbage) by {
      assert Garbage[0] != TimestampPrefix[0];
    }
    assert Parse(Garbage).None?;
    NotWrappingWhenUnparsed(h, Garbage);
    GetCorrupt(EmptyStore, h, TestKey, Garbage, now, threshold);
  }

  /** The stale entry of the test is the envelope (0, test checksum, test payload) on the wire. */
  lemma StaleEntryLayout()
    ensures StaleWrappedData == Serialize(Envelope(0, TestChecksum, TestData))
  {
    assert NatToDecimal(0) == OldTimestamp;
  }

  /** The stale entry of the test is the wrapping of the test payload at time 0. */
  lemma StaleEntryIsWrapping(h: Hasher)
    requires h(TestData) == TestChecksum
    ensures StaleWrappedData == Wrap(h, TestData, 0)
  {
    StaleEntryLayout();
    assert Wrap(h, TestData, 0) == Serialize(Envelope(0, TestChecksum, TestData));
  }

  /** The checksum embedded in the test is a well-formed hex digest. */
  lemma TestChecksumIsHexDigest()
    ensures IsHexDigest(TestChecksum)
  {
    assert forall i :: 0 <= i < |TestChecksum| ==> IsHexChar(TestChecksum[i]);
  }

  lemma StaleData(h: Hasher, written: nat, now: nat, threshold: nat)
    requires h(TestData) == TestChecksum
    requires IsStale(0, now, threshold)
    ensures Get(RawPut(Put(EmptyStore, h, TestKey, TestData, written), TestKey, StaleWrappedData), h, TestKey, now, threshold)
         == GetResult(false, TestKey, TestData)
  {
    LastWriteWins(EmptyStore, h, TestKey, TestData, written, StaleWrappedData);
    StaleEntryIsWrapping(h);
    TestChecksumIsHexDigest();
    GetStale(EmptyStore, h, TestKey, TestData, 0, now, threshold);
  }
}
