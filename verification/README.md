# Address-metadata cache core, modelled in Dafny

This project models two small, sequential pieces of libaddressinput's
address-metadata cache and proves properties about them.

- **LookupKey** (`lookup_key.dfy`) is the hierarchy key encoder. A key holds a
  map from address field to value (`nodes_`). The map covers the fixed
  four-level hierarchy `kHierarchy`: country, administrative area, locality
  and dependent locality.
  - `FromAddress` populates the map from an address. It takes every level with
    a non-empty value and stops at the first empty one.
  - `ToKeyString(max_depth)` joins the values of at most `max_depth` levels with
    a separator, most general level first.
  - `GetRegionCode` and `GetDepth` are read-only queries. Neither may be called
    on an empty key.
- **ValidatingStorage** (`wrapper_codec.dfy`, `validating_storage.dfy`) is an
  integrity and staleness wrapper over a key-value store.
  - `Put` stores `timestamp=<n>\n` + `checksum=<32 hex>\n` + payload.
  - `Get` unwraps what is stored and reports a `(success, key, data)` triple:
    - valid entry: `(true, key, payload)`
    - stale but intact entry: `(false, key, payload)`
    - corrupt entry or missing key: `(false, key, "")`
  - `storage_scenarios.dfy` restates the five cases of the storage test over
    the model: good, empty, missing, garbage and stale.

Supporting modules:
- `wrappers.dfy`: `Option`.
- `strings.dfy`: find, cut, join and split on one character, with round-trip
  lemmas.
- `decimal.dfy`: rendering and parsing of the decimal timestamp, with
  round-trip lemmas.

Everything is a pure function over immutable datatypes. The raw store is a
`map<string, string>`, and a direct write to it is `RawPut`.

The model takes these as parameters:
- the digest: `h: Hasher`, any function from strings to strings. The
  round-trip properties require the digest of the payloads involved to be 32
  lowercase hex characters (`IsHexDigest`), as the store's digest always is;
- the current time `now`, in seconds;
- the staleness threshold `threshold`.

An entry is stale when `now - timestamp > threshold`.

Modelling decisions:
- The implementation files `lookup_key.cc`, `validating_storage.cc` and the
  wrapper utility are not part of this model. Their behaviour is taken from
  the header's comments and the test's assertions, and from the decisions
  below where those are silent.
- Depth is the number of populated levels.
- `ToKeyString(0)` and the key string of an empty key are both `""`.
- An address with an empty region code gives an empty key.
- The separator is fixed to `'/'` (`KeySeparator`). No proof depends on which
  character it is, only on it not occurring in field values.
- The timestamp header must be a canonical decimal: digits only, without
  leading zeros. This makes the wire format a bijection with well-formed
  envelopes (`Parse` and `Serialize`).
- `Unwrap` checks the checksum first and the age second. A stale entry has
  passed the integrity check.
- `LookupKey.Valid()` is the key's object invariant:
  - the populated levels are a prefix of the hierarchy;
  - no populated value is empty.

  `FromAddress` establishes it. The queries require it along with
  non-emptiness.

## Model

| member | source | states |
|---|---|---|
| LookupKey.HierarchyIsFourDistinctFields | cpp/src/lookup_key.h:34-36 | the hierarchy is a fixed sequence of exactly four distinct address fields |
| LookupKey.FromAddress | cpp/src/lookup_key.h:41-42 | the key built from an address is valid; its path holds the address's values in hierarchy order, it stops only at an empty level or at the end, and it never populates a non-hierarchy field |
| LookupKey.LeadingLevels | cpp/src/lookup_key.h:41-42 | counts the consecutive non-empty hierarchy levels of an address; all counted levels are non-empty and the next one (if any) is empty |
| LookupKey.ValidKeyIsPrefix | cpp/src/lookup_key.h:54 | a valid `nodes_` map populates exactly the first depth levels, and its size equals the length of the path |
| LookupKey.KeyDeterminedByPath | cpp/src/lookup_key.h:54 | a valid key's whole state is determined by the values along its path |
| LookupKey.ToKeyString | cpp/src/lookup_key.h:44-45 | for a valid key with separator-free values, the key string splits back into exactly the first min(max_depth, depth) level values, most general first |
| LookupKey.KeyStringLevels | cpp/src/lookup_key.h:44-45 | the key string never renders more than max_depth levels, nor more levels than are populated |
| LookupKey.KeyStringEmpty | cpp/src/lookup_key.h:44-45 | the key string is empty if and only if max_depth is 0 or the key is empty |
| LookupKey.KeyStringPrefix | cpp/src/lookup_key.h:44-45 | the key string for a smaller max_depth is a prefix of the one for a larger max_depth |
| LookupKey.KeyStringIdentifiesKey | cpp/src/lookup_key.h:44-45 | two valid keys with the same full key string are equal (given separator-free values) |
| LookupKey.GetRegionCode | cpp/src/lookup_key.h:47-48 | requires a non-empty key; returns the first value on the path, which is non-empty |
| LookupKey.GetDepth | cpp/src/lookup_key.h:50-51 | requires a non-empty key; returns the number of populated levels, between 1 and 4 |
| LookupKey.FromAddressQueries | cpp/src/lookup_key.h:41-51 | a key from an address is empty if and only if the region code is empty; otherwise the region code is the address's country and the depth is its count of leading non-empty levels |
| LookupKey.TwoLevelPath | cpp/src/lookup_key.h:41-42 | an address with country and area set and locality empty gives the path (country, area) |
| LookupKey.TwoLevelAddress | cpp/src/lookup_key.h:41-51 | for an address with two levels set, the full key string is both values joined, depth 1 gives the region alone, depth 0 gives "", the depth is 2 and the region code is the country |
| Strings.SplitOfJoin | cpp/src/lookup_key.h:44-45 | splitting a join of non-empty, separator-free parts returns those parts |
| Strings.JoinOfSplit | cpp/src/lookup_key.h:44-45 | joining the split of any string reassembles it: the other half of the Split/Join inverse whose first half the key-string lemmas use |
| Strings.JoinPrefix | cpp/src/lookup_key.h:44-45 | joining a prefix of the parts gives a prefix of the joined whole |
| Strings.IndexOfSpec | cpp/test/validating_storage_test.cc:41-43 | the search for a character finds nothing exactly when it is absent, and otherwise finds its first occurrence |
| Strings.SplitFirstSpec | cpp/test/validating_storage_test.cc:41-43 | cutting at the first delimiter fails exactly when it is absent; otherwise the part before is delimiter-free and the parts rebuild the input |
| Decimal.ParseRendering | cpp/test/validating_storage_test.cc:29 | a rendered timestamp parses back to the same number |
| Decimal.RenderingAppendsDigit | cpp/test/validating_storage_test.cc:29 | appending a digit to a positive number appends that digit's character to its rendering |
| Decimal.RenderingOfParse | cpp/test/validating_storage_test.cc:29 | a canonical decimal timestamp is the rendering of its own value |
| WrapperCodec.Serialize | cpp/test/validating_storage_test.cc:41-43 | the wire form starts with the timestamp header and ends with the payload verbatim; Parse and ParseOfSerialize show it is invertible |
| WrapperCodec.ReadHeaderLayout | cpp/test/validating_storage_test.cc:41-42 | a header that was read is exactly `<prefix><value>\n` followed by the rest of the input |
| WrapperCodec.ReadHeaderOfLine | cpp/test/validating_storage_test.cc:41-42 | reading a header line `<prefix><value>\n` recovers the value and the rest verbatim |
| WrapperCodec.Parse | cpp/test/validating_storage_test.cc:41-43 | a successful parse yields a hex-digest checksum, and the envelope re-serializes to exactly the input bytes |
| WrapperCodec.ParseOfSerialize | cpp/test/validating_storage_test.cc:41-43 | every envelope with a hex-digest checksum parses back from its wire form |
| WrapperCodec.Wrap | cpp/test/validating_storage_test.cc:27-29 | when the digest of the payload is a hex digest, the wrapped bytes parse back to the write time, that digest and the payload, for any payload including ones with newlines |
| WrapperCodec.WrapInjective | cpp/test/validating_storage_test.cc:41-43 | equal wrappings of payloads with hex digests have equal payloads and equal write times |
| WrapperCodec.IsStale | cpp/test/validating_storage_test.cc:121-131 | an entry is stale when more than the threshold has passed since its write time; a stale entry was always written strictly before now |
| WrapperCodec.StalenessIsMonotone | cpp/test/validating_storage_test.cc:121-131 | a stale entry stays stale at every later time, and an entry fresh now was fresh at every earlier time |
| WrapperCodec.Unwrap | cpp/test/validating_storage_test.cc:109-131 | Corrupt if and only if the bytes are no wrapping of any payload whose digest is a hex digest; otherwise the returned payload has a hex digest, the bytes are its wrapping, and Stale if and only if that entry is older than the threshold |
| WrapperCodec.NotWrappingWhenUnparsed | cpp/test/validating_storage_test.cc:109-119 | bytes that do not parse, or whose checksum does not match, are no wrapping of any payload with a hex digest |
| WrapperCodec.IsWrappingWhenParsed | cpp/test/validating_storage_test.cc:121-131 | bytes that parse with a matching checksum are the wrapping of their payload at their timestamp, and that payload's digest is a hex digest |
| WrapperCodec.UnwrapOfWrap | cpp/test/validating_storage_test.cc:78-98 | unwrapping a wrapping of a payload with a hex digest returns the payload: Valid when fresh, Stale when old |
| ValidatingStorage.Put | cpp/test/validating_storage_test.cc:78-79 | afterwards the raw store holds the wrapping of the data under the key, and every other key is unchanged |
| ValidatingStorage.RawPut | cpp/test/validating_storage_test.cc:110-111 | a direct write to the wrapped store leaves exactly the given bytes under the key, and every other key is unchanged |
| ValidatingStorage.Get | cpp/test/validating_storage_test.cc:78-131 | always echoes the key; returns data or success only when the stored bytes are exactly the wrapping of that data, with success exactly when it is fresh; conversely, stored bytes that wrap a payload p with a hex digest at time t read as (true, key, p) when fresh and (false, key, p) when stale; bytes that wrap no such payload, and a missing key, read as (false, key, "") |
| ValidatingStorage.GetAfterPut | cpp/test/validating_storage_test.cc:78-87 | Put then Get within the threshold gives (true, key, data) when the data's digest is a hex digest |
| ValidatingStorage.GetMissing | cpp/test/validating_storage_test.cc:100-107 | Get on a key never written gives (false, key, "") |
| ValidatingStorage.EmptyPayloadIsNotMissing | cpp/test/validating_storage_test.cc:89-107 | an empty payload that was put reads as success, while a missing key does not |
| ValidatingStorage.GetCorrupt | cpp/test/validating_storage_test.cc:109-119 | stored bytes that are no wrapping of any payload with a hex digest read as (false, key, "") |
| ValidatingStorage.GetStale | cpp/test/validating_storage_test.cc:121-131 | an intact entry older than the threshold reads as (false, key, payload) |
| ValidatingStorage.PutLeavesOtherKeys | cpp/test/validating_storage_test.cc:78-79 | a Put under one key changes nothing that Get reports for any other key |
| ValidatingStorage.OverwriteHides | cpp/test/validating_storage_test.cc:110-111 | a second raw write to a key replaces the first entirely |
| ValidatingStorage.LastWriteWins | cpp/test/validating_storage_test.cc:121-123 | a later wrapped or raw write to the same key hides every earlier write |
| StorageScenarios.GoodData | cpp/test/validating_storage_test.cc:78-87 | the good-data test case: success, the key and the payload |
| StorageScenarios.EmptyData | cpp/test/validating_storage_test.cc:89-98 | the empty-data test case: success, the key and "" |
| StorageScenarios.MissingKey | cpp/test/validating_storage_test.cc:100-107 | the missing-key test case: failure, the key and "" |
| StorageScenarios.GarbageData | cpp/test/validating_storage_test.cc:109-119 | the garbage test case: failure, the key and "" |
| StorageScenarios.StaleEntryLayout | cpp/test/validating_storage_test.cc:41-43 | the test's stale bytes are the wire form of the envelope (0, test checksum, test payload) |
| StorageScenarios.StaleEntryIsWrapping | cpp/test/validating_storage_test.cc:27-43 | if the digest maps the test payload to the test checksum, the stale bytes are its wrapping at time 0 |
| StorageScenarios.TestChecksumIsHexDigest | cpp/test/validating_storage_test.cc:27 | the checksum the test embeds is 32 lowercase hex characters |
| StorageScenarios.StaleData | cpp/test/validating_storage_test.cc:121-131 | the stale test case: failure, the key and the original payload |

## Left out

- Digest algorithm: the 128-bit digest behind `checksum=` is the parameter `h: Hasher`, an arbitrary function. The model does not compute it. Where a property needs the digest to be 32 lowercase hex characters, the member requires this of the payloads it is about.
- Wall clock: `now` and the staleness threshold are parameters. The concrete threshold value is not visible.
- Callbacks: `Callback`, `BuildCallback`, `scoped_ptr` and ownership of the wrapped storage are C++ lifetime mechanics. `Get` returns the triple the callback would receive, so "invoked exactly once" holds by construction.
- Raw store: `FakeStorage` and any disk or network-backed store are I/O. The raw store is a map with last-write-wins `Put`. A raw `Put` never fails, so no write failure is propagated.
- `AddressData` is modelled only as a field-to-string accessor. `address_field.h` is not part of this model. Its non-hierarchy fields appear only so that `FromAddress` can be shown to ignore them.
- Key prefix and separator: `lookup_key.cc` is not part of this model. No key prefix is rendered, and the separator is a fixed character assumed absent from values.
- `LookupKey()` and `~LookupKey()` are not modelled: the empty key is `LookupKey(map[])`. `DISALLOW_COPY_AND_ASSIGN` is not modelled either.
- Const queries: `ToKeyString`, `GetRegionCode` and `GetDepth` are pure functions. Repeating a call gives the same result and changes no state by construction, so no member states this separately.
- LookupKey.GetDepth: depth counts the populated levels (1 to 4 for a non-empty key). The header only says it returns the depth, so a 0-based index of the deepest level (0 to 3) would fit it equally; the model's reading is a decision the visible header does not fix. It also requires the object invariant `Valid()`, as `GetRegionCode` does.
- LookupKey.ToKeyString: `max_depth` is read as the number of levels rendered, so 0 renders nothing. The header does not say whether it is a count or the index of the last level rendered; the model's reading is a decision the visible header does not fix.
- LookupKey.FromAddress: an empty region code gives an empty key, and population stops at the first empty level. Nothing in the visible header states either; both are decisions of the model.
- WrapperCodec.IsStale: an entry is stale when `now - timestamp > threshold`, strictly, so an entry with a future timestamp is fresh. The test only shows that timestamp 0 is stale; the comparison is a decision the visible test does not fix.
- LookupKey.GetRegionCode: also requires the object invariant `Valid()`, which `FromAddress` establishes and no operation breaks.
- Timestamp parsing accepts only canonical decimals without leading zeros. The exact parse of the implementation is not visible.
