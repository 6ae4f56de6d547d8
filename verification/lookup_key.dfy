/**
 The lookup key of an address: the values of the address's hierarchy levels
 (country, administrative area, locality, dependent locality), held as a map
 from field to value and rendered, coarsest level first, as the key string
 used to request address metadata.
 */
module LookupKey {
  import opened Strings

  /** The fields of an address record; the first four form the lookup hierarchy. */
  datatype AddressField =
    | Country | AdminArea | Locality | DependentLocality
    | SortingCode | PostalCode | StreetAddress | Recipient

  /** The fixed hierarchy, from the most general level to the most specific. */
  const Hierarchy: seq<AddressField> := [Country, AdminArea, Locality, DependentLocality]

  /** Joins the levels of a key string; it is assumed not to occur in field values. */
  const KeySeparator: char := '/'

  /** An address record, seen through its per-field accessor (empty when unset). */
  datatype AddressData = AddressData(fields: map<AddressField, string>) {
    function GetFieldValue(field: AddressField): string {
      if field in fields then fields[field] else ""
    }
  }

  function Min(a: nat, b: nat): nat {
    if a <= b then a else b
  }

  /** The hierarchy consists of exactly four distinct fields. */
  lemma HierarchyIsFourDistinctFields()
    ensures |Hierarchy| == 4
    ensures forall i, j :: 0 <= i < j < |Hierarchy| ==> Hierarchy[i] != Hierarchy[j]
  {
  }

  /** A level belongs to the first `d` levels exactly when its index is below `d`. */
  lemma LevelInPrefix(x: nat, d: nat)
    requires x < |Hierarchy| && d <= |Hierarchy|
    ensures Hierarchy[x] in Hierarchy[..d] <==> x < d
  {
    if Hierarchy[x] in Hierarchy[..d] {
      var j :| 0 <= j < d && Hierarchy[..d][j] == Hierarchy[x];
      HierarchyIsFourDistinctFields();
    }
  }

  /** The first `d` levels of the hierarchy are `d` different fields. */
  lemma PrefixCardinality(d: nat)
    requires d <= |Hierarchy|
    ensures |set f | f in Hierarchy[..d]| == d
  {
    var s := set f | f in Hierarchy[..d];
    if d == 0 {
      assert s == {};
    } else if d == 1 {
      assert Hierarchy[..d] == [Country];
      assert s == {Country};
    } else if d == 2 {
      assert Hierarchy[..d] == [Country, AdminArea];
      assert s == {Country, AdminArea};
    } else if d == 3 {
      assert Hierarchy[..d] == [Country, AdminArea, Locality];
      assert s == {Country, AdminArea, Locality};
    } else {
      assert Hierarchy[..d] == Hierarchy;
      assert s == {Country, AdminArea, Locality, DependentLocality};
    }
  }

  /** Number of consecutive levels with a non-empty value in `address`, from level `i` on. */
  function LeadingLevels(address: AddressData, i: nat): (n: nat)
    requires i <= |Hierarchy|
    ensures i + n <= |Hierarchy|
    ensures forall j :: i <= j < i + n ==> address.GetFieldValue(Hierarchy[j]) != ""
    ensures i + n < |Hierarchy| ==> address.GetFieldValue(Hierarchy[i + n]) == ""
    decreases |Hierarchy| - i
  {
    if i == |Hierarchy| || address.GetFieldValue(Hierarchy[i]) == "" then 0
    else 1 + LeadingLevels(address, i + 1)
  }

  /** The populated hierarchy levels of an address, as a map from field to value. */
  datatype LookupKey = LookupKey(nodes: map<AddressField, string>) {

    /** No level is populated. */
    predicate IsEmpty() {
      nodes == map[]
    }

    /**
     The values of levels `i`, `i + 1`, ... up to the first level that is not
     populated: the longest run of populated levels starting at `i`.
     */
    function PathFrom(i: nat): (p: seq<string>)
      ensures i + |p| <= |Hierarchy| || p == []
      ensures forall j :: 0 <= j < |p| ==> i + j < |Hierarchy| && Hierarchy[i + j] in nodes
                                            && p[j] == nodes[Hierarchy[i + j]]
      ensures i + |p| < |Hierarchy| ==> Hierarchy[i + |p|] !in nodes
      decreases |Hierarchy| - i
    {
      if i >= |Hierarchy| || Hierarchy[i] !in nodes then []
      else
        var rest := PathFrom(i + 1);
        var p := [nodes[Hierarchy[i]]] + rest;
        assert forall j :: 1 <= j < |p| ==> p[j] == rest[j - 1] && i + j == (i + 1) + (j - 1);
        p
    }

    /** The values of the populated levels, most general first. */
    function Path(): seq<string> {
      PathFrom(0)
    }

    /**
     The object invariant: only the levels on the path are populated (so the
     populated levels are a prefix of the hierarchy) and none holds "".
     */
    predicate Valid() {
      && (forall f :: f in nodes ==> f in Hierarchy[..|Path()|])
      && (forall f :: f in nodes ==> nodes[f] != "")
    }

    /** No populated value contains the key separator. */
    predicate SeparatorFree() {
      forall f :: f in nodes ==> KeySeparator !in nodes[f]
    }
  }

  /** A valid key populates exactly the first |Path()| levels of the hierarchy. */
  lemma ValidKeyIsPrefix(key: LookupKey)
    requires key.Valid()
    ensures forall f :: f in key.nodes <==> f in Hierarchy[..|key.Path()|]
    ensures |key.nodes| == |key.Path()|
  {
    var d := |key.Path()|;
    forall f | f in Hierarchy[..d]
      ensures f in key.nodes
    {
      var j :| 0 <= j < d && Hierarchy[..d][j] == f;
      assert key.Path()[j] == key.nodes[Hierarchy[j]];
    }
    assert key.nodes.Keys == set f | f in Hierarchy[..d];
    PrefixCardinality(d);
  }

  /** A map that populates exactly the first `d` levels has a path of length `d`. */
  lemma PathOfPrefixMap(key: LookupKey, d: nat)
    requires d <= |Hierarchy|
    requires forall f :: f in key.nodes <==> f in Hierarchy[..d]
    ensures |key.Path()| == d
  {
    var p := key.Path();
    if |p| < |Hierarchy| {
      LevelInPrefix(|p|, d);
    }
    if d < |Hierarchy| {
      LevelInPrefix(d, d);
    }
  }

  /**
   Initializes a key from an address: every hierarchy level with a non-empty
   value is populated, stopping at the first level whose value is empty.
   */
  function FromAddress(address: AddressData): (key: LookupKey)
    ensures key.Valid()
    ensures forall j :: 0 <= j < |key.Path()| ==> key.Path()[j] == address.GetFieldValue(Hierarchy[j])
    ensures |key.Path()| < |Hierarchy| ==> address.GetFieldValue(Hierarchy[|key.Path()|]) == ""
    ensures forall f :: f !in Hierarchy ==> f !in key.nodes
  {
    var d := LeadingLevels(address, 0);
    var key := LookupKey(map f | f in Hierarchy[..d] :: address.GetFieldValue(f));
    PathOfPrefixMap(key, d);
    forall f | f in key.nodes
      ensures key.nodes[f] != ""
    {
      var j :| 0 <= j < d && Hierarchy[..d][j] == f;
    }
    key
  }

  /** The value of the most general level. Must not be called on an empty key. */
  function GetRegionCode(key: LookupKey): (region: string)
    requires key.Valid() && !key.IsEmpty()
    ensures |key.Path()| >= 1 && region == key.Path()[0]
    ensures region != ""
  {
    ValidKeyIsPrefix(key);
    key.nodes[Hierarchy[0]]
  }

  /** The number of populated levels. Must not be called on an empty key. */
  function GetDepth(key: LookupKey): (depth: nat)
    requires key.Valid() && !key.IsEmpty()
    ensures depth == |key.Path()|
    ensures 1 <= depth <= |Hierarchy|
  {
    ValidKeyIsPrefix(key);
    |key.nodes|
  }

  /**
   The key string: the values of at most `maxDepth` levels, most general first.
   For a valid key with separator-free values it splits back into exactly the
   first min(maxDepth, depth) level values.
   */
  function ToKeyString(key: LookupKey, maxDepth: nat): (r: string)
    ensures key.Valid() && key.SeparatorFree() ==>
              Split(r, KeySeparator) == key.Path()[..Min(maxDepth, |key.Path()|)]
  {
    var levels := key.Path()[..Min(maxDepth, |key.Path()|)];
    assert key.Valid() && key.SeparatorFree() ==>
             Split(Join(levels, KeySeparator), KeySeparator) == levels by {
      if key.Valid() && key.SeparatorFree() {
        PathLevels(key);
        SplitOfJoin(levels, KeySeparator);
      }
    }
    Join(levels, KeySeparator)
  }

  /** The levels of a valid key are non-empty, and separator-free when its values are. */
  lemma PathLevels(key: LookupKey)
    requires key.Valid()
    ensures forall j :: 0 <= j < |key.Path()| ==> key.Path()[j] != ""
    ensures key.SeparatorFree() ==> forall j :: 0 <= j < |key.Path()| ==> KeySeparator !in key.Path()[j]
  {
  }

  /**
   The key string never holds more levels than asked for, nor more than are
   populated.
   */
  lemma KeyStringLevels(key: LookupKey, maxDepth: nat)
    requires key.Valid() && key.SeparatorFree()
    ensures |Split(ToKeyString(key, maxDepth), KeySeparator)| <= maxDepth
    ensures |Split(ToKeyString(key, maxDepth), KeySeparator)| <= |key.Path()|
  {
  }

  /** The key string is empty exactly when no level is asked for or none is populated. */
  lemma KeyStringEmpty(key: LookupKey, maxDepth: nat)
    requires key.Valid()
    ensures ToKeyString(key, maxDepth) == "" <==> maxDepth == 0 || key.IsEmpty()
  {
    ValidKeyIsPrefix(key);
    var parts := key.Path()[..Min(maxDepth, |key.Path()|)];
    if |parts| > 0 {
      PathLevels(key);
      JoinPrefix(parts, KeySeparator, 1);
      assert parts[..1] == [parts[0]];
    }
  }

  /** Asking for fewer levels yields a prefix of the key string for more levels. */
  lemma KeyStringPrefix(key: LookupKey, shallow: nat, deep: nat)
    requires shallow <= deep
    ensures ToKeyString(key, shallow) <= ToKeyString(key, deep)
  {
    var p := key.Path();
    var parts := p[..Min(deep, |p|)];
    JoinPrefix(parts, KeySeparator, Min(shallow, |p|));
    assert parts[..Min(shallow, |p|)] == p[..Min(shallow, |p|)];
  }

  /** A valid key is determined by the values along its path. */
  lemma KeyDeterminedByPath(k1: LookupKey, k2: LookupKey)
    requires k1.Valid() && k2.Valid()
    requires k1.Path() == k2.Path()
    ensures k1 == k2
  {
    var p := k1.Path();
    ValidKeyIsPrefix(k1);
    ValidKeyIsPrefix(k2);
    forall f | f in k1.nodes
      ensures k1.nodes[f] == k2.nodes[f]
    {
      var j :| 0 <= j < |p| && Hierarchy[..|p|][j] == f;
      assert p[j] == k1.nodes[Hierarchy[j]];
      assert p[j] == k2.nodes[Hierarchy[j]];
    }
    assert k1.nodes == k2.nodes;
  }

  /** Two valid, separator-free keys with the same full key string are the same key. */
  lemma KeyStringIdentifiesKey(k1: LookupKey, k2: LookupKey)
    requires k1.Valid() && k1.SeparatorFree()
    requires k2.Valid() && k2.SeparatorFree()
    requires ToKeyString(k1, |Hierarchy|) == ToKeyString(k2, |Hierarchy|)
    ensures k1 == k2
  {
    assert k1.Path()[..|k1.Path()|] == k1.Path();
    assert k2.Path()[..|k2.Path()|] == k2.Path();
    KeyDeterminedByPath(k1, k2);
  }

  /**
   Queries on a key initialized from an address: it is empty exactly when the
   address has no region code; otherwise the region code is the address's
   country and the depth is the number of leading non-empty levels.
   */
  lemma FromAddressQueries(address: AddressData)
    ensures FromAddress(address).IsEmpty() <==> address.GetFieldValue(Country) == ""
    ensures !FromAddress(address).IsEmpty() ==>
              && GetRegionCode(FromAddress(address)) == address.GetFieldValue(Country)
              && GetDepth(FromAddress(address)) == LeadingLevels(address, 0)
  {
    var key := FromAddress(address);
    ValidKeyIsPrefix(key);
    if address.GetFieldValue(Country) != "" {
      assert |key.Path()| >= 1;
      assert Country in key.nodes;
    }
  }

  /** An address with only its first two levels set gives the path (country, area). */
  lemma TwoLevelPath(address: AddressData)
    requires address.GetFieldValue(Country) != "" && address.GetFieldValue(AdminArea) != ""
    requires address.GetFieldValue(Locality) == ""
    ensures FromAddress(address).Path()
         == [address.GetFieldValue(Country), address.GetFieldValue(AdminArea)]
  {
    var p := FromAddress(address).Path();
    assert |p| == 2 by {
      assert Hierarchy[2] == Locality;
    }
  }

  /**
   An address with only its first two levels set: the full key string is the
   two values joined by the separator, one level gives the region alone, zero
   levels give the empty string, and the depth is 2.
   */
  lemma TwoLevelAddress(address: AddressData)
    requires address.GetFieldValue(Country) != "" && address.GetFieldValue(AdminArea) != ""
    requires address.GetFieldValue(Locality) == ""
    ensures ToKeyString(FromAddress(address), |Hierarchy|)
         == address.GetFieldValue(Country) + [KeySeparator] + address.GetFieldValue(AdminArea)
    ensures ToKeyString(FromAddress(address), 1) == address.GetFieldValue(Country)
    ensures ToKeyString(FromAddress(address), 0) == ""
    ensures GetDepth(FromAddress(address)) == 2
    ensures GetRegionCode(FromAddress(address)) == address.GetFieldValue(Country)
  {
    var p := FromAddress(address).Path();
    var region := address.GetFieldValue(Country);
    var area := address.GetFieldValue(AdminArea);
    FromAddressQueries(address);
    TwoLevelPath(address);
    assert p[..Min(|Hierarchy|, 2)] == [region, area];
    assert Join([region, area], KeySeparator) == region + [KeySeparator] + Join([area], KeySeparator);
    assert p[..Min(1, 2)] == [region];
  }
}
