/** Two batches that pass the admission test and are not read back: one for each half of the exact condition. */
module EmfLimits {
  import opened Sorting
  import opened EmfBatch
  import opened EmfParts

  /** A metric that uses its own name as a dimension key. */
  const OWN_NAME := Datum("a", 1.0, "Count", map["a" := "x"])

  /** Keys `b` and `c` against the one key made of b, NUL and c. */
  const TWO_KEYS := Datum("a", 1.0, "Count", map["b" := "x", "c" := "y"])
  const NUL_KEY := Datum("d", 1.0, "Count", map["b\0c" := "z"])

  lemma OwnNameNotFaithful(namespace: string)
    ensures Admissible(LOG_ROOT_KEYS, [OWN_NAME]) && !Faithful(PartsFor(namespace, [OWN_NAME]), namespace, [OWN_NAME])
  {
    assert |OWN_NAME.dimensions| == 1;
    SingleAdmissible(LOG_ROOT_KEYS, OWN_NAME);
    FaithfulIff(LOG_ROOT_KEYS, namespace, [OWN_NAME]);
    assert OWN_NAME in [OWN_NAME];
  }

  lemma TwoKeysAdmissible(reserved: set<string>)
    requires reserved !! {"a", "b", "c", "d", "b\0c"}
    ensures Admissible(reserved, [TWO_KEYS, NUL_KEY])
  {
    SubsetSize(TWO_KEYS.dimensions.Keys, {"b", "c"});
    SubsetSize(NUL_KEY.dimensions.Keys, {"b\0c"});
    assert "b\0c" != "b" && "b\0c" != "c" && "b\0c" != "a";
    SingleAdmissible(reserved, TWO_KEYS);
    AdmissibleSnoc(reserved, [TWO_KEYS], NUL_KEY);
    FixedBySnoc([], TWO_KEYS);
    assert [] + [TWO_KEYS] == [TWO_KEYS] && [TWO_KEYS] + [NUL_KEY] == [TWO_KEYS, NUL_KEY];
  }

  lemma SameGroupKey()
    ensures GroupKey(TWO_KEYS) == GroupKey(NUL_KEY)
  {
    SortedEquals(["b", "c"], TWO_KEYS.dimensions.Keys);
    SortedEquals(["b\0c"], NUL_KEY.dimensions.Keys);
    assert ["b", "c"][1..] == ["c"];
    assert Strings.Join(["b", "c"], "\0") == "b" + "\0" + "c" == "b\0c";
  }

  lemma NulKeyNotFaithful(namespace: string, reserved: set<string>)
    requires reserved !! {"a", "b", "c", "d", "b\0c"}
    ensures Admissible(reserved, [TWO_KEYS, NUL_KEY])
    ensures !Faithful(PartsFor(namespace, [TWO_KEYS, NUL_KEY]), namespace, [TWO_KEYS, NUL_KEY])
  {
    var batch := [TWO_KEYS, NUL_KEY];
    TwoKeysAdmissible(reserved);
    SameGroupKey();
    FaithfulIff(reserved, namespace, batch);
    assert batch[0] in batch && batch[1] in batch;
    assert "b" in TWO_KEYS.dimensions && "b" !in NUL_KEY.dimensions;
  }
}
