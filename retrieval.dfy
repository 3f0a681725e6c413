/**
 * The retrieval gateway: batch retrieval (POST /features/online) and
 * single-entity retrieval (GET /features/online/{entity_id}). A missing or
 * expired key is answered with null, never with an error; a stored null is
 * answered with the same null, so the two cannot be told apart in a response.
 */
module Retrieval {
  import opened Wrappers
  import opened Text
  import opened Codec
  import opened KeyScheme
  import opened NameList
  import opened OnlineStore
  import opened FeatureCatalog
  import opened Ingestion

  datatype OnlineFeatureRequest = OnlineFeatureRequest(entityIds: seq<string>, featureNames: seq<string>)

  datatype OnlineFeatureResponse = OnlineFeatureResponse(entityId: string, features: map<string, Value>)

  /** `value = get(key)`, then `json.loads(value)` when the text is non-empty and null otherwise. */
  function ReadFeature(entries: map<string, Entry>, key: string, now: int): (v: Value)
    requires AllDecodable(entries)
    ensures !(key in entries && Live(entries[key], now)) ==> v == Null
    ensures key in entries && Live(entries[key], now) ==> Decode(entries[key].text) == Some(v)
  {
    match Lookup(entries, key, now)
    case None => Null
    case Some(text) => if text != "" then Decode(text).value else Null
  }

  /** The answer for one entity maps exactly the requested names to what their keys read. */
  ghost predicate Answers(entries: map<string, Entry>, entityId: string, requested: set<string>,
                          features: map<string, Value>, now: int)
    requires AllDecodable(entries)
  {
    && features.Keys == requested
    && forall n :: n in requested ==> features[n] == ReadFeature(entries, Key(entityId, n), now)
  }

  /** The `features_dict` the per-name loop builds, one name after the other. */
  function FeatureMap(entries: map<string, Entry>, entityId: string, names: seq<string>, now: int)
    : (features: map<string, Value>)
    requires AllDecodable(entries)
    ensures Answers(entries, entityId, (set n | n in names), features, now)
  {
    if names == [] then map[]
    else
      var last := names[|names| - 1];
      var features := FeatureMap(entries, entityId, names[..|names| - 1], now);
      assert forall n :: n in names <==> n in names[..|names| - 1] || n == last;
      features[last := ReadFeature(entries, Key(entityId, last), now)]
  }

  /** The per-name loop shared by both entry points. */
  method LookupFeatures(store: Store, entityId: string, names: seq<string>, now: int)
    returns (features: map<string, Value>)
    requires store.Valid()
    ensures features == FeatureMap(store.entries, entityId, names, now)
  {
    features := map[];
    for i := 0 to |names|
      invariant features == FeatureMap(store.entries, entityId, names[..i], now)
    {
      var name := names[i];
      var value := store.Get(Key(entityId, name), now);
      if value.Some? && value.value != "" {
        var decoded := Decode(value.value);
        features := features[name := decoded.value];
      } else {
        features := features[name := Null];
      }
      assert names[..i + 1][..i] == names[..i];
    }
    assert names[..|names|] == names;
  }

  /**
   * `get_online_features`: one response per requested entity id, in request
   * order, duplicates included, each with the shared list of names.
   */
  method GetOnlineFeatures(store: Store, request: OnlineFeatureRequest, now: int)
    returns (results: seq<OnlineFeatureResponse>)
    requires store.Valid()
    ensures |results| == |request.entityIds|
    ensures forall i :: 0 <= i < |results| ==>
      results[i] == OnlineFeatureResponse(request.entityIds[i],
                                          FeatureMap(store.entries, request.entityIds[i], request.featureNames, now))
  {
    results := [];
    for i := 0 to |request.entityIds|
      invariant |results| == i
      invariant forall j :: 0 <= j < i ==>
        results[j] == OnlineFeatureResponse(request.entityIds[j],
                                            FeatureMap(store.entries, request.entityIds[j], request.featureNames, now))
    {
      var features := LookupFeatures(store, request.entityIds[i], request.featureNames, now);
      results := results + [OnlineFeatureResponse(request.entityIds[i], features)];
    }
  }

  /** The feature names a wildcard query discovers: the text after the first colon of each live key of the entity. */
  function DiscoveredNames(entries: map<string, Entry>, entityId: string, now: int): (names: set<string>)
    ensures Separator !in entityId ==> forall n :: n in names <==> Lookup(entries, Key(entityId, n), now).Some?
  {
    var live := LiveKeysWithPrefix(entries, EntityPrefix(entityId), now);
    var names := set k | k in live && Separator in k :: FeatureSuffix(k);
    if Separator in entityId then names
    else
      SuffixesExact(entries, entityId, now, names);
      names
  }

  /** The suffix set of the live keys under a colon-free entity's prefix holds exactly the names GET finds. */
  lemma SuffixesExact(entries: map<string, Entry>, entityId: string, now: int, names: set<string>)
    requires Separator !in entityId
    requires names == set k | k in LiveKeysWithPrefix(entries, EntityPrefix(entityId), now) && Separator in k
                            :: FeatureSuffix(k)
    ensures forall n :: n in names <==> Lookup(entries, Key(entityId, n), now).Some?
  {
    forall n
      ensures n in names <==> Lookup(entries, Key(entityId, n), now).Some?
    {
      SplitKey(entityId, n);
      if n in names {
        var k :| k in LiveKeysWithPrefix(entries, EntityPrefix(entityId), now) && Separator in k
                 && FeatureSuffix(k) == n;
        PrefixedKey(entityId, k);
      }
    }
  }

  /** `feature_names` given and non-empty: its comma-separated pieces; otherwise the discovered names. */
  function RequestedNames(entries: map<string, Entry>, entityId: string, featureNames: Option<string>, now: int)
    : (names: set<string>)
    ensures featureNames.Some? && featureNames.value != "" ==>
      forall n :: n in names ==> Trimmed(n) && ',' !in n
    ensures featureNames.None? || featureNames.value == "" ==> names == DiscoveredNames(entries, entityId, now)
    ensures (featureNames.None? || featureNames.value == "") && Separator !in entityId ==>
      forall n :: n in names <==> Lookup(entries, Key(entityId, n), now).Some?
  {
    if featureNames.Some? && featureNames.value != "" then (set n | n in ParseNames(featureNames.value))
    else DiscoveredNames(entries, entityId, now)
  }

  /** `[key.split(":", 1)[1] for key in keys]`. */
  function SuffixesOf(keys: seq<string>): (names: seq<string>)
    requires forall i :: 0 <= i < |keys| ==> Separator in keys[i]
    ensures |names| == |keys|
    ensures forall i :: 0 <= i < |keys| ==> keys[i] == Key(EntityPart(keys[i]), names[i])
  {
    seq(|keys|, i requires 0 <= i < |keys| => FeatureSuffix(keys[i]))
  }

  /** `get_entity_features`. */
  method GetEntityFeatures(store: Store, entityId: string, featureNames: Option<string>, now: int)
    returns (response: OnlineFeatureResponse)
    requires store.Valid()
    ensures response.entityId == entityId
    ensures Answers(store.entries, entityId, RequestedNames(store.entries, entityId, featureNames, now),
                    response.features, now)
    ensures featureNames.Some? && featureNames.value != "" ==>
      response.features == FeatureMap(store.entries, entityId, ParseNames(featureNames.value), now)
  {
    var requested: seq<string>;
    if featureNames.Some? && featureNames.value != "" {
      requested := ParseNames(featureNames.value);
    } else {
      var keys := store.Keys(EntityPrefix(entityId), now);
      forall i | 0 <= i < |keys|
        ensures Separator in keys[i]
      {
        assert keys[i] in LiveKeysWithPrefix(store.entries, EntityPrefix(entityId), now);
        PrefixedKeyHasSeparator(entityId, keys[i]);
      }
      requested := SuffixesOf(keys);
      assert (set n | n in requested) == DiscoveredNames(store.entries, entityId, now) by {
        forall n | n in DiscoveredNames(store.entries, entityId, now)
          ensures n in requested
        {
          var k :| k in LiveKeysWithPrefix(store.entries, EntityPrefix(entityId), now) && Separator in k
                   && FeatureSuffix(k) == n;
          var i :| 0 <= i < |keys| && keys[i] == k;
          assert requested[i] == n;
        }
      }
    }
    var features := LookupFeatures(store, entityId, requested, now);
    response := OnlineFeatureResponse(entityId, features);
  }

  // ---------------------------------------------------------------- properties

  /** A live key holding the text of `v` reads as `v`. */
  lemma ReadStoredValue(entries: map<string, Entry>, key: string, now: int, v: Value)
    requires AllDecodable(entries)
    requires key in entries && Live(entries[key], now) && entries[key].text == Encode(v)
    ensures ReadFeature(entries, key, now) == v
  {
    RoundTrip(v);
  }

  /** A stored null reads exactly like a key that was never written. */
  lemma StoredNullLooksMissing(entries: map<string, Entry>, key: string, now: int)
    requires AllDecodable(entries)
    requires key in entries && Live(entries[key], now) && entries[key].text == Encode(Null)
    ensures AllDecodable(entries - {key})
    ensures ReadFeature(entries, key, now) == ReadFeature(entries - {key}, key, now) == Null
  {
    RoundTrip(Null);
  }

  /**
   * Time-to-live as seen by a reader: after a successful ingestion, the last value
   * given for a feature is read back until its expiry, and null from then on; with
   * no time-to-live, or one of 0, it is read back at any later time.
   */
  lemma ReadAfterIngest(entries: map<string, Entry>, catalog: Catalog, entityId: string, fs: seq<FeatureValue>,
                        now: int, j: nat, later: int)
    requires AllDecodable(entries)
    requires IngestAll(entries, catalog, entityId, fs, now).failure.None?
    requires j < |fs|
    requires forall l :: j < l < |fs| ==> fs[l].featureName != fs[j].featureName
    ensures fs[j].featureName in catalog
    ensures AllDecodable(IngestAll(entries, catalog, entityId, fs, now).entries)
    ensures var after := IngestAll(entries, catalog, entityId, fs, now).entries;
      var read := ReadFeature(after, Key(entityId, fs[j].featureName), later);
      var ttl := catalog[fs[j].featureName];
      && (ttl == None || ttl == Some(0) ==> read == fs[j].value)
      && (ttl.Some? && ttl.value > 0 ==> read == if later < now + ttl.value then fs[j].value else Null)
  {
    var after := IngestAll(entries, catalog, entityId, fs, now).entries;
    IngestLastWriteWins(entries, catalog, entityId, fs, now, j);
    IngestKeepsDecodable(entries, catalog, entityId, fs, now);
    RoundTrip(fs[j].value);
  }

  /**
   * A wildcard query on entity `a` picks up the entry `a:b:c` that entity `a:b`
   * wrote for feature `c`, while the same query on `a:b` reads that feature as
   * `b:c` and answers it with null.
   */
  lemma WildcardAcrossColonEntities(now: int)
    ensures var entries := map[Key("a:b", "c") := Entry(Encode(Int(1)), None)];
      && AllDecodable(entries)
      && "b:c" in DiscoveredNames(entries, "a", now)
      && ReadFeature(entries, Key("a", "b:c"), now) == Int(1)
      && "b:c" in DiscoveredNames(entries, "a:b", now)
      && ReadFeature(entries, Key("a:b", "b:c"), now) == Null
  {
    var key := Key("a:b", "c");
    var entries := map[key := Entry(Encode(Int(1)), None)];
    RoundTrip(Int(1));
    ColonCollision();
    ColonEntityMisreadsKey();
    assert HasPrefix(EntityPrefix("a"), key);
    assert HasPrefix(EntityPrefix("a:b"), key);
    assert FeatureSuffix(key) == "b:c";
    assert key in LiveKeysWithPrefix(entries, EntityPrefix("a"), now);
    assert key in LiveKeysWithPrefix(entries, EntityPrefix("a:b"), now);
  }

  /**
   * For a list of names that survives the comma-separated form, single-entity
   * retrieval and batch retrieval give the same features for the entity.
   */
  lemma SingleMatchesBatch(entries: map<string, Entry>, entityId: string, names: seq<string>, now: int)
    requires AllDecodable(entries)
    requires |names| > 0 && Join(names) != ""
    requires forall i :: 0 <= i < |names| ==> Trimmed(names[i]) && ',' !in names[i]
    ensures RequestedNames(entries, entityId, Some(Join(names)), now) == (set n | n in names)
    ensures FeatureMap(entries, entityId, ParseNames(Join(names)), now) == FeatureMap(entries, entityId, names, now)
  {
    var csv := Join(names);
    ParseJoined(names);
    ExplicitNames(entries, entityId, csv, now);
  }

  lemma ExplicitNames(entries: map<string, Entry>, entityId: string, csv: string, now: int)
    requires csv != ""
    ensures RequestedNames(entries, entityId, Some(csv), now) == (set n | n in ParseNames(csv))
  {
  }

  /** Deleting a definition leaves its cached value readable; ingesting it again is refused. */
  lemma OrphanSurvivesDelete(entries: map<string, Entry>, catalog: Catalog, entityId: string, name: string,
                             v: Value, now: int, later: int)
    requires AllDecodable(entries)
    requires Delete(catalog, name).Ok?
    requires Key(entityId, name) in entries && Live(entries[Key(entityId, name)], later)
    requires entries[Key(entityId, name)].text == Encode(v)
    ensures var o := IngestAll(entries, Delete(catalog, name).value, entityId, [FeatureValue(name, v)], now);
      && o == Outcome(entries, Some(NotRegistered(name)))
      && ReadFeature(o.entries, Key(entityId, name), later) == v
  {
    DeletedFeatureIsRefused(entries, catalog, name, entityId, v, now);
    ReadStoredValue(entries, Key(entityId, name), later, v);
  }
}
