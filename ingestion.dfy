/**
 * The ingestion gateway (POST /features/ingest). Features are written one by one
 * in request order; the first name the catalog does not know stops the request
 * with 404 and nothing written before it is undone.
 */
module Ingestion {
  import opened Wrappers
  import opened Codec
  import opened KeyScheme
  import opened OnlineStore
  import opened FeatureCatalog

  datatype FeatureValue = FeatureValue(featureName: string, value: Value)

  datatype IngestRequest = IngestRequest(entityId: string, features: seq<FeatureValue>)

  datatype IngestResponse = IngestResponse(entityId: string, features: seq<string>)

  /**
   * Why an ingestion stopped: a name missing from the catalog (answered with 404),
   * or a negative time-to-live that passed the truthiness test and was then
   * refused by SETEX (answered with 500).
   */
  datatype IngestError = NotRegistered(featureName: string) | InvalidExpireTime(featureName: string)

  /** How a feature's value is written, decided by `if feature_def.ttl_seconds:`. */
  datatype WriteMode = Persist | ExpireAfter(seconds: int)

  /** Python truthiness: an unset time-to-live and a time-to-live of 0 both mean no expiry. */
  function WriteModeFor(ttl: Option<int>): (mode: WriteMode)
    ensures mode.Persist? <==> ttl == None || ttl == Some(0)
    ensures mode.ExpireAfter? ==> ttl == Some(mode.seconds) && mode.seconds != 0
  {
    if ttl.Some? && ttl.value != 0 then ExpireAfter(ttl.value) else Persist
  }

  /** A feature the loop gets past: registered, with a time-to-live the engine accepts. */
  predicate Accepted(catalog: Catalog, name: string)
  {
    name in catalog && (catalog[name] == None || catalog[name].value >= 0)
  }

  /** The error for a feature that is not accepted. */
  function Rejection(catalog: Catalog, name: string): IngestError
  {
    if name in catalog then InvalidExpireTime(name) else NotRegistered(name)
  }

  /** The entry an accepted feature leaves behind when written at `now`. */
  function EntryFor(catalog: Catalog, fv: FeatureValue, now: int): (e: Entry)
    requires fv.featureName in catalog
    ensures Decode(e.text) == Some(fv.value)
    ensures var ttl := catalog[fv.featureName];
      && (e.expiry.None? <==> ttl == None || ttl == Some(0))
      && (e.expiry.Some? ==> e.expiry.value == now + ttl.value)
  {
    RoundTrip(fv.value);
    match WriteModeFor(catalog[fv.featureName])
    case Persist => Entry(Encode(fv.value), None)
    case ExpireAfter(seconds) => Entry(Encode(fv.value), Some(now + seconds))
  }

  /** Store contents after an ingestion, and the error that stopped it if any. */
  datatype Outcome = Outcome(entries: map<string, Entry>, failure: Option<IngestError>)

  /** The whole loop: front to back, stopping at the first feature that fails. */
  function IngestAll(entries: map<string, Entry>, catalog: Catalog, entityId: string, fs: seq<FeatureValue>, now: int)
    : (o: Outcome)
    ensures entries.Keys <= o.entries.Keys
    ensures o.failure.Some? ==> var name := o.failure.value.featureName;
      !Accepted(catalog, name) && o.failure.value == Rejection(catalog, name)
    decreases |fs|
  {
    if fs == [] then Outcome(entries, None)
    else
      var name := fs[0].featureName;
      if !Accepted(catalog, name) then Outcome(entries, Some(Rejection(catalog, name)))
      else IngestAll(entries[Key(entityId, name) := EntryFor(catalog, fs[0], now)], catalog, entityId, fs[1..], now)
  }

  /**
   * `ingest_features`. On success the response echoes the entity id and lists the
   * ingested names in request order, duplicates included.
   */
  method Ingest(store: Store, catalog: Catalog, request: IngestRequest, now: int)
    returns (r: Result<IngestResponse, IngestError>)
    requires store.Valid()
    modifies store
    ensures store.Valid()
    ensures var o := IngestAll(old(store.entries), catalog, request.entityId, request.features, now);
      && store.entries == o.entries
      && (r.Err? <==> o.failure.Some?)
      && (r.Err? ==> r.error == o.failure.value)
    ensures r.Ok? ==> r.value.entityId == request.entityId
    ensures r.Ok? ==> |r.value.features| == |request.features|
    ensures r.Ok? ==> forall i :: 0 <= i < |request.features| ==> r.value.features[i] == request.features[i].featureName
  {
    var entityId, fs := request.entityId, request.features;
    ghost var target := IngestAll(store.entries, catalog, entityId, fs, now);
    var ingested: seq<string> := [];
    var i := 0;
    while i < |fs|
      invariant 0 <= i <= |fs|
      invariant store.Valid()
      invariant IngestAll(store.entries, catalog, entityId, fs[i..], now) == target
      invariant |ingested| == i
      invariant forall j :: 0 <= j < i ==> ingested[j] == fs[j].featureName
    {
      var failure := WriteFeature(store, catalog, entityId, fs[i], fs[i..], now);
      assert fs[i..][1..] == fs[i + 1..];
      if failure.Some? {
        return Err(failure.value);
      }
      ingested := ingested + [fs[i].featureName];
      i := i + 1;
    }
    r := Ok(IngestResponse(entityId, ingested));
  }

  /**
   * One turn of the loop: catalog lookup, then SET or SETEX of the encoded value.
   * As the first of the features `pending`, it leaves what the whole loop function leaves.
   */
  method WriteFeature(store: Store, catalog: Catalog, entityId: string, fv: FeatureValue,
                      ghost pending: seq<FeatureValue>, now: int)
    returns (failure: Option<IngestError>)
    requires store.Valid()
    requires pending != [] && pending[0] == fv
    modifies store
    ensures store.Valid()
    ensures failure.Some? ==>
      IngestAll(old(store.entries), catalog, entityId, pending, now) == Outcome(store.entries, failure)
    ensures failure.None? ==>
      IngestAll(old(store.entries), catalog, entityId, pending, now)
      == IngestAll(store.entries, catalog, entityId, pending[1..], now)
    ensures failure.None? <==> Accepted(catalog, fv.featureName)
    ensures failure.Some? ==> failure.value == Rejection(catalog, fv.featureName) && store.entries == old(store.entries)
    ensures failure.None? ==>
      store.entries == old(store.entries)[Key(entityId, fv.featureName) := EntryFor(catalog, fv, now)]
  {
    IngestStep(store.entries, catalog, entityId, pending, now);
    if fv.featureName !in catalog {
      return Some(NotRegistered(fv.featureName));
    }
    var key := Key(entityId, fv.featureName);
    var text := Encode(fv.value);
    var ttl := catalog[fv.featureName];
    if ttl.Some? && ttl.value != 0 {
      var ok := store.SetEx(key, ttl.value, text, now);
      if !ok {
        return Some(InvalidExpireTime(fv.featureName));
      }
    } else {
      store.Set(key, text);
    }
    WriteKeepsDecodable(old(store.entries), key, fv.value, store.entries[key].expiry);
    failure := None;
  }

  /** One unfolding of the loop function. */
  lemma IngestStep(entries: map<string, Entry>, catalog: Catalog, entityId: string, fs: seq<FeatureValue>, now: int)
    requires fs != []
    ensures !Accepted(catalog, fs[0].featureName) ==>
      IngestAll(entries, catalog, entityId, fs, now) == Outcome(entries, Some(Rejection(catalog, fs[0].featureName)))
    ensures Accepted(catalog, fs[0].featureName) ==>
      IngestAll(entries, catalog, entityId, fs, now)
      == IngestAll(entries[Key(entityId, fs[0].featureName) := EntryFor(catalog, fs[0], now)], catalog, entityId, fs[1..], now)
  {
  }

  lemma WriteKeepsDecodable(entries: map<string, Entry>, key: string, v: Value, expiry: Option<int>)
    requires AllDecodable(entries)
    ensures AllDecodable(entries[key := Entry(Encode(v), expiry)])
  {
    RoundTrip(v);
  }

  // ---------------------------------------------------------------- properties

  /** An ingestion fails exactly when one of its features is not accepted. */
  lemma {:induction false} IngestSucceedsIff(entries: map<string, Entry>, catalog: Catalog, entityId: string, fs: seq<FeatureValue>, now: int)
    ensures IngestAll(entries, catalog, entityId, fs, now).failure.None?
        <==> forall i :: 0 <= i < |fs| ==> Accepted(catalog, fs[i].featureName)
    decreases |fs|
  {
    if fs != [] && Accepted(catalog, fs[0].featureName) {
      var next := entries[Key(entityId, fs[0].featureName) := EntryFor(catalog, fs[0], now)];
      IngestSucceedsIff(next, catalog, entityId, fs[1..], now);
      assert forall i :: 1 <= i < |fs| ==> fs[i] == fs[1..][i - 1];
    }
  }

  /**
   * A failure at feature `i` keeps exactly the writes of the features before it,
   * performs none after it, and names feature `i`.
   */
  lemma {:induction false} IngestStopsAtFirstFailure(entries: map<string, Entry>, catalog: Catalog, entityId: string, fs: seq<FeatureValue>, now: int, i: nat)
    requires i < |fs|
    requires forall j :: 0 <= j < i ==> Accepted(catalog, fs[j].featureName)
    requires !Accepted(catalog, fs[i].featureName)
    ensures IngestAll(entries, catalog, entityId, fs, now)
         == Outcome(IngestAll(entries, catalog, entityId, fs[..i], now).entries, Some(Rejection(catalog, fs[i].featureName)))
    decreases i
  {
    if i > 0 {
      var next := entries[Key(entityId, fs[0].featureName) := EntryFor(catalog, fs[0], now)];
      assert fs[..i][1..] == fs[1..][..i - 1];
      IngestStopsAtFirstFailure(next, catalog, entityId, fs[1..], now, i - 1);
    }
  }

  /** A key that none of the features maps to is left as it was, present or not. */
  lemma {:induction false} IngestLeavesOtherKeys(entries: map<string, Entry>, catalog: Catalog, entityId: string, fs: seq<FeatureValue>, now: int, k: string)
    requires forall j :: 0 <= j < |fs| ==> Key(entityId, fs[j].featureName) != k
    ensures var after := IngestAll(entries, catalog, entityId, fs, now).entries;
      && (k in after <==> k in entries)
      && (k in entries ==> after[k] == entries[k])
    decreases |fs|
  {
    if fs != [] && Accepted(catalog, fs[0].featureName) {
      var next := entries[Key(entityId, fs[0].featureName) := EntryFor(catalog, fs[0], now)];
      assert forall j :: 0 <= j < |fs| - 1 ==> fs[1..][j] == fs[j + 1];
      IngestLeavesOtherKeys(next, catalog, entityId, fs[1..], now, k);
    }
  }

  /**
   * Last write wins: after a successful ingestion the key of a feature holds the
   * entry of its last occurrence in the request, value and expiry both.
   */
  lemma {:induction false} IngestLastWriteWins(entries: map<string, Entry>, catalog: Catalog, entityId: string, fs: seq<FeatureValue>, now: int, j: nat)
    requires IngestAll(entries, catalog, entityId, fs, now).failure.None?
    requires j < |fs|
    requires forall l :: j < l < |fs| ==> fs[l].featureName != fs[j].featureName
    ensures fs[j].featureName in catalog
    ensures var after := IngestAll(entries, catalog, entityId, fs, now).entries;
      && Key(entityId, fs[j].featureName) in after
      && after[Key(entityId, fs[j].featureName)] == EntryFor(catalog, fs[j], now)
    decreases |fs|
  {
    IngestSucceedsIff(entries, catalog, entityId, fs, now);
    var next := entries[Key(entityId, fs[0].featureName) := EntryFor(catalog, fs[0], now)];
    if j == 0 {
      forall l | 0 <= l < |fs| - 1
        ensures Key(entityId, fs[1..][l].featureName) != Key(entityId, fs[0].featureName)
      {
        if Key(entityId, fs[l + 1].featureName) == Key(entityId, fs[0].featureName) {
          KeyInjectiveForEntity(entityId, fs[l + 1].featureName, fs[0].featureName);
        }
      }
      IngestLeavesOtherKeys(next, catalog, entityId, fs[1..], now, Key(entityId, fs[0].featureName));
    } else {
      IngestLastWriteWins(next, catalog, entityId, fs[1..], now, j - 1);
    }
  }

  /** Ingestion stores only codec output, so every stored text still decodes. */
  lemma {:induction false} IngestKeepsDecodable(entries: map<string, Entry>, catalog: Catalog, entityId: string, fs: seq<FeatureValue>, now: int)
    requires AllDecodable(entries)
    ensures AllDecodable(IngestAll(entries, catalog, entityId, fs, now).entries)
    decreases |fs|
  {
    if fs != [] && Accepted(catalog, fs[0].featureName) {
      RoundTrip(fs[0].value);
      IngestKeepsDecodable(entries[Key(entityId, fs[0].featureName) := EntryFor(catalog, fs[0], now)], catalog, entityId, fs[1..], now);
    }
  }

  /** Deleting a definition: later ingestion of that name is refused and writes nothing. */
  lemma DeletedFeatureIsRefused(entries: map<string, Entry>, catalog: Catalog, name: string, entityId: string, v: Value, now: int)
    requires Delete(catalog, name).Ok?
    ensures IngestAll(entries, Delete(catalog, name).value, entityId, [FeatureValue(name, v)], now)
         == Outcome(entries, Some(NotRegistered(name)))
  {
  }
}
