# Online feature cache protocol, modelled in Dafny

This project models the online cache layer of a real-time feature store: how
the serving API writes feature values into a key-value engine and reads them
back. The catalog of feature definitions is a map from feature name to its
`ttl_seconds`. The engine is a map from key to an encoded value and an optional
absolute expiry. The clock is an explicit `now`, in seconds, passed to every
operation.

Modules, leaf first:

- `Wrappers`: `Option` and `Result`.
- `Text`: prefixes and the first index of a character.
- `Codec`: the tagged feature value (null, bool, int, float, string, list) and
  a JSON-like text codec standing in for `json.dumps` / `json.loads`. The
  round trip `Decode(Encode(v)) == Some(v)` is proved, not assumed.
- `KeyScheme`: `entity_id + ":" + feature_name` and the split at the first
  colon used by wildcard discovery.
- `NameList`: `[f.strip() for f in feature_names.split(",")]`.
- `OnlineStore`: class `Store` over a map field, with SET, SETEX, GET and a
  prefix KEYS scan.
- `FeatureCatalog`: the name to time-to-live map and deletion of a definition.
- `Ingestion`: `ingest_features` as a method with a loop, proved against the
  function `IngestAll`, plus lemmas about `IngestAll`.
- `Retrieval`: `get_online_features` and `get_entity_features` as methods,
  proved against the function `FeatureMap`, plus lemmas about reads.

The model keeps these behaviours of the code as written:

- Colons in entity ids are neither rejected nor escaped. Keys can collide, and
  wildcard discovery misreads the keys of such entities (`ColonCollision`,
  `ColonEntityMisreadsKey`, `WildcardAcrossColonEntities`).
- A stored null and a missing key give the same null in a response
  (`StoredNullLooksMissing`).
- The time-to-live is judged by Python truthiness. A `ttl_seconds` of 0 means no
  expiry. A negative one counts as true and is then refused by SETEX, which
  is an error (`InvalidExpireTime`).
- A failing ingestion keeps the writes made before the failing feature.

## Model

| member | source | states |
|---|---|---|
| `Codec.RoundTrip` | src/api/router.py:80 | decoding the stored text of any value gives back exactly that value |
| `Codec.EncodeInjective` | src/api/router.py:80 | different values are never stored as the same text |
| `Codec.Encode` | src/api/router.py:80 | stored text is never empty, so the `if value:` test of a read (line 111) is false only when GET found nothing |
| `Codec.Decode` | src/api/router.py:113 | decoding accepts only a text that is exactly one value, so an empty text never decodes; with `RoundTrip`, every stored text decodes to the value written |
| `KeyScheme.EntityPrefix` | src/api/router.py:138 | the wildcard pattern without its `*`: the entity id followed by exactly one colon |
| `KeyScheme.FeatureSuffix` | src/api/router.py:140 | the name read back is shorter than the key, and the key is its part before the first colon, a colon, then that name |
| `KeyScheme.EntityPart` | src/api/router.py:140 | the part of a key before its first colon is a prefix of the key without a colon, and is the whole key when there is no colon |
| `KeyScheme.Key` | src/api/router.py:77 | every key of an entity starts with the wildcard prefix `entity_id + ":"` and contains a colon |
| `KeyScheme.PrefixedKeyHasSeparator` | src/api/router.py:138-140 | every key the wildcard scan returns has a colon, so `split(":", 1)[1]` exists |
| `KeyScheme.SplitKey` | src/api/router.py:140 | for an entity id without a colon, splitting its key at the first colon gives back the entity id and the feature name |
| `KeyScheme.PrefixedKey` | src/api/router.py:138-140 | for a colon-free entity id, every key under its wildcard prefix is its key for the name after the first colon |
| `KeyScheme.JoinSplit` | src/api/router.py:140 | any key with a colon is the key of its two split parts, and the first part has no colon |
| `KeyScheme.KeyInjective` | src/api/router.py:77 | for colon-free entity ids, equal keys mean equal entity ids and equal feature names |
| `KeyScheme.KeyInjectiveForEntity` | src/api/router.py:77 | within one entity, two feature names never share a key |
| `KeyScheme.ColonCollision` | src/api/router.py:77 | entity `a:b` with feature `c` and entity `a` with feature `b:c` get the same key |
| `KeyScheme.ColonEntityMisreadsKey` | src/api/router.py:140 | for entity `a:b`, the split reads feature `c` as `b:c`, whose key was never written |
| `NameList.Strip` | src/api/router.py:135 | the result has no surrounding whitespace and is no longer than the input |
| `NameList.StripShape` | src/api/router.py:135 | the input is the removed leading whitespace, then the result, then the removed trailing whitespace |
| `NameList.StripTrimmed` | src/api/router.py:135 | stripping a name without surrounding whitespace leaves it unchanged |
| `NameList.Split` | src/api/router.py:135 | splitting always gives at least one piece, and no piece contains a comma |
| `NameList.JoinSplit` | src/api/router.py:135 | joining the pieces with commas gives back the input, empty pieces included |
| `NameList.SplitJoin` | src/api/router.py:135 | comma-free pieces joined with commas split back into the same pieces |
| `NameList.ParseNames` | src/api/router.py:135 | one name per comma-separated piece, each stripped and comma-free |
| `NameList.ParseJoined` | src/api/router.py:135 | a list of trimmed, comma-free names survives being sent as the `feature_names` parameter |
| `OnlineStore.Lookup` | src/api/router.py:109 | GET finds a value exactly when the key exists and has not expired at `now` |
| `OnlineStore.ExpiredStaysExpired` | src/api/router.py:109 | `Live`: an entry that GET no longer sees stays unseen at every later time, and one without expiry is always seen |
| `OnlineStore.LiveKeysWithPrefix` | src/api/router.py:139 | KEYS reports a key exactly when the key has the prefix and GET would find it |
| `OnlineStore.Store.Set` | src/api/router.py:86 | SET replaces the value and removes any expiry; no other key changes |
| `OnlineStore.Store.SetEx` | src/api/router.py:84 | SETEX with a positive time-to-live stores the value with expiry `now + ttl`; otherwise it fails and writes nothing |
| `OnlineStore.Store.Get` | src/api/router.py:109 | GET returns the stored text of a live key and nothing for a missing or expired key |
| `OnlineStore.Store.Keys` | src/api/router.py:139 | KEYS returns each live key with the prefix exactly once, and no other key |
| `FeatureCatalog.Delete` | src/api/router.py:44-51 | deletion fails with not-found when the feature is missing; otherwise only that definition is removed |
| `Ingestion.WriteModeFor` | src/api/router.py:83-86 | an unset time-to-live or one of 0 writes without expiry; any other value writes with that time-to-live |
| `Ingestion.EntryFor` | src/api/router.py:80-86 | the stored text decodes to the ingested value; the entry has no expiry exactly when the time-to-live is unset or 0, and otherwise expires at `now + ttl` |
| `Ingestion.IngestAll` | src/api/router.py:64-88 | the loop never removes a key; an error it reports is the refusal of a feature that is unregistered (not-registered) or registered with a negative time-to-live (refused expiry) |
| `Ingestion.Ingest` | src/api/router.py:54-94 | the store ends as `IngestAll` says and the error is the one it reports; on success, the response echoes the entity id and lists the input names in order, duplicates included |
| `Ingestion.IngestSucceedsIff` | src/api/router.py:64-86 | ingestion succeeds exactly when every feature is registered and has a time-to-live the engine accepts |
| `Ingestion.IngestStopsAtFirstFailure` | src/api/router.py:64-74 | a failure at feature i names that feature, keeps exactly the writes of features 0..i-1 and writes nothing after it |
| `Ingestion.IngestLeavesOtherKeys` | src/api/router.py:77-86 | a key that none of the request's features maps to is unchanged, both whether it exists and what it holds |
| `Ingestion.IngestLastWriteWins` | src/api/router.py:77-86 | after success, a feature's key holds the encoded value and expiry of that feature's last occurrence in the request |
| `Ingestion.IngestKeepsDecodable` | src/api/router.py:80-86 | ingestion stores only codec output, so every stored text still decodes |
| `Ingestion.WriteFeature` | src/api/router.py:66-86 | an unregistered name or a negative time-to-live is refused and writes nothing; otherwise the key of the feature, and only it, gets the encoded value with the expiry the time-to-live gives; either way the store then agrees with `IngestAll` for the remaining features |
| `Ingestion.WriteKeepsDecodable` | src/api/router.py:80 | writing the encoding of a value keeps every stored text decodable |
| `Ingestion.DeletedFeatureIsRefused` | src/api/router.py:66-74 | after a definition is deleted, ingesting that name fails with not-registered and changes nothing |
| `Retrieval.ReadFeature` | src/api/router.py:109-115 | a missing or expired key reads as null; a live key reads as the decoding of its stored text |
| `Retrieval.FeatureMap` | src/api/router.py:105-116 | the per-entity result has exactly the requested names as keys, each mapped to what its key reads |
| `Retrieval.LookupFeatures` | src/api/router.py:142-150 | the per-name loop builds the `FeatureMap` of the names and does not modify the store |
| `Retrieval.GetOnlineFeatures` | src/api/router.py:97-122 | one response per requested entity id, in order, duplicates included, each the `FeatureMap` of the shared names; the store is not modified |
| `Retrieval.DiscoveredNames` | src/api/router.py:138-140 | for a colon-free entity id, the wildcard discovers a name exactly when GET finds its key |
| `Retrieval.RequestedNames` | src/api/router.py:134-140 | a non-empty `feature_names` gives trimmed, comma-free names; otherwise the discovered names, which for a colon-free entity id are exactly the names whose keys GET finds |
| `Retrieval.SuffixesOf` | src/api/router.py:140 | one name per key, in order, and each key is the key of its entity part and that name |
| `Retrieval.GetEntityFeatures` | src/api/router.py:125-155 | echoes the entity id; answers exactly the requested names, which are the parsed `feature_names` when given and non-empty and the discovered names otherwise |
| `Retrieval.ReadStoredValue` | src/api/router.py:111-113 | a live key holding the encoding of a value reads as that value |
| `Retrieval.StoredNullLooksMissing` | src/api/router.py:111-115 | a stored null reads the same as the key being absent, both giving null |
| `Retrieval.ReadAfterIngest` | src/api/router.py:83-86 | after ingestion, the last value given for a feature is read before `now + ttl` and null from then on; with no time-to-live or a 0 one it is always read |
| `Retrieval.WildcardAcrossColonEntities` | src/api/router.py:138-148 | a wildcard on `a` picks up the entry of entity `a:b`; a wildcard on `a:b` reads its own feature as `b:c` and returns null |
| `Retrieval.SingleMatchesBatch` | src/api/router.py:134-150 | for names that survive the comma-separated form, single-entity retrieval gives the same features as batch retrieval |
| `Retrieval.OrphanSurvivesDelete` | src/api/router.py:44-51 | after a definition is deleted, its cached value is still read, and ingesting the name again is refused without writing |

## Left out

- `register_feature` and `get_features`: relational persistence of the catalog. Only the name to `ttl_seconds` map is modelled. Registration checks duplicates by `id`, not by `name` (src/api/router.py:21); name uniqueness comes from the database constraint (src/models.py:11).
- `delete_feature` looks a definition up by numeric id. The model deletes by name, since names are unique and the cache never sees ids.
- The other definition fields, such as data type, statistics, tags and timestamps, are not used by the cache logic.
- The process-wide engine connection, its timeouts, connection failures and concurrent requests are not modelled. Every operation runs alone and in sequence. KEYS and the GETs that follow it read the same state.
- The engine stores only codec output (`Store.Valid`). Text written by other clients, whose decoding would fail with a server error, is not modelled.
- KEYS glob patterns are treated as plain prefixes. Entity ids containing `*`, `?`, `[` or `\` are not modelled.
- `Codec.Encode` is a JSON-like stand-in, not byte-for-byte `json.dumps`. It escapes only `"` and `\`. JSON objects are not modelled. A float is kept as a decimal mantissa and exponent without numeric meaning, so `Float(15, -1)` and `Float(150, -2)` are different values although they are numerically equal. The decimal-point form such as `1.5`, NaN and Infinity are not modelled.
- The feature map of a response is a Dafny `map`, so the insertion order of the Python dict is not kept.
- Expiry is kept in whole seconds; the engine's millisecond precision is not modelled.
- HTTP status codes are not modelled as values. Not-registered answers 404 and a refused SETEX answers 500.
- Request validation by the web framework and the startup code (src/main.py, src/database.py), the engine client (src/redis_client.py) and benchmark.py are not part of this model.
