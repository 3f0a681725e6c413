/**
 * The cache key scheme: a feature value of an entity lives under
 * `entity_id + ":" + feature_name`, and wildcard discovery reads the feature
 * name back as everything after the FIRST colon of the key. Nothing escapes or
 * rejects a colon inside the entity id, so the inverse only holds for entity ids
 * without one; the lemmas at the end show what goes wrong otherwise.
 */
module KeyScheme {
  import opened Text

  const Separator: char := ':'

  /** The pattern the wildcard scan uses, `entity_id + ":*"`, without its `*`. */
  function EntityPrefix(entityId: string): (p: string)
    ensures |p| == |entityId| + 1 && HasPrefix(entityId, p) && p[|entityId|] == Separator
  {
    entityId + [Separator]
  }

  function Key(entityId: string, featureName: string): (key: string)
    ensures HasPrefix(EntityPrefix(entityId), key)
    ensures Separator in key
  {
    var key := EntityPrefix(entityId) + featureName;
    assert key[|entityId|] == Separator;
    key
  }

  /** `key.split(":", 1)[1]`; without a colon the split has no second piece. */
  function FeatureSuffix(key: string): (r: string)
    requires Separator in key
    ensures |r| < |key|
    ensures key == EntityPart(key) + [Separator] + r
  {
    var i := IndexOf(key, Separator);
    assert key == key[..i] + [key[i]] + key[i + 1..];
    key[i + 1..]
  }

  /** `key.split(":", 1)[0]`: everything before the first colon, or the whole key without one. */
  function EntityPart(key: string): (r: string)
    ensures HasPrefix(r, key) && Separator !in r
    ensures Separator !in key ==> r == key
  {
    key[..IndexOf(key, Separator)]
  }

  /** Every key carrying the prefix of an entity has a colon to split at. */
  lemma PrefixedKeyHasSeparator(entityId: string, key: string)
    requires HasPrefix(EntityPrefix(entityId), key)
    ensures Separator in key
  {
    assert key[|entityId|] == EntityPrefix(entityId)[|entityId|];
  }

  /** Splitting a key built from a colon-free entity id gives back both parts. */
  lemma SplitKey(entityId: string, featureName: string)
    requires Separator !in entityId
    ensures EntityPart(Key(entityId, featureName)) == entityId
    ensures FeatureSuffix(Key(entityId, featureName)) == featureName
  {
    IndexOfPrefixed(entityId, [Separator] + featureName, Separator);
    assert Key(entityId, featureName) == entityId + ([Separator] + featureName);
  }

  /** Every key with a colon is the key of its two split parts. */
  lemma JoinSplit(key: string)
    requires Separator in key
    ensures Separator !in EntityPart(key)
    ensures Key(EntityPart(key), FeatureSuffix(key)) == key
  {
    var i := IndexOf(key, Separator);
    assert key == key[..i] + [key[i]] + key[i + 1..];
  }

  /** For a colon-free entity id, a key under its prefix is its key for the text after the first colon. */
  lemma PrefixedKey(entityId: string, key: string)
    requires Separator !in entityId
    requires HasPrefix(EntityPrefix(entityId), key)
    ensures Separator in key
    ensures key == Key(entityId, FeatureSuffix(key))
  {
    var n := |entityId|;
    assert key == entityId + key[n..];
    IndexOfPrefixed(entityId, key[n..], Separator);
    assert key[n] == Separator;
  }

  /** With colon-free entity ids, distinct (entity, feature) pairs get distinct keys. */
  lemma KeyInjective(e1: string, f1: string, e2: string, f2: string)
    requires Separator !in e1 && Separator !in e2
    requires Key(e1, f1) == Key(e2, f2)
    ensures e1 == e2 && f1 == f2
  {
    SplitKey(e1, f1);
    SplitKey(e2, f2);
  }

  /** Within one entity the keys never collide, whatever the entity id holds. */
  lemma KeyInjectiveForEntity(entityId: string, f1: string, f2: string)
    requires Key(entityId, f1) == Key(entityId, f2)
    ensures f1 == f2
  {
    var n := |EntityPrefix(entityId)|;
    assert f1 == Key(entityId, f1)[n..];
    assert f2 == Key(entityId, f2)[n..];
  }

  /** A colon in the entity id lets two different pairs share one key. */
  lemma ColonCollision()
    ensures ("a:b", "c") != ("a", "b:c")
    ensures Key("a:b", "c") == Key("a", "b:c")
  {
  }

  /**
   * A colon in the entity id makes the split return the wrong feature name, and
   * looking that name up again builds a key that was never written.
   */
  lemma ColonEntityMisreadsKey()
    ensures FeatureSuffix(Key("a:b", "c")) == "b:c"
    ensures Key("a:b", FeatureSuffix(Key("a:b", "c"))) != Key("a:b", "c")
  {
    var key := Key("a:b", "c");
    assert key == "a:b:c";
    assert IndexOf(key, Separator) == 1 by {
      assert key[0] == 'a' && key[1] == Separator;
    }
    assert Key("a:b", "b:c") == "a:b:b:c";
  }
}
