/**
 * The feature catalog as the cache layer sees it: feature name to the
 * `ttl_seconds` column, `None` when the column is unset. Names are unique in the
 * catalog, so a name identifies a definition.
 */
module FeatureCatalog {
  import opened Wrappers

  type Catalog = map<string, Option<int>>

  datatype DeleteError = FeatureNotFound(name: string)

  /** Removes one definition; a missing one is answered with 404. */
  function Delete(catalog: Catalog, name: string): (r: Result<Catalog, DeleteError>)
    ensures r.Err? <==> name !in catalog
    ensures r.Err? ==> r.error == FeatureNotFound(name)
    ensures r.Ok? ==> name !in r.value
    ensures r.Ok? ==> forall n :: n != name ==> (n in r.value <==> n in catalog)
    ensures r.Ok? ==> forall n :: n in r.value ==> r.value[n] == catalog[n]
  {
    if name in catalog then Ok(catalog - {name}) else Err(FeatureNotFound(name))
  }
}
