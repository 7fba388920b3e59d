/** Address of a service's metadata document (`GetModel`). */
module MetadataAddress {

  const MetadataSuffix := "/$metadata"

  predicate EndsWithSlash(uri: string) {
    |uri| > 0 && uri[|uri| - 1] == '/'
  }

  /** The service URI with `$metadata` appended, adding a separating slash only
      when the URI does not already end with one. */
  function MetadataUri(uri: string): (r: string)
    ensures |r| >= |uri| && r[..|uri|] == uri
    ensures |r| >= |MetadataSuffix| && r[|r| - |MetadataSuffix|..] == MetadataSuffix
    ensures |r| == |uri| + (if EndsWithSlash(uri) then |MetadataSuffix| - 1 else |MetadataSuffix|)
  {
    if EndsWithSlash(uri) then uri + "$metadata" else uri + "/$metadata"
  }

  /** A service URI and the same URI with a trailing slash name the same
      metadata document. */
  lemma TrailingSlashIrrelevant(uri: string)
    requires !EndsWithSlash(uri)
    ensures MetadataUri(uri + "/") == MetadataUri(uri)
  {
    assert EndsWithSlash(uri + "/");
  }

  /** Dropping `$metadata` from the result gives the service URI, with a slash
      added only when it had none. */
  lemma ServiceRootRecovered(uri: string)
    ensures var r := MetadataUri(uri);
      r[..|r| - |"$metadata"|] == (if EndsWithSlash(uri) then uri else uri + "/")
  {
  }
}
