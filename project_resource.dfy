/** `ProjectResource.dehydrate`: adds the project's documentation host to its serialized form. */
module ProjectResource {
  import opened Models

  /** A serialized object: the row and the dictionary being built from it. */
  datatype Bundle<P> = Bundle(obj: Project<P>, data: map<string, Value<P>>)

  /** `"http://%s/" % subdomain`. */
  function SubdomainUrl(subdomain: string): (url: string)
    ensures |url| == |subdomain| + 8
    ensures url[..7] == "http://" && url[|url| - 1] == '/'
    ensures url[7..|url| - 1] == subdomain
  {
    "http://" + subdomain + "/"
  }

  /** `dehydrate`: sets `subdomain` in the bundle's data and leaves the row and
      every other key as they were. */
  function Dehydrate<P>(bundle: Bundle<P>): (r: Bundle<P>)
    ensures r.obj == bundle.obj
    ensures r.data.Keys == bundle.data.Keys + {"subdomain"}
    ensures r.data["subdomain"] == Str(SubdomainUrl(bundle.obj.subdomain))
    ensures forall k :: k in bundle.data && k != "subdomain" ==> r.data[k] == bundle.data[k]
  {
    Bundle(bundle.obj, bundle.data["subdomain" := Str(SubdomainUrl(bundle.obj.subdomain))])
  }

  /** The URL determines the subdomain it was built from. */
  lemma SubdomainUrlInjective(a: string, b: string)
    requires SubdomainUrl(a) == SubdomainUrl(b)
    ensures a == b
  {
    assert a == SubdomainUrl(a)[7..|SubdomainUrl(a)| - 1];
  }
}
