/**
  The domain records the API reads (a project and its versions), the values a
  response dictionary holds, and the exceptions the resource methods let
  escape. `P` is the abstract type of parsed version numbers.
  */
module Models {
  import opened Wrappers
  import Orm

  /** A version row. `parsed` is what `mkversion` yields for it when that
      result is truthy; `None` stands for every falsy result (`None`, as for a
      slug that is not a version number, or any other value that fails
      `if base_ver:`). `url` is its `get_absolute_url()`. */
  datatype Version<P> = Version(pk: int, slug: string, active: bool, url: string, parsed: Option<P>)

  /** A project row with its related versions (`project.versions`). */
  datatype Project<P> = Project(pk: int, slug: string, subdomain: string, versions: seq<Version<P>>)

  /** Exceptions that leave a resource method: `Http404` from `get_object_or_404`,
      and the two that `QuerySet.get` raises. */
  datatype ApiError = Http404 | DoesNotExist | MultipleObjectsReturned

  /** A value stored in a response dictionary or a bundle's data. */
  datatype Value<P> =
    | Null
    | Bool(b: bool)
    | Str(s: string)
    | VersionObj(version: Version<P>)
    | Parsed(parsed: P)
    | Tuple(items: seq<Value<P>>)

  function ProjectSlug<P>(p: Project<P>): string { p.slug }

  function VersionSlug<P>(v: Version<P>): string { v.slug }

  /** `get_object_or_404(Project, slug=...)`. */
  function GetProject<P>(projects: seq<Project<P>>, slug: string): (r: Result<Project<P>, ApiError>)
    ensures r == Failure(Http404) <==> forall i :: 0 <= i < |projects| ==> projects[i].slug != slug
    ensures r.Success? ==> exists i :: 0 <= i < |projects| && projects[i] == r.value && r.value.slug == slug
    ensures r.Success? ==>
      forall i, j :: 0 <= i < j < |projects| ==> !(projects[i].slug == slug && projects[j].slug == slug)
    ensures r.Failure? && r.error != Http404 ==> r.error == MultipleObjectsReturned
    ensures r == Failure(MultipleObjectsReturned) ==>
      exists i, j :: 0 <= i < j < |projects| && projects[i].slug == slug && projects[j].slug == slug
  {
    match Orm.Get(projects, ProjectSlug, slug)
    case Found(p) => Success(p)
    case DoesNotExist => Failure(Http404)
    case MultipleObjectsReturned => Failure(MultipleObjectsReturned)
  }

  /** `project.versions.get(slug=...)`. */
  function GetVersion<P>(versions: seq<Version<P>>, slug: string): (r: Orm.Lookup<Version<P>>)
    ensures r.DoesNotExist? <==> forall i :: 0 <= i < |versions| ==> versions[i].slug != slug
    ensures r.Found? ==> exists i :: 0 <= i < |versions| && versions[i] == r.value && r.value.slug == slug
    ensures r.Found? ==>
      forall i, j :: 0 <= i < j < |versions| ==> !(versions[i].slug == slug && versions[j].slug == slug)
    ensures r.MultipleObjectsReturned? ==>
      exists i, j :: 0 <= i < j < |versions| && versions[i].slug == slug && versions[j].slug == slug
  {
    Orm.Get(versions, VersionSlug, slug)
  }

  /** `project.versions.filter(active=True)`, in the order of `project.versions`. */
  function ActiveVersions<P>(versions: seq<Version<P>>): (r: seq<Version<P>>)
    ensures |r| <= |versions|
    ensures forall i :: 0 <= i < |r| ==> r[i].active && r[i] in versions
    ensures forall i :: 0 <= i < |versions| && versions[i].active ==> versions[i] in r
  {
    if versions == [] then []
    else if versions[0].active then [versions[0]] + ActiveVersions(versions[1..])
    else ActiveVersions(versions[1..])
  }

  /** Filtering distributes over concatenation: the active versions come out
      in the order of `project.versions` and none is dropped or invented. */
  lemma {:induction false} ActiveVersionsAppend<P>(a: seq<Version<P>>, b: seq<Version<P>>)
    ensures ActiveVersions(a + b) == ActiveVersions(a) + ActiveVersions(b)
  {
    if a == [] {
      assert a + b == b;
    } else {
      assert (a + b)[1..] == a[1..] + b;
      ActiveVersionsAppend(a[1..], b);
    }
  }
}
