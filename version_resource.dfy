/**
  `VersionResource`: the highest-version comparison behind
  `/version/<project>/highest/[<base>/]` and the build trigger behind
  `/version/<project>/<version>/build`.

  `highest_version` and the ordering of parsed versions belong to a module the
  model does not see; they are parameters: `highestVersion` maps a list of
  versions to a (version, parsed version) pair, and `ge` is `>=` on parsed
  versions.
  */
module VersionResource {
  import opened Wrappers
  import opened Models
  import Orm
  import opened Tasks

  /** What `highest_version` returns: the winning version and its parsed number. */
  type Highest<P> = (Option<Version<P>>, Option<P>)

  /** `base and base != 'latest'`: only a non-empty slug other than the sentinel is compared. */
  predicate BaseCompared(base: Option<string>): (compared: bool)
    ensures !compared <==> base == None || base == Some("") || base == Some("latest")
  {
    base.Some? && base.value != "" && base.value != "latest"
  }

  /** The fail-open decision in one formula: the base is reported as behind
      only when it names exactly one version of the project, that version has a
      parsed number, a highest parsed number exists and the base's number is
      not `>=` it. */
  ghost predicate IsHighest<P>(versions: seq<Version<P>>, base: Option<string>, highestParsed: Option<P>, ge: (P, P) -> bool)
  {
    !(&& BaseCompared(base)
      && GetVersion(versions, base.value).Found?
      && GetVersion(versions, base.value).value.parsed.Some?
      && highestParsed.Some?
      && !ge(GetVersion(versions, base.value).value.parsed.value, highestParsed.value))
  }

  /** The keys of the comparison record: `url` and `slug` only when a highest version exists. */
  function ResultKeys(hasHighest: bool): (keys: set<string>)
    ensures "project" in keys && "version" in keys && "is_highest" in keys
    ensures ("url" in keys <==> hasHighest) && ("slug" in keys <==> hasHighest)
    ensures |keys| == if hasHighest then 5 else 3
  {
    if hasHighest then {"project", "version", "is_highest", "url", "slug"}
    else {"project", "version", "is_highest"}
  }

  function VersionValue<P>(v: Option<Version<P>>): Value<P>
  {
    if v.Some? then VersionObj(v.value) else Null
  }

  function ParsedValue<P>(p: Option<P>): Value<P>
  {
    if p.Some? then Parsed(p.value) else Null
  }

  /** `version_compare`. */
  method VersionCompare<P>(
    projects: seq<Project<P>>, projectSlug: string, base: Option<string>,
    highestVersion: seq<Version<P>> -> Highest<P>, ge: (P, P) -> bool)
    returns (r: Result<map<string, Value<P>>, ApiError>)
    // the project itself must be found: the only failure of the lookup that escapes
    ensures GetProject(projects, projectSlug).Failure? ==>
      r == Failure(GetProject(projects, projectSlug).error)
    ensures GetProject(projects, projectSlug).Success? ==>
      var project := GetProject(projects, projectSlug).value;
      // only an ambiguous base slug escapes; a missing one is absorbed
      && (r.Failure? <==> BaseCompared(base) && GetVersion(project.versions, base.value).MultipleObjectsReturned?)
      && (r.Failure? ==> r.error == MultipleObjectsReturned)
    ensures r.Success? ==>
      var project := GetProject(projects, projectSlug).value;
      var highest := highestVersion(ActiveVersions(project.versions));
      && GetProject(projects, projectSlug).Success?
      && r.value.Keys == ResultKeys(highest.0.Some?)
      && r.value["project"] == VersionValue(highest.0)
      && r.value["version"] == ParsedValue(highest.1)
      && r.value["is_highest"] == Bool(IsHighest(project.versions, base, highest.1, ge))
      // the trailing comma stores the slug as a one-element tuple
      && (highest.0.Some? ==>
            r.value["url"] == Str(highest.0.value.url)
            && r.value["slug"] == Tuple([Str(highest.0.value.slug)]))
  {
    var found := GetProject(projects, projectSlug);
    if found.Failure? {
      return Failure(found.error);
    }
    var project := found.value;
    var highest := highestVersion(ActiveVersions(project.versions));
    var retVal: map<string, Value<P>> := map[
      "project" := VersionValue(highest.0),
      "version" := ParsedValue(highest.1),
      "is_highest" := Bool(true)];
    if highest.0.Some? {
      retVal := retVal["url" := Str(highest.0.value.url)];
      retVal := retVal["slug" := Tuple([Str(highest.0.value.slug)])];
    }
    assert retVal.Keys == ResultKeys(highest.0.Some?);
    if base.Some? && base.value != "" && base.value != "latest" {
      match GetVersion(project.versions, base.value)
      case MultipleObjectsReturned =>
        return Failure(MultipleObjectsReturned);
      case DoesNotExist =>
        retVal := retVal["is_highest" := Bool(true)];
      case Found(verObj) =>
        // `mkversion(ver_obj)`: the parse recorded on the version, `None` when falsy
        var baseVer := verObj.parsed;
        if baseVer.Some? {
          if highest.1.None? {
            // `base_ver >= None` raises the `TypeError` the `except` clause absorbs
            retVal := retVal["is_highest" := Bool(true)];
          } else {
            retVal := retVal["is_highest" := Bool(ge(baseVer.value, highest.1.value))];
          }
        } else {
          retVal := retVal["is_highest" := Bool(true)];
        }
    }
    return Success(retVal);
  }

  /** A base that is absent, empty or `latest` is never looked up: the answer
      is `True` whatever versions the project has. */
  lemma UncomparedBaseIgnoresVersions<P>(
    versions: seq<Version<P>>, other: seq<Version<P>>, base: Option<string>, highestParsed: Option<P>, ge: (P, P) -> bool)
    requires !BaseCompared(base)
    ensures IsHighest(versions, base, highestParsed, ge)
    ensures IsHighest(versions, base, highestParsed, ge) == IsHighest(other, base, highestParsed, ge)
  {
  }

  /** A base that names no version of the project never makes the record say "behind". */
  lemma MissingBaseIsHighest<P>(versions: seq<Version<P>>, base: string, highestParsed: Option<P>, ge: (P, P) -> bool)
    requires forall i :: 0 <= i < |versions| ==> versions[i].slug != base
    ensures IsHighest(versions, Some(base), highestParsed, ge)
  {
  }

  /** With a reflexive `>=`, the highest version compared with itself is the highest. */
  lemma HighestComparedWithItself<P>(versions: seq<Version<P>>, highest: Version<P>, ge: (P, P) -> bool)
    requires forall x :: ge(x, x)
    requires highest in versions && highest.parsed.Some? && BaseCompared(Some(highest.slug))
    ensures IsHighest(versions, Some(highest.slug), highest.parsed, ge)
  {
  }

  /** When `highestVersion` really returns the maximum of the active parsed
      numbers, an active base version with a parsed number is reported as
      highest exactly when it ties with that maximum. */
  lemma ActiveBaseAgainstMaximum<P>(
    versions: seq<Version<P>>, i: nat, highestParsed: P, ge: (P, P) -> bool)
    requires i < |versions| && versions[i].active && versions[i].parsed.Some?
    requires BaseCompared(Some(versions[i].slug)) && GetVersion(versions, versions[i].slug).Found?
    requires forall v :: v in ActiveVersions(versions) && v.parsed.Some? ==> ge(highestParsed, v.parsed.value)
    ensures IsHighest(versions, Some(versions[i].slug), Some(highestParsed), ge) <==>
      ge(versions[i].parsed.value, highestParsed) && ge(highestParsed, versions[i].parsed.value)
  {
  }

  // ---------------------------------------------------------------------------
  // build_version

  /** `kwargs.get('version_slug', 'latest')`. */
  function BuildSlug(versionSlug: Option<string>): (slug: string)
    ensures versionSlug.Some? ==> slug == versionSlug.value
    ensures versionSlug.None? ==> slug == "latest"
  {
    versionSlug.GetOr("latest")
  }

  /** The job `build_version` enqueues, or the exception that stops it first. */
  function BuildTarget<P>(projects: seq<Project<P>>, projectSlug: string, versionSlug: Option<string>): (r: Result<UpdateDocs, ApiError>)
    ensures r == Failure(Http404) <==> forall i :: 0 <= i < |projects| ==> projects[i].slug != projectSlug
    ensures r.Success? ==>
      exists i, j :: 0 <= i < |projects| && projects[i].slug == projectSlug
        && 0 <= j < |projects[i].versions| && projects[i].versions[j].slug == BuildSlug(versionSlug)
        && r.value == UpdateDocs(projects[i].pk, projects[i].versions[j].pk)
    ensures GetProject(projects, projectSlug).Failure? ==> r == Failure(GetProject(projects, projectSlug).error)
    ensures GetProject(projects, projectSlug).Success? ==>
      var p := GetProject(projects, projectSlug).value;
      && (r == Failure(DoesNotExist) <==>
            forall j :: 0 <= j < |p.versions| ==> p.versions[j].slug != BuildSlug(versionSlug))
      && (r.Success? <==> GetVersion(p.versions, BuildSlug(versionSlug)).Found?)
      && (r.Success? ==> r.value == UpdateDocs(p.pk, GetVersion(p.versions, BuildSlug(versionSlug)).value.pk))
      && (r == Failure(MultipleObjectsReturned) <==>
            GetVersion(p.versions, BuildSlug(versionSlug)).MultipleObjectsReturned?)
  {
    match GetProject(projects, projectSlug)
    case Failure(e) => Failure(e)
    case Success(project) =>
      match GetVersion(project.versions, BuildSlug(versionSlug))
      case Found(v) => Success(UpdateDocs(project.pk, v.pk))
      case DoesNotExist => Failure(DoesNotExist)
      case MultipleObjectsReturned => Failure(MultipleObjectsReturned)
  }

  /** `build_version`: the version lookup must succeed before anything is
      enqueued; on success exactly one job is appended and the response is
      `{'building': True}`. */
  method BuildVersion<P>(projects: seq<Project<P>>, projectSlug: string, versionSlug: Option<string>, queue: TaskQueue)
    returns (r: Result<map<string, Value<P>>, ApiError>)
    modifies queue
    ensures r.Success? <==> BuildTarget(projects, projectSlug, versionSlug).Success?
    ensures r.Success? ==> r.value == map["building" := Bool(true)]
    ensures r.Failure? ==> r.error == BuildTarget(projects, projectSlug, versionSlug).error
    ensures queue.enqueued == old(queue.enqueued) +
      (if r.Success? then [BuildTarget(projects, projectSlug, versionSlug).value] else [])
  {
    var found := GetProject(projects, projectSlug);
    if found.Failure? {
      return Failure(found.error);
    }
    var project := found.value;
    var version := BuildSlug(versionSlug);
    match GetVersion(project.versions, version)
    case DoesNotExist =>
      return Failure(DoesNotExist);
    case MultipleObjectsReturned =>
      return Failure(MultipleObjectsReturned);
    case Found(versionObj) =>
      queue.Delay(project.pk, versionObj.pk);
      return Success(map["building" := Bool(true)]);
  }

  /** Without a version slug the build is for `latest`. */
  lemma BuildDefaultsToLatest<P>(projects: seq<Project<P>>, projectSlug: string)
    ensures BuildTarget(projects, projectSlug, None) == BuildTarget(projects, projectSlug, Some("latest"))
  {
  }
}
