# Read the Docs REST API: version comparison, build trigger and anchor URLs

A Dafny model of the bespoke logic in `readthedocs/api/base.py`, the
Tastypie resources of Read the Docs' REST API:

- **`VersionResource.version_compare`** looks up a project, asks
  `highest_version` for the highest of its *active* versions, and builds a
  response dictionary `{project, version, is_highest[, url, slug]}`. With a
  base slug other than `latest` it looks that version up and sets
  `is_highest` to `base >= highest`, failing open (`is_highest = True`) when
  the base does not exist, has no parsed number, or cannot be compared. The
  slug is stored as a one-element tuple, because of a trailing comma; the
  model reproduces it.
- **`VersionResource.build_version`** looks the version up (slug `latest`
  when the route gives none) and enqueues one `update_docs` task keyed by the
  project's and the version's primary keys. (The route that reaches it
  always captures a version slug, so the `latest` default is only reached by
  other callers.)
- **`FileResource.get_anchor`** keeps the redirect keys that contain
  `http://`, splits each on `:`, drops the first six fields and joins the rest
  with no separator, so every `:` of the URL is lost (`http//host80/`).
- **`PostAuthentication.is_authenticated`** lets every `GET` through and
  hands every other method to HTTP basic authentication.
- **`ProjectResource.dehydrate`** adds `subdomain = "http://<subdomain>/"`.

Files and modules: `wrappers.dfy` (Option, Result), `orm.dfy` (the ORM's
`get(slug=...)`: one row, `DoesNotExist` or `MultipleObjectsReturned`),
`models.dfy` (projects, versions, response values), `tasks.dfy` (the task
queue, a class whose `enqueued` list `delay` appends to), `text.dfy`
(Python's `split`, `join` and `in` on strings), `version_resource.dfy`,
`file_resource.dfy`, `authentication.dfy`, `project_resource.dfy`.

Collaborators that live outside this file are parameters of the model:
`highest_version` is a function from a list of versions to a
(version, parsed number) pair; `>=` on parsed numbers is a function `ge`;
`mkversion(v)` is the `parsed` field of the version record, whose `None`
stands for every falsy result of `mkversion` (the code tests it with
`if base_ver:`), not only for `None` itself; the basic-auth
check is a function from requests to an answer; the redirect keys read from
the key-value store and the projects table are inputs; the Celery queue is a
`TaskQueue` object.

Behaviour the model takes from the code as written:
- `slug` in the comparison record is a one-element tuple, not a string (base.py:204).
- An empty base slug counts as absent, like a missing one (`if base`, base.py:205).
- `MultipleObjectsReturned` is not caught anywhere: an ambiguous project slug
  or an ambiguous base slug escapes `version_compare` (base.py:194, 207, 216).
- In `build_version` a missing version raises `Version.DoesNotExist` from
  `.get`, not the `Http404` of `get_object_or_404` (base.py:223).
- The ordering and tie-break of `highest_version` are not fixed by this file;
  the model keeps them abstract.
- `base_ver >= highest[1]` with no highest parsed number is the `TypeError`
  the `except` clause absorbs; either way the answer is `True`.

## Model

| member | source | states |
|---|---|---|
| `Orm.Get` | readthedocs/api/base.py:207 | `DoesNotExist` exactly when no row has the slug; `Found(v)` gives a row with that slug and no two rows share it; `MultipleObjectsReturned` only when two distinct rows have it |
| `Models.GetProject` | readthedocs/api/base.py:194 | `Http404` exactly when no project has the slug; success returns a project of the table with that slug, shared by no other project; the only other failure is `MultipleObjectsReturned`, and only when two projects have the slug |
| `Models.GetVersion` | readthedocs/api/base.py:207 | `project.versions.get(slug=...)`, used at :207 and :223: `DoesNotExist` exactly when no version has the slug; `Found(v)` gives a version of the project with that slug, shared by no other; `MultipleObjectsReturned` only when two versions have it |
| `Models.ActiveVersions` | readthedocs/api/base.py:195 | the result holds only active versions of the project, and every active version of the project is in it |
| `Models.ActiveVersionsAppend` | readthedocs/api/base.py:195 | filtering by `active` distributes over concatenation, so the order of `project.versions` is kept |
| `VersionResource.BaseCompared` | readthedocs/api/base.py:205 | `base and base != 'latest'` is false exactly for a missing base, the empty slug and `latest` |
| `VersionResource.ResultKeys` | readthedocs/api/base.py:197-204 | the record always has `project`, `version`, `is_highest`; it has `url` and `slug` exactly when a highest version exists |
| `VersionResource.VersionCompare` | readthedocs/api/base.py:193-218 | with no highest parsed number, `base_ver >= highest[1]` is the `TypeError` the `except` absorbs, so `is_highest` stays true; a missing project gives `Http404` and an ambiguous one `MultipleObjectsReturned`; afterwards only an ambiguous base slug escapes, and only when the base is compared; the record's keys are `ResultKeys`, `project`/`version` are the two components of `highest_version` over the active versions, `slug` is the one-element tuple of the highest slug, and `is_highest` is false only when the base names exactly one version, that version parses, a highest number exists and the base's number is not `>=` it |
| `VersionResource.UncomparedBaseIgnoresVersions` | readthedocs/api/base.py:196-205 | a base that is absent, empty or `latest` gives `is_highest = true`, whatever versions the project has |
| `VersionResource.MissingBaseIsHighest` | readthedocs/api/base.py:206-217 | a base slug that matches no version of the project yields `is_highest = true` |
| `VersionResource.HighestComparedWithItself` | readthedocs/api/base.py:209-213 | with a reflexive `>=`, comparing the highest version with itself yields `is_highest = true` (equal counts as highest) |
| `VersionResource.ActiveBaseAgainstMaximum` | readthedocs/api/base.py:195-213 | when `highest_version` returns the maximum of the active parsed numbers, an active parsable base is reported highest exactly when it ties with that maximum |
| `VersionResource.BuildSlug` | readthedocs/api/base.py:222 | the route's version slug when given, `latest` otherwise |
| `VersionResource.BuildTarget` | readthedocs/api/base.py:221-224 | a failed project lookup gives its error (`Http404` exactly when no project has the slug); for a found project, `DoesNotExist` exactly when none of its versions has the requested slug, `MultipleObjectsReturned` exactly when several do, and success exactly when one does, with the job `(project.pk, version.pk)` of that project and version |
| `VersionResource.BuildVersion` | readthedocs/api/base.py:220-225 | succeeds exactly when both lookups do; on success appends exactly that one job and answers `{'building': True}`; on failure raises the lookup's exception and leaves the queue unchanged |
| `VersionResource.BuildDefaultsToLatest` | readthedocs/api/base.py:222 | with no version slug, the build is the one for `latest` |
| `Tasks.TaskQueue.Delay` | readthedocs/api/base.py:224 | appends one `update_docs(pk, version_pk)` job and changes nothing else |
| `Text.Split` | readthedocs/api/base.py:261 | `str.split(':')` yields at least one field and no field holds the separator |
| `Text.JoinSplit` | readthedocs/api/base.py:261 | joining the fields of a split with the separator gives the string back |
| `Text.SplitJoin` | readthedocs/api/base.py:261 | splitting joined separator-free fields gives the fields back |
| `Text.ConcatSplit` | readthedocs/api/base.py:261 | `''.join(s.split(c))` is `s` with every `c` deleted |
| `Text.ConcatDropSplit` | readthedocs/api/base.py:261 | `''.join(s.split(c)[n:])` is the text after the n-th `c` with every `c` deleted |
| `Text.Contains` | readthedocs/api/base.py:261 | `t in s` holds exactly when `t` occurs at some position of `s` |
| `Text.Concat` | readthedocs/api/base.py:261 | `''.join(fields)` is empty exactly when every field is, and holds exactly the characters of the fields |
| `FileResource.AnchorUrl` | readthedocs/api/base.py:261 | the URL of a key is the text after its sixth `:` with every `:` deleted, so it holds no `:` |
| `FileResource.AnchorUrls` | readthedocs/api/base.py:259-261 | no more URLs than keys, none holding a `:` |
| `FileResource.AnchorUrlsSingle` | readthedocs/api/base.py:261 | a key yields one URL when `http://` occurs in it and none otherwise |
| `FileResource.AnchorUrlsAppend` | readthedocs/api/base.py:261 | the extraction works key by key and keeps input order |
| `FileResource.AnchorUrlOfFields` | readthedocs/api/base.py:261 | a key made of `:`-free fields yields the concatenation of its fields from the seventh on |
| `FileResource.AnchorUrlLosesColons` | readthedocs/api/base.py:260-261 | the key `redirects:v3:en:latest:docs:index:http://h:80/` yields `http//h80/` |
| `Authentication.IsAuthenticated` | readthedocs/api/base.py:63-66 | every `GET` is authenticated; any other method gets exactly the basic-auth answer |
| `ProjectResource.SubdomainUrl` | readthedocs/api/base.py:122 | the URL is `http://`, then the subdomain, then `/` |
| `ProjectResource.SubdomainUrlInjective` | readthedocs/api/base.py:122 | different subdomains give different URLs |
| `ProjectResource.Dehydrate` | readthedocs/api/base.py:121-123 | sets `subdomain` to that URL and leaves the row and every other key unchanged |

## Left out

- `_do_search` and the two `get_search` endpoints (base.py:28-60, 143-144, 250-251): search index, paginator and highlighter calls with no logic of their own.
- `EnhancedModelResource.obj_get_list` and `ProjectResource.post_list` (base.py:69-88, 125-141): ORM filtering, request deserialization and the 201 response are framework code.
- The `Meta` classes, field declarations and `override_urls` tables (base.py:91-119, 146-186, 227-248): declarative configuration and URL routing.
- The internals of `highest_version` and `mkversion` (`projects/utils` is not part of this model): both are abstract; in particular no tie-break rule is modelled.
- `VersionCompare`: a `TypeError` raised when comparing two parsed numbers is not modelled; `ge` is a total function.
- `VersionCompare` and `BuildVersion` return the response dictionary; its serialization by `create_response` and the mapping of escaping exceptions to HTTP status codes are not modelled.
- `get_anchor`'s `method_check`, `is_authenticated`, `throttle_check` and `log_throttled_access` calls (base.py:254-256, 276) and the key-value store query (base.py:258-259): the keys are an input.
- The commented-out pagination block of `get_anchor` (base.py:263-273): dead code.
- The Celery task itself: `TaskQueue` only records what was enqueued.
- `Project.subdomain` and `Version.get_absolute_url` are computed elsewhere; here they are fields of the records.
