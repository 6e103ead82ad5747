/** The background task queue: `tasks.update_docs.delay(...)` records a job and returns. */
module Tasks {

  /** One `update_docs` job, keyed by the project's and the version's primary keys. */
  datatype UpdateDocs = UpdateDocs(pk: int, versionPk: int)

  class TaskQueue {
    /** Jobs in the order they were enqueued. */
    var enqueued: seq<UpdateDocs>

    constructor ()
      ensures enqueued == []
    {
      enqueued := [];
    }

    /** `update_docs.delay(pk=..., version_pk=...)`: fire and forget. */
    method Delay(pk: int, versionPk: int)
      modifies this
      ensures enqueued == old(enqueued) + [UpdateDocs(pk, versionPk)]
    {
      enqueued := enqueued + [UpdateDocs(pk, versionPk)];
    }
  }
}
