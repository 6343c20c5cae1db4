/** The local index (sync journal) as far as the remote-delete job uses it: a set of file
    records that can be removed one path at a time, and a commit counter. */
module SyncJournal {

  /** p lies strictly below the directory dir. */
  predicate IsBelow(p: string, dir: string)
  {
    |dir| + 1 <= |p| && p[..|dir| + 1] == dir + "/"
  }

  /** The records left after removing the record of path and, when recursively, every
      record below it. */
  function RemoveRecord(records: set<string>, path: string, recursively: bool): (r: set<string>)
    ensures r <= records
    ensures path !in r
    ensures forall p :: p in records && p != path && !(recursively && IsBelow(p, path)) ==> p in r
    ensures recursively ==> forall p :: p in r ==> !IsBelow(p, path)
  {
    set p | p in records && p != path && !(recursively && IsBelow(p, path))
  }

  /** Without recursion, removing a record takes exactly that one path out. */
  lemma RemoveRecordFlat(records: set<string>, path: string)
    ensures RemoveRecord(records, path, false) == records - {path}
  {
  }

  class Journal {
    /** The paths that currently have a file record. */
    var records: set<string>
    /** How many transactions have been committed. */
    var commits: nat
    /** The paths whose record the database fails to delete. */
    const failing: set<string>

    constructor (records: set<string>, failing: set<string>)
      ensures this.records == records && this.failing == failing && commits == 0
    {
      this.records := records;
      this.failing := failing;
      commits := 0;
    }

    /** Removes the record of path (and, when recursively, those below it); reports false and
        changes nothing when the database fails. */
    method DeleteFileRecord(path: string, recursively: bool) returns (ok: bool)
      modifies this
      ensures ok <==> path !in failing
      ensures records == if ok then RemoveRecord(old(records), path, recursively) else old(records)
      ensures commits == old(commits)
    {
      ok := path !in failing;
      if ok {
        records := RemoveRecord(records, path, recursively);
      }
    }

    method Commit()
      modifies this
      ensures records == old(records) && commits == old(commits) + 1
    {
      commits := commits + 1;
    }
  }
}
