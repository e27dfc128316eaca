/** The progress record both scripts keep between runs: `{"completed": [...], "failed": [...]}`. */
module ProgressFile {

  /** A value view of the two progress lists. */
  datatype Lists = Lists(completed: seq<string>, failed: seq<string>)

  predicate NoDuplicates(xs: seq<string>) {
    forall i, j :: 0 <= i < j < |xs| ==> xs[i] != xs[j]
  }

  /** `if x not in xs: xs.append(x)` */
  function AppendIfAbsent(xs: seq<string>, x: string): (r: seq<string>)
    ensures xs <= r && x in r && |r| <= |xs| + 1
    ensures x in xs ==> r == xs
    ensures forall y :: y in r <==> y in xs || y == x
    ensures NoDuplicates(xs) ==> NoDuplicates(r)
  {
    if x in xs then xs else xs + [x]
  }

  /** The `progress` dictionary, whose two lists the scripts append to in place. */
  class Progress {
    var completed: seq<string>
    var failed: seq<string>

    function State(): Lists
      reads this
    {
      Lists(completed, failed)
    }

    /** The progress as loaded from the progress file (or fresh and empty). */
    constructor (loaded: Lists)
      ensures State() == loaded
    {
      completed := loaded.completed;
      failed := loaded.failed;
    }

    /** `progress["completed"].append(name)` */
    method MarkCompleted(name: string)
      modifies this
      ensures completed == old(completed) + [name]
      ensures failed == old(failed)
    {
      completed := completed + [name];
    }

    /** `progress["failed"].append(name)`, with no membership check. */
    method MarkFailed(name: string)
      modifies this
      ensures failed == old(failed) + [name]
      ensures completed == old(completed)
    {
      failed := failed + [name];
    }

    /** `if name not in progress["failed"]: progress["failed"].append(name)` */
    method MarkFailedIfAbsent(name: string)
      modifies this
      ensures failed == AppendIfAbsent(old(failed), name)
      ensures completed == old(completed)
    {
      if name !in failed {
        failed := failed + [name];
      }
    }
  }
}
