/** What the scripts see of the filesystem and of the manifest file, given as values
    instead of read from disk, and the deletion loop both scripts run, with the
    filesystem's answer to each deletion given as an oracle.
 */
module Workspace {
  import opened Json
  import opened Seqs

  /** What a directory entry is once symbolic links are followed: `is_file()` holds
      only for `File`, `is_dir()` only for `Directory`. */
  datatype Kind = File | Directory | Other

  datatype Entry = Entry(name: string, kind: Kind)

  /** The input directory: absent, present but not a directory, a directory whose
      listing fails (no read permission, say), or a directory whose immediate
      entries are listed in scan order. */
  datatype InputDir = Missing | NotADirectory | Unlistable | Listing(entries: seq<Entry>)

  /** The manifest file: absent, present but not readable as JSON, or decoded. */
  datatype ManifestFile = Absent | Unreadable | Decoded(value: JsonValue)

  /** One deletion attempt and whether the filesystem carried it out. */
  datatype Attempt = Attempt(entry: Entry, deleted: bool)

  predicate Succeeded(a: Attempt) { a.deleted }

  predicate Failed(a: Attempt) { !a.deleted }

  /** The best-effort deletion loop: every item is attempted exactly once, in order,
      and a failure (an exception caught inside the loop) does not stop the rest.
      `deletes` is the filesystem's verdict on each item. */
  function DeleteEach(items: seq<Entry>, deletes: Entry -> bool): (log: seq<Attempt>)
    ensures |log| == |items|
    ensures forall i :: 0 <= i < |items| ==> log[i].entry == items[i] && log[i].deleted == deletes(items[i])
  {
    if |items| == 0 then []
    else
      var last := items[|items| - 1];
      DeleteEach(items[..|items| - 1], deletes) + [Attempt(last, deletes(last))]
  }

  /** The two counters of the deletion loop: one is bumped per success, the other
      per failure, so together they count every attempt. */
  function Tally(log: seq<Attempt>): (counts: (nat, nat))
    ensures counts.0 + counts.1 == |log|
    ensures counts.0 == |Select(log, Succeeded)|
    ensures counts.1 == |Select(log, Failed)|
  {
    if |log| == 0 then (0, 0)
    else
      var front := Tally(log[..|log| - 1]);
      if log[|log| - 1].deleted then (front.0 + 1, front.1) else (front.0, front.1 + 1)
  }
}
