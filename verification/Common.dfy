/** What several components share. */
module Common {

  datatype Option<+T> = None | Some(value: T)

  const RootDirInodeNumber: nat := 1

  /** A counter in a map in which no entry stands for zero. */
  function Recorded(counts: map<nat, nat>, key: nat): nat {
    if key in counts then counts[key] else 0
  }

  /** The segments of which no byte is counted. */
  function Emptied(counts: map<nat, nat>): set<nat> {
    set s | s in counts && counts[s] == 0
  }

  function Members(inos: seq<nat>): set<nat> {
    set i | i in inos
  }

  ghost predicate Distinct<T>(s: seq<T>) {
    forall i, j :: 0 <= i < j < |s| ==> s[i] != s[j]
  }
}
