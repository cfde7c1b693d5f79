/** The bounded set of handled queue ids of a session (src/mediator-transport.js, `_seen`). */
module SeenSet {
  const MAX_SEEN := 1024

  ghost predicate Distinct(s: seq<string>) {
    forall i, j :: 0 <= i < j < |s| ==> s[i] != s[j]
  }

  /** `_markSeen` on an insertion-ordered set: adding a member changes nothing. */
  function Mark(seen: seq<string>, id: string): seq<string> {
    if id in seen then seen
    else if |seen| + 1 > MAX_SEEN then (seen + [id])[1..]
    else seen + [id]
  }

  /** The ids that actually entered the set, in order. */
  function Entered(seen: seq<string>, entered: seq<string>, id: string): seq<string> {
    if id in seen then entered else entered + [id]
  }

  /** `seen` holds exactly the newest 1024 entries, all distinct. */
  ghost predicate IsWindow(seen: seq<string>, entered: seq<string>) {
    && |seen| <= 1024
    && Distinct(seen)
    && seen == entered[if |entered| > 1024 then |entered| - 1024 else 0..]
  }

  lemma MarkKeepsWindow(seen: seq<string>, entered: seq<string>, id: string)
    requires IsWindow(seen, entered)
    ensures IsWindow(Mark(seen, id), Entered(seen, entered, id))
    ensures id in Mark(seen, id)
    ensures Entered(seen, entered, id) == if id in seen then entered else entered + [id]
  {
    if id !in seen {
      var k := if |entered| > MAX_SEEN then |entered| - MAX_SEEN else 0;
      var grown := entered + [id];
      assert seen + [id] == grown[k..];
      var after := Mark(seen, id);
      assert after[|after| - 1] == id;
    }
  }

  /** An id leaves the set only when 1024 distinct newer ids have entered after it. */
  lemma LeavesOnlyAfterNewer(seen: seq<string>, entered: seq<string>, id: string, gone: string)
    requires IsWindow(seen, entered)
    requires gone in seen && gone !in Mark(seen, id)
    ensures var log := Entered(seen, entered, id);
            && |log| > 1024
            && log[|log| - 1025] == gone
            && Distinct(log[|log| - 1024..])
            && gone !in log[|log| - 1024..]
  {
    MarkKeepsWindow(seen, entered, id);
    var log := Entered(seen, entered, id);
    var grown := seen + [id];
    var k :| 0 <= k < |seen| && seen[k] == gone;
    assert grown[k] == gone && id !in seen;
    assert |grown| > MAX_SEEN && grown[1..] == Mark(seen, id);
  }
}
