/** What has been verified about each did:scid, bounded and never going back (src/did-scid.js, `createScidSourceBook`). */
module SourceBook {
  import opened Wrappers
  import opened OrderedMap
  import DidScid

  datatype Version = Version(number: int, id: string)

  datatype Record = Record(source: string, version: Option<Version>)

  type Book = Map<Record>

  function VersionOf(seen: Book, k: string): Option<Version> {
    match Get(seen, k) case None => None case Some(r) => r.version
  }

  predicate IsBehind(number: int, id: string, latest: Version) {
    number < latest.number || (number == latest.number && id != latest.id)
  }

  datatype Op = AddSource(didUrl: string) | Accept(did: string, source: string, number: int, id: string)

  /** Whether the call returns true, or returns at all. */
  predicate Succeeds(seen: Book, op: Op) {
    match op
    case AddSource(didUrl) => DidScid.ScidSrc(didUrl).Some?
    case Accept(did, source, number, id) =>
      match VersionOf(seen, DidScid.ScidIdentity(did))
      case None => true
      case Some(latest) => !IsBehind(number, id, latest)
  }

  function Apply(seen: Book, capacity: real, op: Op): Book {
    if !Succeeds(seen, op) then seen
    else
      match op
      case AddSource(didUrl) =>
        var k, src := DidScid.ScidIdentity(didUrl), DidScid.ScidSrc(didUrl).value;
        var i := IndexOfKey(seen, k);
        if i < |seen| then seen[i := Entry(k, seen[i].value.(source := src))]
        else Trim(seen, capacity) + [Entry(k, Record(src, None))]
      case Accept(did, source, number, id) =>
        var k := DidScid.ScidIdentity(did);
        var room := if Holds(seen, k) then seen else Trim(seen, capacity);
        Delete(room, k) + [Entry(k, Record(source, Some(Version(number, id))))]
  }

  function KeyOf(op: Op): string {
    DidScid.ScidIdentity(if op.AddSource? then op.didUrl else op.did)
  }

  /** The book after the first n calls. */
  function After(capacity: real, ops: seq<Op>, n: nat): Book
    requires n <= |ops|
  {
    if n == 0 then [] else Apply(After(capacity, ops, n - 1), capacity, ops[n - 1])
  }

  /** A version is accepted exactly when none is recorded, or it is newer, or it is the recorded one. */
  lemma AcceptedExactly(seen: Book, did: string, source: string, number: int, id: string)
    ensures Succeeds(seen, Accept(did, source, number, id)) <==>
      var r := Get(seen, DidScid.ScidIdentity(did));
      r == None || r.value.version == None || number > r.value.version.value.number
      || (number == r.value.version.value.number && id == r.value.version.value.id)
  {
    hide DidScid.ScidIdentity, Get;
  }

  // ----- bounds

  ghost predicate Inv(seen: Book, capacity: real) {
    && |seen| as real < capacity + 1.0
    && Distinct(seen)
  }

  lemma ApplyKeepsInv(seen: Book, capacity: real, op: Op)
    requires capacity >= 1.0 && Inv(seen, capacity)
    ensures Inv(Apply(seen, capacity, op), capacity)
  {
    hide IndexOfKey, Trim, DidScid.ScidSrc, DidScid.ScidIdentity, VersionOf;
    Trimmed(seen, capacity);
    KeysStayDistinct(seen, capacity, op);
  }

  lemma KeysStayDistinct(seen: Book, capacity: real, op: Op)
    requires capacity >= 1.0 && Distinct(seen)
    ensures Distinct(Apply(seen, capacity, op))
  {
    hide IndexOfKey, Trim, DidScid.ScidSrc, DidScid.ScidIdentity, VersionOf, Delete;
    Trimmed(seen, capacity);
    if op.Accept? {
      DeleteKeepsDistinct(seen, KeyOf(op));
      DeleteKeepsDistinct(Trim(seen, capacity), KeyOf(op));
    }
  }

  /** The size never passes the capacity: for a whole-number capacity it is at most that. */
  lemma {:induction false} SizeIsBounded(capacity: real, ops: seq<Op>, n: nat)
    requires capacity >= 1.0 && n <= |ops|
    ensures Inv(After(capacity, ops, n), capacity)
    ensures |After(capacity, ops, n)| <= if capacity == capacity.Floor as real then capacity.Floor else capacity.Floor + 1
  {
    if n > 0 {
      SizeIsBounded(capacity, ops, n - 1);
      ApplyKeepsInv(After(capacity, ops, n - 1), capacity, ops[n - 1]);
    }
  }

  // ----- one call

  /** A call touches no other key, except that the oldest may be forgotten, and only when the book was full. */
  lemma OthersUntouched(seen: Book, capacity: real, op: Op, k: string)
    requires capacity >= 1.0 && Inv(seen, capacity) && k != KeyOf(op)
    ensures var after := Apply(seen, capacity, op);
      Get(after, k) == Get(seen, k) || (Get(after, k).None? && |seen| as real >= capacity && seen[0].key == k)
  {
    hide IndexOfKey, Trim, DidScid.ScidSrc, DidScid.ScidIdentity, VersionOf;
    if Succeeds(seen, op) {
      if Holds(seen, KeyOf(op)) { KnownKeyCall(seen, capacity, op, k); } else { NewKeyCall(seen, capacity, op, k); }
    }
  }

  lemma KnownKeyCall(seen: Book, capacity: real, op: Op, k: string)
    requires Distinct(seen) && k != KeyOf(op) && Succeeds(seen, op) && Holds(seen, KeyOf(op))
    ensures Get(Apply(seen, capacity, op), k) == Get(seen, k)
  {
    hide IndexOfKey, Trim, DidScid.ScidSrc, DidScid.ScidIdentity, VersionOf, Get, Delete;
    var h := IndexOfKey(seen, KeyOf(op));
    var after := Apply(seen, capacity, op);
    if op.AddSource? {
      SetKeepsOthers(seen, h, after[h], k);
    } else {
      ReinsertKeepsOthers(seen, after[|after| - 1], k);
    }
  }

  lemma NewKeyCall(seen: Book, capacity: real, op: Op, k: string)
    requires capacity >= 1.0 && Inv(seen, capacity) && k != KeyOf(op) && Succeeds(seen, op) && !Holds(seen, KeyOf(op))
    ensures var after := Apply(seen, capacity, op);
      Get(after, k) == Get(seen, k) || (Get(after, k).None? && |seen| as real >= capacity && seen[0].key == k)
  {
    Trimmed(seen, capacity);
    var e := NewKeyShape(seen, capacity, op);
    hide IndexOfKey, Trim, Apply, Get;
    SuffixKeeps(seen, Trim(seen, capacity), e, k);
    assert |seen| as real >= capacity || Trim(seen, capacity) == seen;
  }

  lemma NewKeyShape(seen: Book, capacity: real, op: Op) returns (e: Entry<Record>)
    requires capacity >= 1.0 && Succeeds(seen, op) && !Holds(seen, KeyOf(op))
    ensures e.key == KeyOf(op) && Apply(seen, capacity, op) == Trim(seen, capacity) + [e]
  {
    Trimmed(seen, capacity);
    SuffixLacks(seen, Trim(seen, capacity), KeyOf(op));
    hide IndexOfKey, Trim, DidScid.ScidSrc, DidScid.ScidIdentity, VersionOf, Delete;
    var after := Apply(seen, capacity, op);
    e := after[|after| - 1];
  }

  /** `addSource` on a known SCID changes its source and not its version. */
  lemma AddKeepsVersion(seen: Book, capacity: real, didUrl: string)
    requires capacity >= 1.0 && Inv(seen, capacity) && DidScid.ScidSrc(didUrl).Some?
    ensures var k, after := DidScid.ScidIdentity(didUrl), Apply(seen, capacity, AddSource(didUrl));
      && VersionOf(after, k) == VersionOf(seen, k)
      && Get(after, k).Some? && Get(after, k).value.source == DidScid.ScidSrc(didUrl).value
  {
    hide IndexOfKey;
    Trimmed(seen, capacity);
    var k, after := DidScid.ScidIdentity(didUrl), Apply(seen, capacity, AddSource(didUrl));
    var i := IndexOfKey(seen, k);
    IndexIs(after, if i < |seen| then i else |after| - 1);
  }

  /** An accepted version is the recorded one, newest in the order of forgetting. */
  lemma AcceptRecords(seen: Book, capacity: real, op: Op)
    requires capacity >= 1.0 && Inv(seen, capacity) && op.Accept? && Succeeds(seen, op)
    ensures var after := Apply(seen, capacity, op);
      && after != [] && after[|after| - 1].key == KeyOf(op)
      && Get(after, KeyOf(op)) == Some(Record(op.source, Some(Version(op.number, op.id))))
  {
    hide IndexOfKey, Trim, DidScid.ScidSrc, DidScid.ScidIdentity;
    Trimmed(seen, capacity);
    var after := Apply(seen, capacity, op);
    DeleteKeepsDistinct(seen, KeyOf(op));
    DeleteKeepsDistinct(Trim(seen, capacity), KeyOf(op));
    IndexIs(after, |after| - 1);
  }

  // ----- runs

  predicate Follows(later: Version, earlier: Version) {
    later.number > earlier.number || later == earlier
  }

  lemma VersionStep(seen: Book, capacity: real, op: Op, k: string, v: Version)
    requires capacity >= 1.0 && Inv(seen, capacity)
    requires VersionOf(seen, k) == Some(v) && Holds(Apply(seen, capacity, op), k)
    ensures VersionOf(Apply(seen, capacity, op), k).Some? && Follows(VersionOf(Apply(seen, capacity, op), k).value, v)
  {
    if k != KeyOf(op) {
      OthersUntouched(seen, capacity, op, k);
    } else if Succeeds(seen, op) {
      if op.AddSource? { AddKeepsVersion(seen, capacity, op.didUrl); } else { AcceptRecords(seen, capacity, op); }
    }
  }

  /** While a SCID is not forgotten its recorded version never goes back, nor sideways. */
  lemma {:induction false} VersionsNeverGoBack(capacity: real, ops: seq<Op>, k: string, i: nat, j: nat, v: Version)
    requires capacity >= 1.0 && i <= j <= |ops|
    requires forall t :: i <= t <= j ==> Holds(After(capacity, ops, t), k)
    requires VersionOf(After(capacity, ops, i), k) == Some(v)
    ensures VersionOf(After(capacity, ops, j), k).Some? && Follows(VersionOf(After(capacity, ops, j), k).value, v)
    decreases j
  {
    hide IndexOfKey, Get, Apply;
    if i < j {
      VersionsNeverGoBack(capacity, ops, k, i, j - 1, v);
      SizeIsBounded(capacity, ops, j - 1);
      assert Holds(After(capacity, ops, j), k);
      VersionStep(After(capacity, ops, j - 1), capacity, ops[j - 1], k, VersionOf(After(capacity, ops, j - 1), k).value);
    }
  }

  /** Of two versions accepted for a SCID not forgotten in between, the later has the higher number or is the same. */
  lemma AcceptedInOrder(capacity: real, ops: seq<Op>, i: nat, j: nat)
    requires capacity >= 1.0 && i < j < |ops|
    requires ops[i].Accept? && ops[j].Accept? && KeyOf(ops[i]) == KeyOf(ops[j])
    requires Succeeds(After(capacity, ops, i), ops[i]) && Succeeds(After(capacity, ops, j), ops[j])
    requires forall t :: i < t <= j ==> Holds(After(capacity, ops, t), KeyOf(ops[i]))
    ensures Follows(Version(ops[j].number, ops[j].id), Version(ops[i].number, ops[i].id))
  {
    hide IndexOfKey, Apply, Trim, KeyOf, DidScid.ScidSrc, DidScid.ScidIdentity;
    var k, v := KeyOf(ops[i]), Version(ops[i].number, ops[i].id);
    SizeIsBounded(capacity, ops, i);
    AcceptRecords(After(capacity, ops, i), capacity, ops[i]);
    hide IndexOfKey, Apply, Trim, KeyOf, DidScid.ScidSrc, DidScid.ScidIdentity, Get, Holds;
    assert After(capacity, ops, i + 1) == Apply(After(capacity, ops, i), capacity, ops[i]);
    VersionsNeverGoBack(capacity, ops, k, i + 1, j, v);
    AcceptedFollows(After(capacity, ops, j), ops[j], VersionOf(After(capacity, ops, j), k).value);
  }

  lemma AcceptedFollows(seen: Book, op: Op, latest: Version)
    requires op.Accept? && Succeeds(seen, op) && VersionOf(seen, KeyOf(op)) == Some(latest)
    ensures Follows(Version(op.number, op.id), latest)
  {
    hide VersionOf, DidScid.ScidIdentity;
  }

  // ----- the object

  class ScidSourceBook {
    var seen: Book
    const capacity: real

    constructor (capacity: real)
      requires capacity >= 1.0
      ensures seen == [] && this.capacity == capacity
    {
      this.capacity := capacity;
      seen := [];
    }

    /** `createScidSourceBook`: a TypeError below one. */
    static method Create(capacity: real) returns (book: Option<ScidSourceBook>)
      ensures book.Some? <==> capacity >= 1.0
      ensures book.Some? ==> fresh(book.value) && book.value.seen == [] && book.value.capacity == capacity
    {
      if capacity < 1.0 { return None; }
      var b := new ScidSourceBook(capacity);
      return Some(b);
    }

    method ForgetOldest()
      modifies this
      ensures seen == Trim(old(seen), capacity)
    {
      while |seen| as real >= capacity
        invariant Trim(seen, capacity) == Trim(old(seen), capacity)
        decreases |seen|
      {
        if seen == [] { return; }
        seen := seen[1..];
      }
    }

    method Source(did: string) returns (source: Option<string>)
      ensures source == match Get(seen, DidScid.ScidIdentity(did)) case None => None case Some(r) => Some(r.source)
    {
      var i := IndexOfKey(seen, DidScid.ScidIdentity(did));
      source := if i < |seen| then Some(seen[i].value.source) else None;
    }

    method AddSourceOf(didUrl: string) returns (added: bool)
      modifies this
      ensures added == DidScid.ScidSrc(didUrl).Some?
      ensures seen == Apply(old(seen), capacity, AddSource(didUrl))
    {
      hide IndexOfKey, DidScid.ScidSrc, DidScid.ScidIdentity;
      var src := DidScid.ScidSrc(didUrl);
      if src.None? { return false; }
      var k := DidScid.ScidIdentity(didUrl);
      var i := IndexOfKey(seen, k);
      if i < |seen| {
        seen := seen[i := Entry(k, seen[i].value.(source := src.value))];
      } else {
        ForgetOldest();
        seen := seen + [Entry(k, Record(src.value, None))];
      }
      return true;
    }

    method AcceptVersion(did: string, source: string, number: int, id: string) returns (accepted: bool)
      modifies this
      ensures accepted == Succeeds(old(seen), Accept(did, source, number, id))
      ensures !accepted ==> seen == old(seen)
      ensures seen == Apply(old(seen), capacity, Accept(did, source, number, id))
    {
      hide IndexOfKey, DidScid.ScidIdentity;
      var k := DidScid.ScidIdentity(did);
      var latest := VersionOf(seen, k);
      if latest.Some? && IsBehind(number, id, latest.value) { return false; }
      if !Holds(seen, k) { ForgetOldest(); }
      seen := Delete(seen, k);
      seen := seen + [Entry(k, Record(source, Some(Version(number, id))))];
      return true;
    }
  }
}
