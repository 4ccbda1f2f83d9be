/**
 Eviction in the disk cache of webrtc/base/diskcache.cc: which entry the scan in
 CheckLimit picks.  What is evicted is always a least recently modified evictable
 entry; but the scan sees busy entries too, and runs off the end of the map when
 it starts at the last key.
 */
module Eviction {
  import opened StringOrder
  import opened DiskEntries

  /** Neither locked nor in use. */
  predicate Evictable(e: Entry) {
    e.lockState == Unlocked && e.accessors == 0
  }

  lemma EvictableMeans(e: Entry)
    ensures Evictable(e) <==> !(e.lockState != Unlocked || e.accessors > 0)
  {
  }

  // ------------------------------------------------------------------
  // The scan, over the entries in the order of their keys
  // ------------------------------------------------------------------

  datatype Scan = AllBusy | PastEnd | Oldest(id: string)

  /** All names stand for entries. */
  predicate AreKeys(m: Entries, keys: seq<string>) {
    forall i :: 0 <= i < |keys| ==> keys[i] in m
  }

  /** The first evictable entry from position `i` on. */
  function FirstEvictable(m: Entries, keys: seq<string>, i: nat): (f: nat)
    requires AreKeys(m, keys) && i <= |keys|
    ensures i <= f <= |keys| && (f < |keys| ==> Evictable(m[keys[f]]))
    ensures forall j :: i <= j < f ==> !Evictable(m[keys[j]])
    decreases |keys| - i
  {
    if i == |keys| || Evictable(m[keys[i]]) then i else FirstEvictable(m, keys, i + 1)
  }

  /** The scan for the oldest entry from position `it` on, with `oldest` the best so far. */
  function LeastFrom(m: Entries, keys: seq<string>, it: nat, oldest: nat): (r: nat)
    requires AreKeys(m, keys) && it <= |keys| && oldest < |keys|
    ensures r < |keys|
    decreases |keys| - it
  {
    if it == |keys| then oldest
    else LeastFrom(m, keys, it + 1, if m[keys[it]].lastModified < m[keys[oldest]].lastModified then it else oldest)
  }

  function ScanOf(m: Entries): Scan {
    var keys := Listing(m.Keys);
    var f := FirstEvictable(m, keys, 0);
    if f == |keys| then AllBusy
    else if f + 1 == |keys| then PastEnd
    else Oldest(keys[LeastFrom(m, keys, f, f + 1)])
  }

  /** Among entries modified at the same time the scan from `f` on prefers the second entry, then the first, then the others in order. */
  function Rank(f: nat, i: nat): nat {
    if i == f then f + 1 else if i == f + 1 then f else i
  }

  ghost predicate Ahead(m: Entries, keys: seq<string>, f: nat, i: nat, j: nat)
    requires AreKeys(m, keys) && i < |keys| && j < |keys|
  {
    var a, b := m[keys[i]].lastModified, m[keys[j]].lastModified;
    a < b || (a == b && Rank(f, i) < Rank(f, j))
  }

  /** `o` is the best of those seen when the scan from `f` on has reached `it`. */
  ghost predicate Best(m: Entries, keys: seq<string>, f: nat, it: nat, o: nat)
    requires AreKeys(m, keys) && f + 1 < |keys|
  {
    && f <= it <= |keys| && f <= o < |keys| && (o < it || o == f + 1)
    && forall j :: f <= j < |keys| && (j < it || j == f + 1) && j != o ==> Ahead(m, keys, f, o, j)
  }

  lemma {:induction false} LeastIsBest(m: Entries, keys: seq<string>, f: nat, it: nat, o: nat)
    requires AreKeys(m, keys) && f + 1 < |keys| && Best(m, keys, f, it, o)
    ensures Best(m, keys, f, |keys|, LeastFrom(m, keys, it, o))
    decreases |keys| - it
  {
    if it < |keys| {
      var next := if m[keys[it]].lastModified < m[keys[o]].lastModified then it else o;
      BestStep(m, keys, f, it, o);
      LeastIsBest(m, keys, f, it + 1, next);
    }
  }

  lemma BestStep(m: Entries, keys: seq<string>, f: nat, it: nat, o: nat)
    requires AreKeys(m, keys) && f + 1 < |keys| && Best(m, keys, f, it, o) && it < |keys|
    ensures Best(m, keys, f, it + 1, if m[keys[it]].lastModified < m[keys[o]].lastModified then it else o)
  {
    var next := if m[keys[it]].lastModified < m[keys[o]].lastModified then it else o;
    forall j | f <= j < |keys| && (j < it + 1 || j == f + 1) && j != next
      ensures Ahead(m, keys, f, next, j)
    {
      if j != o && j != it {
        assert Ahead(m, keys, f, o, j);
      } else if next == o && o != f + 1 {
        assert Ahead(m, keys, f, o, f + 1);
      }
    }
    if next == it && it == f + 1 && o != it {
      assert Ahead(m, keys, f, o, f + 1);
    }
  }

  // ------------------------------------------------------------------
  // The choice in terms of the entries
  // ------------------------------------------------------------------

  /** The first evictable entry in the order of keys. */
  ghost predicate StartsScan(m: Entries, id: string) {
    id in m && Evictable(m[id]) && forall k :: k in m && Before(k, id) ==> !Evictable(m[k])
  }

  /** The scan passes the entry: an evictable one stands before it, or is it. */
  ghost predicate Passed(m: Entries, id: string) {
    id in m && exists k :: k in m && Evictable(m[k]) && (k == id || Before(k, id))
  }

  /** No key lies between `a` and the later `b`. */
  ghost predicate Adjacent(m: Entries, a: string, b: string) {
    Before(a, b) && forall k :: k in m ==> !(Before(a, k) && Before(k, b))
  }

  /** The scan prefers `a` to `b`: it is older, or as old and comes up earlier. */
  ghost predicate Preferred(m: Entries, a: string, b: string)
    requires a in m && b in m
  {
    || m[a].lastModified < m[b].lastModified
    || (m[a].lastModified == m[b].lastModified
        && if StartsScan(m, b) then Adjacent(m, b, a)
           else if StartsScan(m, a) then !Adjacent(m, a, b)
           else Before(a, b))
  }

  /** The only evictable entry is the last of the map. */
  ghost predicate OnlyLast(m: Entries) {
    exists id :: id in m && Evictable(m[id]) && forall k :: k in m && k != id ==> !Evictable(m[k]) && Before(k, id)
  }

  /** A busy entry stands behind an evictable one and is preferred to every evictable one. */
  ghost predicate BusyInTheWay(m: Entries) {
    exists b :: b in m && Passed(m, b) && !Evictable(m[b])
                && forall v :: v in m && Evictable(m[v]) ==> Preferred(m, b, v)
  }

  // What positions in the listing mean for the keys.

  lemma StartPosition(m: Entries, keys: seq<string>, f: nat, i: nat)
    requires keys == Listing(m.Keys) && AreKeys(m, keys)
    requires f == FirstEvictable(m, keys, 0) && f < |keys| && i < |keys|
    ensures StartsScan(m, keys[i]) <==> i == f
  {
    hide Listing, Before, Evictable;
    ListingKeys(m);
    if i > f {
      InOrder(keys, f, i);
    } else if i == f {
      forall k | k in m && Before(k, keys[f])
        ensures !Evictable(m[k])
      {
        var j :| 0 <= j < |keys| && keys[j] == k;
        InOrder(keys, j, f);
      }
    }
  }

  lemma PassedPosition(m: Entries, keys: seq<string>, f: nat, i: nat)
    requires keys == Listing(m.Keys) && AreKeys(m, keys)
    requires f == FirstEvictable(m, keys, 0) && f < |keys| && i < |keys|
    ensures Passed(m, keys[i]) <==> f <= i
  {
    hide Listing, Before, Evictable;
    ListingKeys(m);
    InOrder(keys, f, i);
    if Passed(m, keys[i]) {
      var k :| k in m && Evictable(m[k]) && (k == keys[i] || Before(k, keys[i]));
      var j :| 0 <= j < |keys| && keys[j] == k;
      InOrder(keys, j, i);
    }
  }

  lemma AdjacentPositions(m: Entries, keys: seq<string>, i: nat, j: nat)
    requires keys == Listing(m.Keys) && AreKeys(m, keys) && i < |keys| && j < |keys|
    ensures Adjacent(m, keys[i], keys[j]) <==> j == i + 1
  {
    hide Listing, Before, Evictable;
    ListingKeys(m);
    InOrder(keys, i, j);
    if j == i + 1 {
      forall k | k in m
        ensures !(Before(keys[i], k) && Before(k, keys[j]))
      {
        var n :| 0 <= n < |keys| && keys[n] == k;
        InOrder(keys, i, n);
        InOrder(keys, n, j);
      }
    } else if j > i + 1 {
      InOrder(keys, i, i + 1);
      InOrder(keys, i + 1, j);
      assert keys[i + 1] in m;
    }
  }

  lemma PreferredPositions(m: Entries, keys: seq<string>, f: nat, i: nat, j: nat)
    requires keys == Listing(m.Keys) && AreKeys(m, keys)
    requires f == FirstEvictable(m, keys, 0) && f < |keys| && f <= i < |keys| && f <= j < |keys| && i != j
    ensures Preferred(m, keys[i], keys[j]) <==> Ahead(m, keys, f, i, j)
  {
    hide Listing, Before, Evictable, StartsScan, Adjacent;
    StartPosition(m, keys, f, i);
    StartPosition(m, keys, f, j);
    AdjacentPositions(m, keys, i, j);
    AdjacentPositions(m, keys, j, i);
    InOrder(keys, i, j);
  }

  lemma InOrder(keys: seq<string>, a: nat, b: nat)
    requires Increasing(keys) && a < |keys| && b < |keys|
    ensures Before(keys[a], keys[b]) <==> a < b
    ensures keys[a] == keys[b] <==> a == b
  {
    BeforeIrreflexive(keys[a]);
    if b < a && Before(keys[a], keys[b]) {
      BeforeTransitive(keys[a], keys[b], keys[a]);
    }
  }

  lemma ListingKeys(m: Entries)
    ensures Increasing(Listing(m.Keys))
    ensures AreKeys(m, Listing(m.Keys))
    ensures forall id :: id in m ==> id in Listing(m.Keys)
  {
  }

  /** The scan finds no entry exactly when none is evictable, and runs off the end exactly when only the last one is. */
  lemma ScanFails(m: Entries)
    ensures ScanOf(m).AllBusy? <==> forall id :: id in m ==> !Evictable(m[id])
    ensures ScanOf(m).PastEnd? <==> OnlyLast(m)
  {
    hide Listing, Before, Evictable, LeastFrom;
    var keys := Listing(m.Keys);
    ListingKeys(m);
    var f := FirstEvictable(m, keys, 0);
    if f + 1 == |keys| {
      forall k | k in m && k != keys[f]
        ensures !Evictable(m[k]) && Before(k, keys[f])
      {
        var i :| 0 <= i < |keys| && keys[i] == k;
        InOrder(keys, i, f);
      }
    } else if f < |keys| && OnlyLast(m) {
      var id :| id in m && Evictable(m[id]) && forall k :: k in m && k != id ==> !Evictable(m[k]) && Before(k, id);
      assert id == keys[f];
      InOrder(keys, f + 1, f);
    }
  }

  /** Otherwise it finds the entry it prefers to all others it passes: none of them was modified earlier. */
  lemma ScanFinds(m: Entries)
    requires ScanOf(m).Oldest?
    ensures var id := ScanOf(m).id;
            && id in m && Passed(m, id)
            && forall k :: k in m && Passed(m, k) && k != id ==> Preferred(m, id, k)
    ensures forall k :: k in m && Evictable(m[k]) ==> m[ScanOf(m).id].lastModified <= m[k].lastModified
  {
    hide Listing, Before, Evictable, LeastFrom, Passed, Preferred;
    var keys := Listing(m.Keys);
    ListingKeys(m);
    var f := FirstEvictable(m, keys, 0);
    var r := LeastFrom(m, keys, f, f + 1);
    LeastIsBest(m, keys, f, f, f + 1);
    PassedPosition(m, keys, f, r);
    forall k | k in m && Passed(m, k) && k != keys[r]
      ensures Preferred(m, keys[r], k)
    {
      var j :| 0 <= j < |keys| && keys[j] == k;
      PassedPosition(m, keys, f, j);
      assert Ahead(m, keys, f, r, j);
      PreferredPositions(m, keys, f, r, j);
    }
    forall k | k in m && Evictable(m[k])
      ensures m[keys[r]].lastModified <= m[k].lastModified
    {
      EvictablePassed(m, k);
      if k != keys[r] {
        PreferredIsOlder(m, keys[r], k);
      }
    }
  }

  lemma EvictablePassed(m: Entries, id: string)
    requires id in m && Evictable(m[id])
    ensures Passed(m, id)
  {
  }

  lemma PreferredIsOlder(m: Entries, a: string, b: string)
    requires a in m && b in m && Preferred(m, a, b)
    ensures m[a].lastModified <= m[b].lastModified
  {
  }

  /** The scan ends at a busy entry, although there are evictable ones, exactly when one is in the way. */
  lemma ScanFindsBusy(m: Entries)
    requires ScanOf(m).Oldest?
    ensures ScanOf(m).id in m
    ensures !Evictable(m[ScanOf(m).id]) <==> BusyInTheWay(m)
  {
    hide ScanOf, Before, Evictable, Preferred, Passed;
    var id := ScanOf(m).id;
    ScanFinds(m);
    if !Evictable(m[id]) {
      forall v | v in m && Evictable(m[v])
        ensures Preferred(m, id, v)
      {
        EvictablePassed(m, v);
      }
    } else if BusyInTheWay(m) {
      var b :| b in m && Passed(m, b) && !Evictable(m[b])
               && forall v :: v in m && Evictable(m[v]) ==> Preferred(m, b, v);
      NotBothPreferred(m, id, b);
    }
  }

  lemma BusyBehindEvictable(m: Entries)
    requires BusyInTheWay(m)
    ensures exists id :: id in m && Evictable(m[id])
    ensures !OnlyLast(m)
  {
    var b :| b in m && Passed(m, b) && !Evictable(m[b])
             && forall v :: v in m && Evictable(m[v]) ==> Preferred(m, b, v);
    var k :| k in m && Evictable(m[k]) && (k == b || Before(k, b));
    if OnlyLast(m) {
      BeforeTransitive(k, b, k);
      BeforeIrreflexive(k);
    }
  }

  lemma NotBothPreferred(m: Entries, a: string, b: string)
    requires a in m && b in m && a != b
    ensures !(Preferred(m, a, b) && Preferred(m, b, a))
  {
    hide Adjacent;
    BeforeTotal(a, b);
    if Before(a, b) && Before(b, a) {
      BeforeTransitive(a, b, a);
      BeforeIrreflexive(a);
    }
  }

  // ------------------------------------------------------------------
  // Evicting until the cache fits
  // ------------------------------------------------------------------

  /** How CheckLimit ends; past the end of the map the code's behaviour is undefined. */
  datatype Verdict = Fits | AllInUse | OldestInUse | NotDeleted | Undefined

  datatype Outcome = Outcome(entries: Entries, verdict: Verdict)

  /** Only evictable entries have gone, and nothing else has changed. */
  ghost predicate Evicted(was: Entries, now: Entries) {
    && now.Keys <= was.Keys
    && (forall id :: id in now ==> now[id] == was[id])
    && (forall id :: id in was && id !in now ==> Evictable(was[id]))
  }

  /** No evictable entry that remains was modified before one that went. */
  ghost predicate OldestWent(was: Entries, now: Entries) {
    forall g, k :: g in was && g !in now && k in now && k in was && Evictable(was[k]) ==>
      was[g].lastModified <= was[k].lastModified
  }

  /** Evicts one entry after the other; the files of `stuck` entries cannot be deleted. */
  ghost function Limit(m: Entries, max: nat, stuck: set<string>): Outcome
    decreases |m|
  {
    if TotalSize(m) <= max then Outcome(m, Fits)
    else match ScanOf(m)
      case AllBusy => Outcome(m, AllInUse)
      case PastEnd => Outcome(m, Undefined)
      case Oldest(id) =>
        ScanFindsBusy(m);
        if !Evictable(m[id]) then Outcome(m, OldestInUse)
        else if id in stuck then Outcome(m - {id}, NotDeleted)
        else Limit(m - {id}, max, stuck)
  }

  /** Least recently modified entries go first. */
  lemma {:induction false} EvictsOldestFirst(m: Entries, max: nat, stuck: set<string>)
    ensures var now := Limit(m, max, stuck).entries; Evicted(m, now) && OldestWent(m, now)
    decreases |m|
  {
    hide ScanOf, TotalSize, Evictable, Evicted, OldestWent, Passed, Preferred;
    NoneEvicted(m);
    if TotalSize(m) > max && ScanOf(m).Oldest? {
      var id := ScanOf(m).id;
      ScanFinds(m);
      if Evictable(m[id]) {
        NoneEvicted(m - {id});
        if id !in stuck {
          EvictsOldestFirst(m - {id}, max, stuck);
        }
        OneMoreEvicted(m, id, Limit(m, max, stuck).entries);
      }
    }
  }

  lemma NoneEvicted(m: Entries)
    ensures Evicted(m, m) && OldestWent(m, m)
  {
  }

  lemma OneMoreEvicted(m: Entries, id: string, now: Entries)
    requires id in m && Evictable(m[id]) && Evicted(m - {id}, now) && OldestWent(m - {id}, now)
    requires forall k :: k in m && Evictable(m[k]) ==> m[id].lastModified <= m[k].lastModified
    ensures Evicted(m, now) && OldestWent(m, now)
  {
    hide Evictable;
    forall g | g in m && g !in now && g != id
      ensures g in m - {id}
    {
    }
  }
}
