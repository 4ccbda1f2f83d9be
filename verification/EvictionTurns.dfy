/**
 How a check of the disk cache of webrtc/base/diskcache.cc ends, told from the
 entries before it: every evictable entry has its turn, turns come in an order
 that evictions do not change, and the check goes wrong at the first turn that
 fails.
 */
module EvictionTurns {
  import opened StringOrder
  import opened DiskEntries
  import opened Eviction

  // ------------------------------------------------------------------
  // The turn of an entry: what is evicted before it
  // ------------------------------------------------------------------

  ghost predicate Tied(m: Entries, t: int, k: string) {
    k in m && Evictable(m[k]) && m[k].lastModified == t
  }

  ghost predicate Newer(m: Entries, t: int, k: string) {
    k in m && Evictable(m[k]) && m[k].lastModified > t
  }

  /** The entry is still there when those evictable before time `t` have gone. */
  ghost predicate Remains(m: Entries, t: int, k: string) {
    k in m && !(Evictable(m[k]) && m[k].lastModified < t)
  }

  /** From `a` to the later `b` the remaining keys are all evictable entries of time `t`. */
  ghost predicate Run(m: Entries, t: int, a: string, b: string) {
    Before(a, b) && forall k :: Remains(m, t, k) && Before(a, k) && (k == b || Before(k, b)) ==> Tied(m, t, k)
  }

  /** The scan will start at `x` and prefer its successors of the same time: `x` heads a run, with nothing newer below. */
  ghost predicate Waits(m: Entries, t: int, x: string) {
    && (forall k :: Newer(m, t, k) ==> !Before(k, x))
    && (forall y :: Tied(m, t, y) ==> !Run(m, t, y, x))
  }

  /** Of two evictable entries of time `t`, `a` is evicted before `b`. */
  ghost predicate SoonerTied(m: Entries, t: int, a: string, b: string) {
    if Waits(m, t, b) && Run(m, t, b, a) then true
    else if Waits(m, t, a) && Run(m, t, a, b) then false
    else Before(a, b)
  }

  /** The entries that are evicted before `id`. */
  ghost function Sooner(m: Entries, id: string): Entries
    requires id in m
  {
    var t := m[id].lastModified;
    map k | k in m && k != id && Evictable(m[k])
            && (m[k].lastModified < t || (m[k].lastModified == t && SoonerTied(m, t, k, id))) :: m[k]
  }

  /** The scan picks `v` among the evictable entries. */
  ghost predicate Picks(m: Entries, v: string) {
    && v in m && Evictable(m[v])
    && forall k :: k in m && Evictable(m[k]) && k != v ==> Preferred(m, v, k)
  }

  lemma ScanPicks(m: Entries)
    requires ScanOf(m).Oldest? && ScanOf(m).id in m && Evictable(m[ScanOf(m).id])
    ensures Picks(m, ScanOf(m).id)
  {
    hide ScanOf, Before, Evictable, Preferred, Passed;
    ScanFinds(m);
    forall k | k in m && Evictable(m[k])
      ensures Passed(m, k)
    {
      EvictablePassed(m, k);
    }
  }

  lemma PickIsOldest(m: Entries, v: string, k: string)
    requires Picks(m, v) && k in m && Evictable(m[k])
    ensures m[v].lastModified <= m[k].lastModified
  {
    hide Before, Evictable;
  }

  /** The scan starts somewhere, and every evictable entry lies behind. */
  lemma StartOfScan(m: Entries, v: string) returns (f: string)
    requires v in m && Evictable(m[v])
    ensures StartsScan(m, f) && (v == f || Before(f, v))
  {
    hide Before, Evictable, Listing;
    ListingKeys(m);
    var keys := Listing(m.Keys);
    var n := FirstEvictable(m, keys, 0);
    var i :| 0 <= i < |keys| && keys[i] == v;
    f := keys[n];
    StartPosition(m, keys, n, n);
    InOrder(keys, n, i);
  }

  lemma AdjacentIsRun(m: Entries, t: int, a: string, b: string)
    requires Adjacent(m, a, b) && Tied(m, t, b)
    ensures Run(m, t, a, b)
  {
    hide Before, Evictable;
  }

  lemma StartWaits(m: Entries, f: string)
    requires StartsScan(m, f)
    ensures Waits(m, m[f].lastModified, f)
  {
    hide Before, Evictable;
  }

  /** A run begins with the direct successor. */
  lemma RunSuccessor(m: Entries, t: int, a: string, b: string) returns (g: string)
    requires a in m && b in m && Run(m, t, a, b) && forall k :: k in m ==> Remains(m, t, k)
    ensures Adjacent(m, a, g) && Tied(m, t, g)
  {
    hide Before, Evictable, Listing, Adjacent;
    ListingKeys(m);
    var keys := Listing(m.Keys);
    var i :| 0 <= i < |keys| && keys[i] == a;
    var j :| 0 <= j < |keys| && keys[j] == b;
    InOrder(keys, i, j);
    g := keys[i + 1];
    InOrder(keys, i, i + 1);
    InOrder(keys, i + 1, j);
    AdjacentPositions(m, keys, i, i + 1);
  }

  /** What waits for its run is not picked before the run. */
  lemma PickedHasNoRun(m: Entries, v: string, x: string)
    requires Picks(m, v) && x in m && Waits(m, m[v].lastModified, v)
    ensures !Run(m, m[v].lastModified, v, x)
  {
    hide Before, Evictable;
    var t := m[v].lastModified;
    var f := StartOfScan(m, v);
    PickIsOldest(m, v, f);
    if f != v {
      assert m[f].lastModified == t;
      AdjacentIsRun(m, t, f, v);
    } else if Run(m, t, v, x) {
      forall k | k in m
        ensures Remains(m, t, k)
      {
        if Evictable(m[k]) {
          PickIsOldest(m, v, k);
        }
      }
      var g := RunSuccessor(m, t, v, x);
      NotBefore(v, g);
    }
  }

  lemma NotBefore(a: string, b: string)
    requires Before(a, b)
    ensures !Before(b, a) && a != b
  {
    BeforeIrreflexive(a);
    if Before(b, a) {
      BeforeTransitive(a, b, a);
    }
  }

  /** Nothing is evicted before the entry the scan picks. */
  lemma NoneSooner(m: Entries, v: string)
    requires Picks(m, v)
    ensures Sooner(m, v) == map[]
  {
    hide Before, Evictable, Run, Waits, Preferred;
    var t := m[v].lastModified;
    forall k | k in m && k != v && Evictable(m[k])
      ensures !(m[k].lastModified < t || (m[k].lastModified == t && SoonerTied(m, t, k, v)))
    {
      PickIsOldest(m, v, k);
      if m[k].lastModified == t {
        NotSooner(m, v, k);
      }
    }
  }

  lemma NotSooner(m: Entries, v: string, k: string)
    requires Picks(m, v) && k in m && k != v && Evictable(m[k]) && m[k].lastModified == m[v].lastModified
    ensures !SoonerTied(m, m[v].lastModified, k, v)
  {
    hide Before, Evictable, Run, Waits, Adjacent;
    var t := m[v].lastModified;
    if Waits(m, t, v) {
      PickedHasNoRun(m, v, k);
    }
    if Before(k, v) {
      NotBefore(k, v);
      assert Preferred(m, v, k);
      AdjacentIsRun(m, t, k, v);
      StartWaits(m, k);
    }
  }

  /** The entry the scan picks is evicted before every other evictable one. */
  lemma PickedIsSooner(m: Entries, v: string, id: string)
    requires Picks(m, v) && id in m && id != v && Evictable(m[id])
    ensures v in Sooner(m, id)
  {
    hide Before, Evictable, Run, Waits, Adjacent;
    var t := m[id].lastModified;
    PickIsOldest(m, v, id);
    if m[v].lastModified == t {
      assert Preferred(m, v, id);
      if StartsScan(m, id) {
        AdjacentIsRun(m, t, id, v);
        StartWaits(m, id);
      } else {
        if Waits(m, t, v) {
          PickedHasNoRun(m, v, id);
        }
        if StartsScan(m, v) {
          BeforeTotal(v, id);
        }
      }
    }
  }

  // Evicting the picked entry does not change the turns of the others.

  lemma RunWithout(m: Entries, t: int, v: string, a: string, b: string)
    requires v in m && Evictable(m[v]) && m[v].lastModified <= t
    ensures Run(m - {v}, t, a, b) <==> Run(m, t, a, b)
  {
    hide Before, Evictable;
    forall k | k != v
      ensures Remains(m - {v}, t, k) <==> Remains(m, t, k)
      ensures Tied(m - {v}, t, k) <==> Tied(m, t, k)
    {
    }
  }

  lemma RunTransitive(m: Entries, t: int, a: string, b: string, c: string)
    requires Run(m, t, a, b) && Run(m, t, b, c)
    ensures Run(m, t, a, c)
  {
    BeforeTransitive(a, b, c);
    forall k | Remains(m, t, k) && Before(a, k) && (k == c || Before(k, c))
      ensures Tied(m, t, k)
    {
      BeforeTotal(k, b);
    }
  }

  lemma WaitsWithout(m: Entries, t: int, v: string, x: string)
    requires Picks(m, v) && m[v].lastModified <= t && x in m && x != v
    ensures Waits(m - {v}, t, x) <==> Waits(m, t, x)
  {
    hide Before, Evictable, Run;
    var n := m - {v};
    forall y
      ensures Run(n, t, y, x) <==> Run(m, t, y, x)
    {
      RunWithout(m, t, v, y, x);
    }
    if Waits(n, t, x) && Tied(m, t, v) && Run(m, t, v, x) {
      if Waits(m, t, v) {
        PickedHasNoRun(m, v, x);
      } else {
        HeadOfRun(m, t, v, x);
      }
    }
  }

  /** If `v` does not wait, neither does anything in a run behind it. */
  lemma HeadOfRun(m: Entries, t: int, v: string, x: string)
    requires Tied(m, t, v) && Run(m, t, v, x) && !Waits(m, t, v)
    ensures (exists k :: k != v && Newer(m, t, k) && Before(k, x)) || (exists y :: y != v && Tied(m, t, y) && Run(m, t, y, x))
  {
    hide Evictable;
    if k :| Newer(m, t, k) && Before(k, v) {
      BeforeTransitive(k, v, x);
      NotBefore(k, v);
    } else {
      var y :| Tied(m, t, y) && Run(m, t, y, v);
      RunTransitive(m, t, y, v, x);
      NotBefore(y, v);
    }
  }

  lemma SoonerWithout(m: Entries, v: string, id: string)
    requires Picks(m, v) && id in m && id != v && Evictable(m[id])
    ensures Sooner(m - {v}, id) == Sooner(m, id) - {v}
  {
    hide Before, Evictable, Run, Waits, Preferred;
    var t := m[id].lastModified;
    PickIsOldest(m, v, id);
    WaitsWithout(m, t, v, id);
    forall k | k in m && k != v && k != id && Evictable(m[k]) && m[k].lastModified == t
      ensures SoonerTied(m - {v}, t, k, id) <==> SoonerTied(m, t, k, id)
    {
      WaitsWithout(m, t, v, k);
      RunWithout(m, t, v, k, id);
      RunWithout(m, t, v, id, k);
    }
  }

  lemma OneSoonerLess(m: Entries, v: string, id: string)
    requires Picks(m, v) && id in m && id != v && Evictable(m[id])
    ensures TotalSize(m - {v}) - TotalSize(Sooner(m - {v}, id)) == TotalSize(m) - TotalSize(Sooner(m, id))
  {
    hide TotalSize, Evictable, Sooner;
    PickedIsSooner(m, v, id);
    SoonerWithout(m, v, id);
    RemoveSize(m, v);
    RemoveSize(Sooner(m, id), v);
    SoonerAreEntries(m, id);
  }

  lemma SoonerAreEntries(m: Entries, id: string)
    requires id in m
    ensures forall k :: k in Sooner(m, id) ==> k in m && Sooner(m, id)[k] == m[k]
  {
    hide Evictable, SoonerTied;
  }

  lemma EmptyTotal()
    ensures TotalSize(map[]) == 0
  {
  }

  // ------------------------------------------------------------------
  // How a check ends, told from the entries before it
  // ------------------------------------------------------------------

  /** The entries that no check evicts. */
  function Busy(m: Entries): Entries {
    map k | k in m && !Evictable(m[k]) :: m[k]
  }

  /** What is left when the turn of `id` comes. */
  ghost function AtTurn(m: Entries, id: string): Entries
    requires id in m
  {
    m - Sooner(m, id).Keys
  }

  /** Evicting all entries before `id` is not enough. */
  ghost predicate Reached(m: Entries, max: nat, id: string) {
    id in m && Evictable(m[id]) && TotalSize(m) - TotalSize(Sooner(m, id)) > max
  }

  /** The scan at the turn of `id` does not come to it. */
  ghost predicate Missed(m: Entries, id: string)
    requires id in m
  {
    OnlyLast(AtTurn(m, id)) || BusyInTheWay(AtTurn(m, id))
  }

  /** The check goes wrong at the turn of `id`, if it gets there. */
  ghost predicate TurnFails(m: Entries, max: nat, stuck: set<string>, id: string) {
    Reached(m, max, id) && (id in stuck || Missed(m, id))
  }

  ghost predicate NoneFailsBefore(m: Entries, max: nat, stuck: set<string>, id: string)
    requires id in m
  {
    forall k :: k in Sooner(m, id) ==> !TurnFails(m, max, stuck, k)
  }

  /** The turn at which the check goes wrong. */
  ghost predicate FailsAt(m: Entries, max: nat, stuck: set<string>, id: string) {
    TurnFails(m, max, stuck, id) && NoneFailsBefore(m, max, stuck, id)
  }

  /** In which way. */
  ghost function Failure(m: Entries, id: string): Verdict
    requires id in m
  {
    if OnlyLast(AtTurn(m, id)) then Undefined
    else if BusyInTheWay(AtTurn(m, id)) then OldestInUse
    else NotDeleted
  }

  /** Where no turn fails, the entries that no check evicts decide. */
  ghost function NoFailure(m: Entries, max: nat): Verdict {
    if TotalSize(Busy(m)) <= max then Fits else AllInUse
  }

  // The first turn belongs to the evictable entry preferred to all others, picked by the scan or not.

  lemma {:induction false} BestEvictable(m: Entries, keys: seq<string>, f: nat, i: nat) returns (r: nat)
    requires AreKeys(m, keys) && f < i <= |keys| && Evictable(m[keys[f]])
    ensures f <= r < i && Evictable(m[keys[r]])
    ensures forall j :: f <= j < i && j != r && Evictable(m[keys[j]]) ==> Ahead(m, keys, f, r, j)
    decreases i
  {
    hide Evictable;
    if i == f + 1 {
      return f;
    }
    r := BestEvictable(m, keys, f, i - 1);
    if Evictable(m[keys[i - 1]]) && Ahead(m, keys, f, i - 1, r) {
      r := i - 1;
    }
  }

  lemma FirstTurn(m: Entries, id: string) returns (v: string)
    requires id in m && Evictable(m[id])
    ensures Picks(m, v)
  {
    hide Before, Evictable, Listing, Preferred, Ahead;
    ListingKeys(m);
    var keys := Listing(m.Keys);
    var f := FirstEvictable(m, keys, 0);
    var i :| 0 <= i < |keys| && keys[i] == id;
    var r := BestEvictable(m, keys, f, |keys|);
    v := keys[r];
    forall k | k in m && Evictable(m[k]) && k != v
      ensures Preferred(m, v, k)
    {
      var j :| 0 <= j < |keys| && keys[j] == k;
      PreferredPositions(m, keys, f, r, j);
    }
  }

  lemma TurnOfFirst(m: Entries, v: string)
    requires Picks(m, v)
    ensures v in m && AtTurn(m, v) == m && TotalSize(Sooner(m, v)) == 0 && Sooner(m, v) == map[]
  {
    hide Picks, Sooner, TotalSize;
    NoneSooner(m, v);
    PickedIsEntry(m, v);
    EmptyTotal();
  }

  lemma PickedIsEntry(m: Entries, v: string)
    requires Picks(m, v)
    ensures v in m && Evictable(m[v])
  {
  }

  /** If the first turn fails, this is where the check goes wrong, and nowhere else. */
  lemma FirstTurnFails(m: Entries, max: nat, stuck: set<string>, v: string)
    requires Picks(m, v) && TotalSize(m) > max && (v in stuck || OnlyLast(m) || BusyInTheWay(m))
    ensures FailsAt(m, max, stuck, v)
    ensures forall id :: FailsAt(m, max, stuck, id) ==> id == v
    ensures forall id :: id in m && id != v && Evictable(m[id]) ==> !NoneFailsBefore(m, max, stuck, id)
  {
    hide Picks, Sooner, TotalSize, Evictable, OnlyLast, BusyInTheWay;
    TurnOfFirst(m, v);
    PickedIsEntry(m, v);
    forall id | id in m && id != v && Evictable(m[id])
      ensures !NoneFailsBefore(m, max, stuck, id)
    {
      PickedIsSooner(m, v, id);
    }
  }

  /** If it succeeds, every other turn is the same before and after. */
  lemma OtherTurn(m: Entries, max: nat, stuck: set<string>, v: string, id: string)
    requires Picks(m, v) && id in m && id != v && Evictable(m[id])
    ensures id in m - {v} && AtTurn(m - {v}, id) == AtTurn(m, id)
    ensures Reached(m - {v}, max, id) <==> Reached(m, max, id)
    ensures TurnFails(m - {v}, max, stuck, id) <==> TurnFails(m, max, stuck, id)
    ensures Sooner(m - {v}, id) == Sooner(m, id) - {v}
  {
    hide Picks, Sooner, TotalSize, Evictable, OnlyLast, BusyInTheWay;
    PickedIsSooner(m, v, id);
    SoonerWithout(m, v, id);
    OneSoonerLess(m, v, id);
  }

  lemma OtherFailure(m: Entries, max: nat, stuck: set<string>, v: string, id: string)
    requires Picks(m, v) && !TurnFails(m, max, stuck, v) && id in m && id != v && Evictable(m[id])
    ensures id in m - {v}
    ensures NoneFailsBefore(m - {v}, max, stuck, id) <==> NoneFailsBefore(m, max, stuck, id)
  {
    hide Picks, Sooner, TurnFails, Evictable;
    OtherTurn(m, max, stuck, v, id);
    SoonerEvictable(m, id);
    forall k | k in Sooner(m, id) && k != v
      ensures TurnFails(m - {v}, max, stuck, k) <==> TurnFails(m, max, stuck, k)
    {
      OtherTurn(m, max, stuck, v, k);
    }
  }

  lemma SoonerEvictable(m: Entries, id: string)
    requires id in m
    ensures forall k :: k in Sooner(m, id) ==> k in m && Evictable(m[k])
  {
    hide Evictable, SoonerTied;
  }

  lemma {:induction false} SubmapSize(m: Entries, part: Entries)
    requires forall k :: k in part ==> k in m && part[k] == m[k]
    ensures TotalSize(part) <= TotalSize(m)
    decreases |part|
  {
    hide TotalSize;
    if part == map[] {
      EmptyTotal();
    } else {
      var k :| k in part;
      SubmapSize(m - {k}, part - {k});
      RemoveSize(m, k);
      RemoveSize(part, k);
    }
  }

  /** Nothing is reached in a cache that fits, nor where nothing is evictable. */
  lemma NothingReached(m: Entries, max: nat, stuck: set<string>)
    requires TotalSize(m) <= max || forall k :: k in m ==> !Evictable(m[k])
    ensures forall id :: !Reached(m, max, id)
    ensures TotalSize(m) <= max ==> NoFailure(m, max) == Fits
    ensures (TotalSize(m) > max) ==> NoFailure(m, max) == AllInUse
  {
    hide TotalSize, Sooner, Evictable;
    SubmapSize(m, Busy(m));
    if TotalSize(m) > max {
      assert Busy(m) == m;
    }
  }

  /**
   A check goes wrong at the first turn that fails, in the way that turn fails;
   and if none fails, it ends well or with busy entries only, as their size says.
   */
  lemma {:induction false} VerdictForetold(m: Entries, max: nat, stuck: set<string>)
    ensures forall id :: FailsAt(m, max, stuck, id) ==> Limit(m, max, stuck).verdict == Failure(m, id)
    ensures (exists id :: FailsAt(m, max, stuck, id))
            || ((forall id :: !TurnFails(m, max, stuck, id)) && Limit(m, max, stuck).verdict == NoFailure(m, max))
    decreases |m|
  {
    hide ScanOf, TotalSize, Evictable, Sooner, Picks, OnlyLast, BusyInTheWay, NoneFailsBefore, Reached, NoFailure;
    ScanFails(m);
    if TotalSize(m) <= max || ScanOf(m).AllBusy? {
      NothingReached(m, max, stuck);
    } else if ScanOf(m).PastEnd? {
      FirstTurnMissed(m, max, stuck);
    } else {
      ScanFindsBusy(m);
      var v := ScanOf(m).id;
      if !Evictable(m[v]) {
        BusyBehindEvictable(m);
        FirstTurnMissed(m, max, stuck);
      } else {
        ScanPicks(m);
        TurnOfFirst(m, v);
        if v in stuck {
          FirstTurnFails(m, max, stuck, v);
        } else {
          VerdictForetold(m - {v}, max, stuck);
          FirstTurnDone(m, max, stuck, v);
        }
      }
    }
  }

  lemma FirstTurnMissed(m: Entries, max: nat, stuck: set<string>)
    requires TotalSize(m) > max && (OnlyLast(m) || BusyInTheWay(m)) && exists id :: id in m && Evictable(m[id])
    ensures exists id :: FailsAt(m, max, stuck, id)
    ensures forall id :: FailsAt(m, max, stuck, id) ==>
              id in m && Failure(m, id) == if OnlyLast(m) then Undefined else OldestInUse
  {
    hide TotalSize, Evictable, Sooner, Picks, OnlyLast, BusyInTheWay, FailsAt;
    var id :| id in m && Evictable(m[id]);
    var v := FirstTurn(m, id);
    TurnOfFirst(m, v);
    FirstTurnFails(m, max, stuck, v);
  }

  /** After a first turn that succeeds, the check goes on as one that begins there. */
  lemma FirstTurnDone(m: Entries, max: nat, stuck: set<string>, v: string)
    requires Picks(m, v) && v !in stuck && !OnlyLast(m) && !BusyInTheWay(m)
    ensures !TurnFails(m, max, stuck, v)
    ensures forall id :: id != v ==> (TurnFails(m - {v}, max, stuck, id) <==> TurnFails(m, max, stuck, id))
    ensures forall id :: FailsAt(m - {v}, max, stuck, id) <==> FailsAt(m, max, stuck, id)
    ensures forall id :: FailsAt(m, max, stuck, id) ==> id in m && id in m - {v} && Failure(m - {v}, id) == Failure(m, id)
    ensures NoFailure(m - {v}, max) == NoFailure(m, max)
  {
    hide TotalSize, Evictable, Sooner, Picks, OnlyLast, BusyInTheWay, NoneFailsBefore, Reached, AtTurn;
    TurnOfFirst(m, v);
    PickedIsEntry(m, v);
    assert Busy(m - {v}) == Busy(m);
    forall id | TurnFails(m, max, stuck, id) || TurnFails(m - {v}, max, stuck, id)
      ensures id != v && id in m && id in m - {v} && AtTurn(m - {v}, id) == AtTurn(m, id)
      ensures TurnFails(m - {v}, max, stuck, id) <==> TurnFails(m, max, stuck, id)
      ensures NoneFailsBefore(m - {v}, max, stuck, id) <==> NoneFailsBefore(m, max, stuck, id)
    {
      EvictableIfFails(m, max, stuck, v, id);
      OtherTurn(m, max, stuck, v, id);
      OtherFailure(m, max, stuck, v, id);
    }
  }

  lemma EvictableIfFails(m: Entries, max: nat, stuck: set<string>, v: string, id: string)
    requires v in m && !TurnFails(m, max, stuck, v)
    requires TurnFails(m, max, stuck, id) || TurnFails(m - {v}, max, stuck, id)
    ensures id != v && id in m && Evictable(m[id])
  {
    hide TotalSize, Sooner, Missed, Evictable;
  }

  /** A check makes the cache fit exactly when no turn fails and the busy entries are within the limit. */
  lemma FitsIff(m: Entries, max: nat, stuck: set<string>)
    ensures Limit(m, max, stuck).verdict == Fits
       <==> TotalSize(Busy(m)) <= max && forall id :: !TurnFails(m, max, stuck, id)
  {
    hide Limit, TotalSize, Reached, Missed, NoneFailsBefore, Busy;
    VerdictForetold(m, max, stuck);
  }

  /** The scan of a check runs off the end of the map exactly when, at the first turn that fails, the last key alone is evictable. */
  ghost predicate RunsOff(m: Entries, max: nat, stuck: set<string>) {
    exists id :: Reached(m, max, id) && OnlyLast(AtTurn(m, id)) && NoneFailsBefore(m, max, stuck, id)
  }

  lemma UndefinedIff(m: Entries, max: nat, stuck: set<string>)
    ensures Limit(m, max, stuck).verdict == Undefined <==> RunsOff(m, max, stuck)
  {
    hide Limit, TotalSize, Sooner, Evictable, NoneFailsBefore, OnlyLast, BusyInTheWay, AtTurn;
    VerdictForetold(m, max, stuck);
    if RunsOff(m, max, stuck) {
      var id :| Reached(m, max, id) && OnlyLast(AtTurn(m, id)) && NoneFailsBefore(m, max, stuck, id);
      assert FailsAt(m, max, stuck, id);
    }
    if id :| FailsAt(m, max, stuck, id) && Failure(m, id) == Undefined {
      assert Reached(m, max, id);
    }
  }

  /** An entry is evicted exactly when its turn is reached, none before it fails, and the scan comes to it. */
  lemma {:induction false} EvictedIff(m: Entries, max: nat, stuck: set<string>, id: string)
    requires id in m && Evictable(m[id])
    ensures id !in Limit(m, max, stuck).entries
       <==> Reached(m, max, id) && !Missed(m, id) && NoneFailsBefore(m, max, stuck, id)
    decreases |m|
  {
    hide ScanOf, TotalSize, Evictable, Sooner, Picks, OnlyLast, BusyInTheWay, NoneFailsBefore, Reached, AtTurn;
    ScanFails(m);
    if TotalSize(m) <= max {
      NothingReached(m, max, stuck);
    } else if ScanOf(m).PastEnd? {
      MissedStays(m, max, stuck, id);
    } else {
      ScanFindsBusy(m);
      var v := ScanOf(m).id;
      if !Evictable(m[v]) {
        MissedStays(m, max, stuck, id);
      } else {
        ScanPicks(m);
        TurnOfFirst(m, v);
        if v == id {
          FirstIsReached(m, max, stuck, v);
          EvictsOldestFirst(m - {v}, max, stuck);
        } else if v in stuck {
          FirstTurnFails(m, max, stuck, v);
        } else {
          EvictedIff(m - {v}, max, stuck, id);
          FirstTurnDone(m, max, stuck, v);
          OtherTurn(m, max, stuck, v, id);
          OtherFailure(m, max, stuck, v, id);
        }
      }
    }
  }

  lemma FirstIsReached(m: Entries, max: nat, stuck: set<string>, v: string)
    requires Picks(m, v) && TotalSize(m) > max
    ensures v in m && Reached(m, max, v) && NoneFailsBefore(m, max, stuck, v)
  {
    hide TotalSize, Evictable, Sooner, Picks, TurnFails;
    TurnOfFirst(m, v);
    PickedIsEntry(m, v);
  }

  lemma MissedStays(m: Entries, max: nat, stuck: set<string>, id: string)
    requires id in m && Evictable(m[id]) && TotalSize(m) > max && (OnlyLast(m) || BusyInTheWay(m))
    ensures !(!Missed(m, id) && NoneFailsBefore(m, max, stuck, id))
  {
    hide TotalSize, Evictable, Sooner, Picks, OnlyLast, BusyInTheWay, FailsAt, NoneFailsBefore;
    var v := FirstTurn(m, id);
    TurnOfFirst(m, v);
    FirstTurnFails(m, max, stuck, v);
  }

  /**
   Exactly when a lock finds its entry gone, or has no result because the check
   has none, told from the entries before the call.
   */
  ghost predicate LockLost(m: Entries, max: nat, stuck: set<string>, id: string) {
    || RunsOff(m, max, stuck)
    || (Reached(m, max, id) && TotalSize(Busy(m)) <= max && forall k :: !TurnFails(m, max, stuck, k))
  }

  lemma LockLostIff(m: Entries, max: nat, stuck: set<string>, id: string)
    requires id in m
    ensures LockLost(m, max, stuck, id)
       <==> var o := Limit(m, max, stuck); o.verdict == Undefined || (o.verdict == Fits && id !in o.entries)
  {
    hide Limit, TotalSize, NoneFailsBefore, RunsOff, Busy, Missed;
    UndefinedIff(m, max, stuck);
    FitsIff(m, max, stuck);
    if Evictable(m[id]) {
      EvictedIff(m, max, stuck, id);
      if forall k :: !TurnFails(m, max, stuck, k) {
        NoneFailing(m, max, stuck, id);
        assert !TurnFails(m, max, stuck, id);
      }
    } else {
      EvictsOldestFirst(m, max, stuck);
    }
  }

  lemma NoneFailing(m: Entries, max: nat, stuck: set<string>, id: string)
    requires id in m && forall k :: !TurnFails(m, max, stuck, k)
    ensures NoneFailsBefore(m, max, stuck, id)
  {
    hide TurnFails;
  }

  // ------------------------------------------------------------------
  // One cache for each way to fail
  // ------------------------------------------------------------------

  lemma TwoTotals(a: string, x: Entry, b: string, y: Entry)
    requires a != b
    ensures TotalSize(map[a := x]) == x.size && TotalSize(map[a := x, b := y]) == x.size + y.size
  {
    EmptyTotal();
    RemoveSize(map[a := x], a);
    assert map[a := x] - {a} == map[];
    RemoveSize(map[a := x, b := y], b);
    assert map[a := x, b := y] - {b} == map[a := x];
  }

  /** The one resource of a cache is too big and free: the scan runs off the end of the map. */
  lemma OnlyEntryTooBig()
    ensures var m := map["a" := Entry(Unlocked, 0, 10, 1, 0)]; Limit(m, 5, {}) == Outcome(m, Undefined)
  {
    hide ScanOf;
    var e := Entry(Unlocked, 0, 10, 1, 0);
    var m := map["a" := e];
    TwoTotals("a", e, "b", e);
    assert OnlyLast(m);
    ScanFails(m);
  }

  /** An old locked resource behind a free one: nothing is evicted, though evicting the free one would do. */
  lemma LockedEntryInTheWay()
    ensures var m := map["a" := Entry(Unlocked, 0, 10, 1, 2), "b" := Entry(Locked, 0, 3, 1, 1)];
            Limit(m, 5, {}) == Outcome(m, OldestInUse) && TotalSize(m - {"a"}) <= 5
  {
    hide ScanOf;
    var x, y := Entry(Unlocked, 0, 10, 1, 2), Entry(Locked, 0, 3, 1, 1);
    var m := map["a" := x, "b" := y];
    TwoTotals("a", x, "b", y);
    TwoTotals("b", y, "a", x);
    assert m - {"a"} == map["b" := y];
    assert Before("a", "b");
    assert Passed(m, "b") by { assert Evictable(m["a"]); }
    assert BusyInTheWay(m);
    BusyBehindEvictable(m);
    ScanFails(m);
    ScanFindsBusy(m);
  }

  /** Locking the oldest of two free resources in an overfull cache evicts the very entry to be locked. */
  lemma VictimIsTheLockedOne()
    ensures var m := map["a" := Entry(Unlocked, 0, 10, 1, 1), "b" := Entry(Unlocked, 0, 3, 1, 2)];
            Limit(m, 5, {}) == Outcome(m - {"a"}, Fits)
  {
    hide ScanOf;
    var x, y := Entry(Unlocked, 0, 10, 1, 1), Entry(Unlocked, 0, 3, 1, 2);
    var m := map["a" := x, "b" := y];
    TwoTotals("a", x, "b", y);
    TwoTotals("b", y, "a", x);
    assert m - {"a"} == map["b" := y];
    ScanFails(m);
    assert Evictable(m["a"]) && Evictable(m["b"]);
    assert !OnlyLast(m);
    ScanFinds(m);
    assert ScanOf(m) == Oldest("a");
  }

  /** Two free resources, both too big: the first goes, and the scan for the second runs off the end of the map. */
  lemma SecondScanRunsOff()
    ensures var m := map["a" := Entry(Unlocked, 0, 10, 1, 1), "b" := Entry(Unlocked, 0, 10, 1, 2)];
            !OnlyLast(m) && Limit(m, 5, {}) == Outcome(m - {"a"}, Undefined)
  {
    hide ScanOf;
    var x, y := Entry(Unlocked, 0, 10, 1, 1), Entry(Unlocked, 0, 10, 1, 2);
    var m := map["a" := x, "b" := y];
    TwoTotals("a", x, "b", y);
    TwoTotals("b", y, "a", x);
    var rest := map["b" := y];
    assert m - {"a"} == rest;
    assert Evictable(m["a"]) && Evictable(m["b"]);
    ScanFails(m);
    ScanFinds(m);
    assert ScanOf(m) == Oldest("a");
    assert OnlyLast(rest);
    ScanFails(rest);
  }

  /** Of two free resources of the same time the scan picks the second: it starts there. */
  lemma TieTakesSecond()
    ensures ScanOf(map["a" := Entry(Unlocked, 0, 10, 1, 7), "b" := Entry(Unlocked, 0, 10, 1, 7)]) == Oldest("b")
  {
    hide ScanOf;
    var x := Entry(Unlocked, 0, 10, 1, 7);
    var m := map["a" := x, "b" := x];
    assert Before("a", "b");
    TieOfTwo(m, "a", "b");
    hide Before, Preferred, StartsScan, Adjacent, Evictable, Passed, OnlyLast;
    ScanFails(m);
    ScanFinds(m);
    NotBothPreferred(m, "a", "b");
  }

  lemma TieOfTwo(m: Entries, a: string, b: string)
    requires m.Keys == {a, b} && Before(a, b) && Evictable(m[a]) && Evictable(m[b])
    requires m[a].lastModified == m[b].lastModified
    ensures Preferred(m, b, a) && Passed(m, a) && Passed(m, b) && !OnlyLast(m)
  {
    hide Before, Evictable;
    NotBefore(a, b);
    BeforeIrreflexive(a);
    BeforeIrreflexive(b);
    assert StartsScan(m, a) && Adjacent(m, a, b);
  }
}
