/**
 The disk cache of webrtc/base/diskcache.cc: locking, accounting and eviction.
 File operations are outside the model: their outcomes (sizes found, opens and
 deletions that succeed or fail) and the time are parameters.  A call that has no
 result is one whose behaviour in the code is undefined.
 */
module DiskCache {
  import opened Arith
  import opened Bytes
  import opened StringOrder
  import opened DiskEntries
  import opened DiskFiles
  import opened Eviction
  import opened EvictionTurns

  class Cache {
    var maxCache: nat
    var totalSize: nat
    var totalAccessors: nat
    var entries: Entries
    ghost var open: seq<Stream>
    ghost var disk: Disk

    /** The accounting invariant, kept by every operation. */
    ghost predicate Valid()
      reads this
    {
      Consistent(entries, totalSize, totalAccessors, open)
    }

    /** No file has two writers or was left behind, and every entry has the size of its files. */
    ghost predicate InOrder()
      reads this
    {
      Tidy(entries, open, disk)
    }

    constructor (maxCache: nat)
      ensures Valid() && InOrder() && this.maxCache == maxCache && entries == map[] && open == [] && disk == map[]
    {
      this.maxCache := maxCache;
      totalSize, totalAccessors, entries, open, disk := 0, 0, map[], [], map[];
    }

    /** Then the total is the number of bytes in all files that no writer has open. */
    lemma TotalIsBytesOnDisk()
      requires Valid() && InOrder()
      ensures totalSize == SizeSum(disk)
    {
      hide TotalSize, SizeSum, StreamsMatch;
      TotalIsOnDisk(entries, disk);
    }

    /** Deletes an entry unless it is locked or in use; `filesDeleted` tells whether all its files went as well. */
    method DeleteResource(id: string, filesDeleted: bool) returns (ok: bool)
      requires Valid()
      modifies this`entries, this`totalSize, this`disk
      ensures Valid()
      ensures old(InOrder()) && (ok || entries == old(entries)) ==> InOrder()
      ensures !ok && entries == old(entries) ==> disk == old(disk)
      ensures ok ==> disk == if id in old(entries) then old(disk) - FilesOf(old(disk), id).Keys else old(disk)
      ensures id !in old(entries) ==> ok && entries == old(entries)
      ensures id in old(entries) && (old(entries)[id].lockState != Unlocked || old(entries)[id].accessors > 0) ==>
                !ok && entries == old(entries)
      ensures id in old(entries) && old(entries)[id].lockState == Unlocked && old(entries)[id].accessors == 0 ==>
                ok == filesDeleted && entries == old(entries) - {id}
    {
      if id !in entries {
        return true;
      }
      var entry := entries[id];
      if entry.lockState != Unlocked || entry.accessors > 0 {
        return false;
      }
      EraseKeeps(entries, totalSize, totalAccessors, open, id);
      NoneOpen(open, id);
      if InOrder() {
        TidyErase(entries, open, disk, id);
      }
      totalSize := totalSize - entry.size;
      entries := entries - {id};
      if filesDeleted {
        disk := disk - FilesOf(disk, id).Keys;
      } else {
        ghost var left: set<nat> := *;
        disk := map f | f in disk && (f.0 != id || f.1 in left) :: disk[f];
      }
      return filesDeleted;
    }

    /** One scan of CheckLimit over the entries in the order of their keys. */
    method FindOldest() returns (scan: Scan)
      ensures scan == ScanOf(entries)
    {
      hide Listing, Evictable, Before, LeastFrom;
      ListingKeys(entries);
      var keys := Listing(entries.Keys);
      var first := FindFirst(keys);
      if first == |keys| {
        return AllBusy;
      }
      if first + 1 == |keys| {
        return PastEnd;
      }
      var oldest := FindLeast(keys, first, first + 1);
      return Oldest(keys[oldest]);
    }

    /** The first loop of the scan: to the first entry that is neither locked nor in use. */
    method FindFirst(keys: seq<string>) returns (first: nat)
      requires AreKeys(entries, keys)
      ensures first == FirstEvictable(entries, keys, 0)
    {
      first := 0;
      while first < |keys| && (entries[keys[first]].lockState != Unlocked || entries[keys[first]].accessors > 0)
        invariant first <= |keys| && FirstEvictable(entries, keys, first) == FirstEvictable(entries, keys, 0)
      {
        first := first + 1;
      }
    }

    /** The second loop: from `first` on, starting with its successor as the oldest. */
    method FindLeast(keys: seq<string>, first: nat, second: nat) returns (oldest: nat)
      requires AreKeys(entries, keys) && first < second < |keys|
      ensures oldest == LeastFrom(entries, keys, first, second)
    {
      oldest := second;
      var it := first;
      while it < |keys|
        invariant first <= it <= |keys| && oldest < |keys|
        invariant LeastFrom(entries, keys, it, oldest) == LeastFrom(entries, keys, first, second)
      {
        if entries[keys[it]].lastModified < entries[keys[oldest]].lastModified {
          oldest := it;
        }
        it := it + 1;
      }
    }

    /** Evicts until the cache fits; the files of `stuck` entries cannot be deleted. */
    method CheckLimit(stuck: set<string>) returns (verdict: Verdict)
      requires Valid()
      modifies this`entries, this`totalSize, this`disk
      ensures Valid()
      ensures old(InOrder()) && verdict != NotDeleted ==> InOrder()
      ensures old(totalSize) <= maxCache ==> verdict == Fits && entries == old(entries) && disk == old(disk)
      ensures Outcome(entries, verdict) == Limit(old(entries), maxCache, stuck)
      ensures verdict == Fits ==> totalSize <= maxCache
      ensures verdict == Undefined <==> RunsOff(old(entries), maxCache, stuck)
    {
      hide StreamsMatch, ScanOf, Evictable, TotalSize, TotalAccessors, RunsOff, Tidy;
      UndefinedIff(entries, maxCache, stuck);
      while totalSize > maxCache
        invariant Valid() && Limit(entries, maxCache, stuck) == Limit(old(entries), maxCache, stuck)
        invariant old(InOrder()) ==> InOrder()
        invariant old(totalSize) <= maxCache ==> totalSize == old(totalSize) && entries == old(entries) && disk == old(disk)
        decreases |entries|
      {
        var scan := FindOldest();
        if scan.AllBusy? {
          return AllInUse;
        }
        if scan.PastEnd? {
          return Undefined;
        }
        ScanFindsBusy(entries);
        EvictableMeans(entries[scan.id]);
        var deleted := DeleteResource(scan.id, scan.id !in stuck);
        if !deleted {
          return if scan.id in entries then OldestInUse else NotDeleted;
        }
      }
      return Fits;
    }

    /**
     Locks a resource, creating its entry if need be and making room if the cache
     is overfull.  There is no result when the check for room has none, and when
     it evicts the entry that is then to be marked.
     */
    method LockResource(id: string, now: int, stuck: set<string>) returns (r: Option<bool>)
      requires Valid()
      modifies this`entries, this`totalSize, this`disk
      ensures Valid()
      ensures old(InOrder()) && Limit(Created(old(entries), id, now), maxCache, stuck).verdict != NotDeleted ==> InOrder()
      ensures id in old(entries) && (old(entries)[id].lockState == Locked
                                     || (old(entries)[id].lockState == Unlocked && old(entries)[id].accessors > 0)) ==>
                r == Some(false) && entries == old(entries)
      ensures old(totalSize) <= maxCache
              && (id in old(entries) ==> old(entries)[id].lockState == Unlocking
                                         || (old(entries)[id].lockState == Unlocked && old(entries)[id].accessors == 0)) ==>
                && r == Some(true)
                && entries == old(entries)[id := if id in old(entries) then old(entries)[id].(lockState := Locked)
                                                 else Entry(Locked, 0, 0, 0, now)]
      ensures var m := Created(old(entries), id, now);
              var o := Limit(m, maxCache, stuck);
              if !Lockable(m[id]) then r == Some(false) && entries == m
              else if o.verdict == Undefined || (o.verdict == Fits && id !in o.entries) then r == None && entries == o.entries
              else if o.verdict == Fits then r == Some(true) && entries == o.entries[id := m[id].(lockState := Locked)]
              else r == Some(false) && entries == o.entries
      ensures var m := Created(old(entries), id, now);
              r == None <==> Lockable(m[id]) && LockLost(m, maxCache, stuck, id)
    {
      hide StreamsMatch, ScanOf, Evictable, TotalSize, TotalAccessors, LockLost, RunsOff, Tidy;
      ghost var m := Created(entries, id, now);
      LockLostIff(m, maxCache, stuck, id);
      CreateKeeps(entries, totalSize, totalAccessors, open, id, now);
      if InOrder() {
        TidyCreate(entries, open, disk, id, now);
      }
      if id !in entries {
        entries := entries[id := Entry(Unlocked, 0, 0, 0, now)];
      }
      var entry := entries[id];
      if entry.lockState == Locked {
        return Some(false);
      }
      if entry.lockState == Unlocked && entry.accessors > 0 {
        return Some(false);
      }
      if totalSize > maxCache {
        EvictsOldestFirst(m, maxCache, stuck);
        var verdict := CheckLimit(stuck);
        if verdict == Undefined {
          return None;
        }
        if verdict != Fits {
          return Some(false);
        }
        if id !in entries {
          return None;
        }
      }
      ChangeKeeps(entries, totalSize, totalAccessors, open, id, entry.(lockState := Locked));
      if InOrder() {
        TidyChange(entries, open, disk, id, entry.(lockState := Locked));
      }
      entries := entries[id := entry.(lockState := Locked)];
      return Some(true);
    }

    /** `previousSize` is the size of the file found under the stream's name, `openOk` whether it could be opened. */
    method WriteResource(id: string, index: nat, previousSize: nat, openOk: bool) returns (stream: Option<Stream>)
      requires Valid() && id in entries
      modifies this`entries, this`totalSize, this`totalAccessors, this`open, this`disk
      ensures Valid()
      ensures old(InOrder()) && previousSize == SizeOnDisk(old(disk), (id, index)) && NoWriter(old(open), id, index) ==>
                InOrder()
      ensures stream.Some? ==> disk == old(disk) - {(id, index)}
      ensures stream.Some? <==> old(entries)[id].lockState == Locked && openOk
      ensures stream.None? ==> unchanged(this)
      ensures stream.Some? ==>
                && stream.value == Stream(id, index, true) && open == old(open) + [stream.value]
                && entries == old(entries)[id := AfterOpening(old(entries)[id], index, previousSize)]
                && entries[id] == old(entries)[id].(accessors := old(entries)[id].accessors + 1,
                                                    size := old(entries)[id].size - Min(previousSize, old(entries)[id].size),
                                                    streams := Max(old(entries)[id].streams, index + 1))
    {
      hide Consistent, Tidy;
      var entry := entries[id];
      if entry.lockState != Locked {
        return None;
      }
      var previous := Min(previousSize, entry.size);
      if !openOk {
        return None;
      }
      var e := entry.(streams := Max(entry.streams, index + 1), size := entry.size - previous, accessors := entry.accessors + 1);
      var s := Stream(id, index, true);
      OpenKeeps(entries, totalSize, totalAccessors, open, s, e);
      if InOrder() && previousSize == SizeOnDisk(disk, (id, index)) && NoWriter(open, id, index) {
        TidyOpen(entries, open, disk, id, index, previousSize);
      }
      disk := disk - {(id, index)};
      entries := entries[id := e];
      totalSize := totalSize - previous;
      totalAccessors := totalAccessors + 1;
      open := open + [s];
      return Some(s);
    }

    method UnlockResource(id: string, now: int, stuck: set<string>) returns (r: Option<bool>)
      requires Valid() && id in entries
      modifies this`entries, this`totalSize, this`disk
      ensures Valid()
      ensures old(InOrder())
              && Limit(old(entries)[id := old(entries)[id].(lockState := Unlocked, lastModified := now)], maxCache, stuck).verdict
                 != NotDeleted ==>
                InOrder()
      ensures var e := old(entries)[id];
              if e.lockState != Locked then r == Some(false) && entries == old(entries)
              else if e.accessors > 0 then r == Some(true) && entries == old(entries)[id := e.(lockState := Unlocking)]
              else
                var o := Limit(old(entries)[id := e.(lockState := Unlocked, lastModified := now)], maxCache, stuck);
                entries == o.entries && r == if o.verdict == Undefined then None else Some(true)
    {
      hide Consistent, Limit, Tidy;
      var entry := entries[id];
      if entry.lockState != Locked {
        return Some(false);
      }
      if InOrder() {
        TidyChange(entries, open, disk, id, entry.(lockState := Unlocking));
        TidyChange(entries, open, disk, id, entry.(lockState := Unlocked, lastModified := now));
      }
      if entry.accessors > 0 {
        ChangeKeeps(entries, totalSize, totalAccessors, open, id, entry.(lockState := Unlocking));
        entries := entries[id := entry.(lockState := Unlocking)];
      } else {
        ChangeKeeps(entries, totalSize, totalAccessors, open, id, entry.(lockState := Unlocked, lastModified := now));
        entries := entries[id := entry.(lockState := Unlocked, lastModified := now)];
        var verdict := CheckLimit(stuck);
        if verdict == Undefined {
          return None;
        }
      }
      return Some(true);
    }

    method ReadResource(id: string, index: nat, openOk: bool) returns (stream: Option<Stream>)
      requires Valid() && id in entries
      modifies this`entries, this`totalAccessors, this`open
      ensures Valid() && (old(InOrder()) ==> InOrder())
      ensures stream.Some? <==> old(entries)[id].lockState == Unlocked && index < old(entries)[id].streams && openOk
      ensures stream.None? ==> unchanged(this)
      ensures stream.Some? ==>
                && stream.value == Stream(id, index, false) && open == old(open) + [stream.value]
                && entries == old(entries)[id := old(entries)[id].(accessors := old(entries)[id].accessors + 1)]
    {
      hide Consistent, Tidy;
      var entry := entries[id];
      if entry.lockState != Unlocked {
        return None;
      }
      if index >= entry.streams {
        return None;
      }
      if !openOk {
        return None;
      }
      var s := Stream(id, index, false);
      OpenKeeps(entries, totalSize, totalAccessors, open, s, entry.(accessors := entry.accessors + 1));
      if InOrder() {
        TidyOpenReader(entries, open, disk, id, index);
      }
      entries := entries[id := entry.(accessors := entry.accessors + 1)];
      totalAccessors := totalAccessors + 1;
      open := open + [s];
      return Some(s);
    }

    /**
     Closes the `i`-th open stream; `newSize` is the size of the file it leaves
     behind.  The call is `defined` unless a check for room is not.
     */
    method ReleaseResource(i: nat, id: string, newSize: nat, now: int, stuck: set<string>) returns (defined: bool)
      requires Valid() && i < |open| && open[i].id == id
      modifies this`entries, this`totalSize, this`totalAccessors, this`open, this`disk
      ensures Valid() && id in old(entries) && old(entries)[id].accessors >= 1
      ensures old(InOrder())
              && Limit(old(entries)[id := AfterRelease(old(entries)[id], newSize, now)], maxCache, stuck).verdict
                 != NotDeleted ==>
                InOrder()
      ensures old(entries)[id].lockState == Locked
              || (old(entries)[id].lockState == Unlocking && old(entries)[id].accessors > 1) ==>
                && totalSize == old(totalSize) + newSize && disk == old(disk)[(id, old(open)[i].index) := newSize]
                && entries == old(entries)[id := old(entries)[id].(size := old(entries)[id].size + newSize,
                                                                   accessors := old(entries)[id].accessors - 1)]
      ensures old(entries)[id].lockState == Unlocked ==>
                && totalSize == old(totalSize) && disk == old(disk)
                && entries == old(entries)[id := old(entries)[id].(accessors := old(entries)[id].accessors - 1)]
      ensures open == old(open)[..i] + old(open)[i + 1..] && totalAccessors == old(totalAccessors) - 1
      ensures var e := old(entries)[id];
              var m := old(entries)[id := AfterRelease(e, newSize, now)];
              if e.lockState == Unlocking && e.accessors == 1 then
                AfterRelease(e, newSize, now) == Entry(Unlocked, 0, e.size + newSize, e.streams, now) &&
                var o := Limit(m, maxCache, stuck);
                entries == o.entries && (defined <==> o.verdict != Undefined)
              else entries == m && defined
    {
      hide Limit, Tidy, Consistent;
      assert id in entries && entries[id].accessors >= 1 by { OpenHasEntry(entries, totalSize, totalAccessors, open, i); }
      var entry := entries[id];
      CloseStream(i, id, newSize, now);
      if entry.lockState == Unlocking && entry.accessors == 1 {
        var verdict := CheckLimit(stuck);
        return verdict != Undefined;
      }
      return true;
    }

    /** The part of ReleaseResource before the check: counters, size and lock state. */
    method CloseStream(i: nat, id: string, newSize: nat, now: int)
      requires Valid() && i < |open| && open[i].id == id && id in entries && entries[id].accessors >= 1
      modifies this`entries, this`totalSize, this`totalAccessors, this`open, this`disk
      ensures Valid() && (old(InOrder()) ==> InOrder())
      ensures open == old(open)[..i] + old(open)[i + 1..] && totalAccessors == old(totalAccessors) - 1
      ensures entries == old(entries)[id := AfterRelease(old(entries)[id], newSize, now)]
      ensures if old(entries)[id].lockState == Unlocked then totalSize == old(totalSize) && disk == old(disk)
              else totalSize == old(totalSize) + newSize && disk == old(disk)[(id, old(open)[i].index) := newSize]
    {
      hide Tidy, TotalSize, TotalAccessors;
      var entry := entries[id];
      assert open[i] in open;
      assert open[i].writer <==> entry.lockState != Unlocked;
      var e := AfterRelease(entry, newSize, now);
      if InOrder() {
        TidyClose(entries, open, disk, i, newSize, now);
      }
      hide Consistent;
      CloseKeeps(entries, totalSize, totalAccessors, open, i, e);
      entries := entries[id := e];
      totalAccessors := totalAccessors - 1;
      totalSize := totalSize - entry.size + e.size;
      disk := AfterClosing(disk, open[i], newSize);
      open := open[..i] + open[i + 1..];
    }
  }
}
