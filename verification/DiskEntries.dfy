/**
 The entries of the disk cache of webrtc/base/diskcache.cc, the sums kept over
 them and the streams open on them.
 */
module DiskEntries {
  import opened Arith

  datatype LockState = Unlocked | Locked | Unlocking

  datatype Entry = Entry(lockState: LockState, accessors: nat, size: nat, streams: nat, lastModified: int)

  /** An open stream on a resource. */
  datatype Stream = Stream(id: string, index: nat, writer: bool)

  type Entries = map<string, Entry>

  // ------------------------------------------------------------------
  // Sums over the entries
  // ------------------------------------------------------------------

  ghost function TotalSize(m: Entries): nat {
    if m == map[] then 0 else var id :| id in m; m[id].size + TotalSize(m - {id})
  }

  ghost function TotalAccessors(m: Entries): nat {
    if m == map[] then 0 else var id :| id in m; m[id].accessors + TotalAccessors(m - {id})
  }

  lemma RemoveEntry(m: Entries, id: string)
    requires id in m
    ensures TotalSize(m) == m[id].size + TotalSize(m - {id})
    ensures TotalAccessors(m) == m[id].accessors + TotalAccessors(m - {id})
  {
    RemoveSize(m, id);
    RemoveAccessors(m, id);
  }

  lemma {:induction false} RemoveSize(m: Entries, id: string)
    requires id in m
    ensures TotalSize(m) == m[id].size + TotalSize(m - {id})
    decreases |m|
  {
    var k :| k in m && TotalSize(m) == m[k].size + TotalSize(m - {k});
    if k != id {
      RemoveSize(m - {k}, id);
      RemoveSize(m - {id}, k);
      assert m - {k} - {id} == m - {id} - {k};
    }
  }

  lemma {:induction false} RemoveAccessors(m: Entries, id: string)
    requires id in m
    ensures TotalAccessors(m) == m[id].accessors + TotalAccessors(m - {id})
    decreases |m|
  {
    var k :| k in m && TotalAccessors(m) == m[k].accessors + TotalAccessors(m - {k});
    if k != id {
      RemoveAccessors(m - {k}, id);
      RemoveAccessors(m - {id}, k);
      assert m - {k} - {id} == m - {id} - {k};
    }
  }

  /** Replacing or adding one entry changes the sums by the difference of that entry. */
  lemma UpdateEntry(m: Entries, id: string, e: Entry)
    ensures TotalSize(m[id := e]) == e.size + TotalSize(m) - (if id in m then m[id].size else 0)
    ensures TotalAccessors(m[id := e]) == e.accessors + TotalAccessors(m) - (if id in m then m[id].accessors else 0)
  {
    var n := m[id := e];
    RemoveEntry(n, id);
    if id in m {
      RemoveEntry(m, id);
      assert n - {id} == m - {id};
    } else {
      assert n - {id} == m;
    }
  }

  // ------------------------------------------------------------------
  // Open streams
  // ------------------------------------------------------------------

  /** The number of open streams on `id`. */
  ghost function OpenOn(open: seq<Stream>, id: string): nat {
    if open == [] then 0 else (if open[0].id == id then 1 else 0) + OpenOn(open[1..], id)
  }

  lemma {:induction false} OpenOnConcat(a: seq<Stream>, b: seq<Stream>, id: string)
    ensures OpenOn(a + b, id) == OpenOn(a, id) + OpenOn(b, id)
  {
    if a == [] {
      assert a + b == b;
    } else {
      assert (a + b)[1..] == a[1..] + b;
      OpenOnConcat(a[1..], b, id);
    }
  }

  lemma OpenOnOne(s: Stream, id: string)
    ensures OpenOn([s], id) == if s.id == id then 1 else 0
  {
    assert OpenOn([s][1..], id) == 0;
  }

  lemma OpenOnPush(open: seq<Stream>, s: Stream, id: string)
    ensures OpenOn(open + [s], id) == OpenOn(open, id) + if s.id == id then 1 else 0
  {
    OpenOnConcat(open, [s], id);
    OpenOnOne(s, id);
  }

  lemma OpenOnRemove(open: seq<Stream>, i: nat, id: string)
    requires i < |open|
    ensures OpenOn(open, id) == OpenOn(open[..i] + open[i + 1..], id) + if open[i].id == id then 1 else 0
  {
    assert open == open[..i] + ([open[i]] + open[i + 1..]);
    OpenOnConcat(open[..i], [open[i]] + open[i + 1..], id);
    OpenOnConcat([open[i]], open[i + 1..], id);
    OpenOnOne(open[i], id);
    OpenOnConcat(open[..i], open[i + 1..], id);
  }

  lemma {:induction false} NoneOpen(open: seq<Stream>, id: string)
    ensures OpenOn(open, id) == 0 <==> forall s :: s in open ==> s.id != id
  {
    if open != [] {
      NoneOpen(open[1..], id);
      assert open == [open[0]] + open[1..];
    }
  }

  /** Every entry counts its open streams; they are writers unless it is unlocked; no stream is without entry. */
  ghost predicate StreamsMatch(m: Entries, open: seq<Stream>) {
    && (forall id :: id in m ==> m[id].accessors == OpenOn(open, id))
    && (forall s :: s in open ==> s.id in m && (s.writer <==> m[s.id].lockState != Unlocked))
  }

  ghost predicate Consistent(m: Entries, totalSize: nat, totalAccessors: nat, open: seq<Stream>) {
    && totalSize == TotalSize(m)
    && totalAccessors == TotalAccessors(m)
    && StreamsMatch(m, open)
  }

  lemma OpenHasEntry(m: Entries, totalSize: nat, totalAccessors: nat, open: seq<Stream>, i: nat)
    requires Consistent(m, totalSize, totalAccessors, open) && i < |open|
    ensures open[i].id in m && m[open[i].id].accessors >= 1
  {
    assert open[i] in open;
    NoneOpen(open, open[i].id);
  }

  /** No entry that is unlocked and unused loses anything but itself by being erased. */
  lemma EraseKeeps(m: Entries, totalSize: nat, totalAccessors: nat, open: seq<Stream>, id: string)
    requires Consistent(m, totalSize, totalAccessors, open) && id in m && m[id].accessors == 0
    ensures m[id].size <= totalSize
    ensures Consistent(m - {id}, totalSize - m[id].size, totalAccessors, open)
  {
    RemoveEntry(m, id);
    NoneOpen(open, id);
  }

  /** Changing an entry without opening or closing streams. */
  lemma ChangeKeeps(m: Entries, totalSize: nat, totalAccessors: nat, open: seq<Stream>, id: string, e: Entry)
    requires Consistent(m, totalSize, totalAccessors, open) && id in m && e.accessors == m[id].accessors
    requires e.accessors > 0 ==> (e.lockState == Unlocked <==> m[id].lockState == Unlocked)
    ensures totalSize - m[id].size + e.size >= 0
    ensures Consistent(m[id := e], totalSize - m[id].size + e.size, totalAccessors, open)
  {
    UpdateEntry(m, id, e);
    NoneOpen(open, id);
  }

  lemma CreateKeeps(m: Entries, totalSize: nat, totalAccessors: nat, open: seq<Stream>, id: string, now: int)
    requires Consistent(m, totalSize, totalAccessors, open)
    ensures Consistent(Created(m, id, now), totalSize, totalAccessors, open)
  {
    if id !in m {
      UpdateEntry(m, id, Entry(Unlocked, 0, 0, 0, now));
      NoneOpen(open, id);
    }
  }

  lemma OpenKeeps(m: Entries, totalSize: nat, totalAccessors: nat, open: seq<Stream>, s: Stream, e: Entry)
    requires Consistent(m, totalSize, totalAccessors, open) && s.id in m
    requires e.accessors == m[s.id].accessors + 1 && e.lockState == m[s.id].lockState
    requires s.writer <==> e.lockState != Unlocked
    ensures totalSize - m[s.id].size + e.size >= 0
    ensures Consistent(m[s.id := e], totalSize - m[s.id].size + e.size, totalAccessors + 1, open + [s])
  {
    UpdateEntry(m, s.id, e);
    forall id | id in m
      ensures m[s.id := e][id].accessors == OpenOn(open + [s], id)
    {
      OpenOnPush(open, s, id);
    }
  }

  lemma CloseKeeps(m: Entries, totalSize: nat, totalAccessors: nat, open: seq<Stream>, i: nat, e: Entry)
    requires Consistent(m, totalSize, totalAccessors, open) && i < |open|
    requires open[i].id in m && e.accessors == m[open[i].id].accessors - 1
    requires e.accessors > 0 ==> (e.lockState == Unlocked <==> m[open[i].id].lockState == Unlocked)
    ensures totalAccessors >= 1 && totalSize - m[open[i].id].size + e.size >= 0
    ensures Consistent(m[open[i].id := e], totalSize - m[open[i].id].size + e.size, totalAccessors - 1,
                       open[..i] + open[i + 1..])
  {
    var s, rest := open[i], open[..i] + open[i + 1..];
    UpdateEntry(m, s.id, e);
    forall id | id in m
      ensures m[s.id := e][id].accessors == OpenOn(rest, id)
    {
      OpenOnRemove(open, i, id);
    }
    NoneOpen(rest, s.id);
    assert forall t :: t in rest ==> t in open;
  }

  // ------------------------------------------------------------------
  // What each call does to one entry
  // ------------------------------------------------------------------

  /** The entries with a blank one for `id`, if there was none. */
  function Created(m: Entries, id: string, now: int): (r: Entries)
    ensures id in r
  {
    if id in m then m else m[id := Entry(Unlocked, 0, 0, 0, now)]
  }

  /** A lock is refused while another is held, and while readers are open. */
  predicate Lockable(e: Entry) {
    e.lockState != Locked && (e.lockState == Unlocked ==> e.accessors == 0)
  }

  /** The entry after a writer is opened on stream `index`: the bytes to be overwritten no longer count. */
  function AfterOpening(e: Entry, index: nat, previousSize: nat): Entry {
    e.(accessors := e.accessors + 1, size := e.size - Min(previousSize, e.size), streams := Max(e.streams, index + 1))
  }

  /** The entry after one of its streams is closed: a writer's file counts again, and the last writer completes the unlocking. */
  function AfterRelease(e: Entry, newSize: nat, now: int): Entry {
    var left := if e.accessors == 0 then 0 else e.accessors - 1;
    if e.lockState == Unlocked then e.(accessors := left)
    else if e.lockState == Unlocking && left == 0 then
      e.(lockState := Unlocked, accessors := left, size := e.size + newSize, lastModified := now)
    else e.(accessors := left, size := e.size + newSize)
  }
}
