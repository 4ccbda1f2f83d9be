/**
 The files behind the disk cache of webrtc/base/diskcache.cc: the size of an
 entry is that of its files, as long as no file has two writers and none is left
 behind by a deletion.
 */
module DiskFiles {
  import opened Arith
  import opened DiskEntries

  /** The sizes of the files that no writer has open, by resource and stream. */
  type Disk = map<(string, nat), nat>

  ghost function SizeSum(d: Disk): nat {
    if d == map[] then 0 else var f :| f in d; d[f] + SizeSum(d - {f})
  }

  lemma {:induction false} RemoveFile(d: Disk, f: (string, nat))
    requires f in d
    ensures SizeSum(d) == d[f] + SizeSum(d - {f})
    decreases |d|
  {
    var g :| g in d && SizeSum(d) == d[g] + SizeSum(d - {g});
    if g != f {
      RemoveFile(d - {g}, f);
      RemoveFile(d - {f}, g);
      assert d - {g} - {f} == d - {f} - {g};
    }
  }

  lemma NoFiles()
    ensures SizeSum(map[]) == 0
  {
  }

  function FilesOf(d: Disk, id: string): Disk {
    map f | f in d && f.0 == id :: d[f]
  }

  function SizeOnDisk(d: Disk, f: (string, nat)): nat {
    if f in d then d[f] else 0
  }

  /** Leaves out the file, and changes the sum by its size. */
  lemma WithoutFile(d: Disk, f: (string, nat), id: string)
    ensures SizeSum(FilesOf(d - {f}, id)) == SizeSum(FilesOf(d, id)) - if f.0 == id then SizeOnDisk(d, f) else 0
  {
    if f.0 == id && f in d {
      assert FilesOf(d - {f}, id) == FilesOf(d, id) - {f};
      RemoveFile(FilesOf(d, id), f);
    } else {
      assert FilesOf(d - {f}, id) == FilesOf(d, id);
    }
  }

  lemma WithFile(d: Disk, f: (string, nat), size: nat, id: string)
    requires f !in d
    ensures SizeSum(FilesOf(d[f := size], id)) == SizeSum(FilesOf(d, id)) + if f.0 == id then size else 0
  {
    WithoutFile(d[f := size], f, id);
    assert d[f := size] - {f} == d;
  }

  // ------------------------------------------------------------------
  // Entries that count their files
  // ------------------------------------------------------------------

  /** Every entry has the size of its files. */
  ghost predicate SizesCount(m: Entries, d: Disk) {
    forall id :: id in m ==> m[id].size == SizeSum(FilesOf(d, id))
  }

  /** There are no other files than those of the entries' streams. */
  ghost predicate NoneLeftBehind(m: Entries, d: Disk) {
    forall f :: f in d ==> f.0 in m && f.1 < m[f.0].streams
  }

  ghost predicate NoWriter(open: seq<Stream>, id: string, index: nat) {
    forall s :: s in open && s.writer && s.id == id ==> s.index != index
  }

  /** A file has at most one writer, and is not counted while it has. */
  ghost predicate OneWriterEach(m: Entries, open: seq<Stream>, d: Disk) {
    && (forall s :: s in open && s.writer ==> (s.id, s.index) !in d && s.id in m && s.index < m[s.id].streams)
    && (forall i, j :: 0 <= i < j < |open| && open[i].writer && open[j].writer ==>
          open[i].id != open[j].id || open[i].index != open[j].index)
  }

  ghost predicate Tidy(m: Entries, open: seq<Stream>, d: Disk) {
    SizesCount(m, d) && NoneLeftBehind(m, d) && OneWriterEach(m, open, d)
  }

  /** Then the sizes of the entries add up to the bytes on disk. */
  lemma {:induction false} TotalIsOnDisk(m: Entries, d: Disk)
    requires SizesCount(m, d) && NoneLeftBehind(m, d)
    ensures TotalSize(m) == SizeSum(d)
    decreases |m|
  {
    hide TotalSize, SizeSum;
    if m == map[] {
      assert d == map[];
      NoFiles();
      NoEntries();
    } else {
      var id :| id in m;
      var n, rest := m - {id}, d - FilesOf(d, id).Keys;
      RemoveSize(m, id);
      forall k | k in n
        ensures n[k].size == SizeSum(FilesOf(rest, k))
      {
        assert FilesOf(rest, k) == FilesOf(d, k);
      }
      TotalIsOnDisk(n, rest);
      SplitSum(d, id);
    }
  }

  lemma NoEntries()
    ensures TotalSize(map[]) == 0
  {
  }

  lemma {:induction false} SplitSum(d: Disk, id: string)
    ensures SizeSum(d) == SizeSum(FilesOf(d, id)) + SizeSum(d - FilesOf(d, id).Keys)
    decreases |FilesOf(d, id)|
  {
    hide SizeSum;
    var part := FilesOf(d, id);
    if part == map[] {
      NoFiles();
      assert d - part.Keys == d;
    } else {
      var f :| f in part;
      var e := d - {f};
      assert FilesOf(e, id) == part - {f};
      RemoveFile(d, f);
      RemoveFile(part, f);
      SplitSum(e, id);
      assert e - FilesOf(e, id).Keys == d - part.Keys;
    }
  }

  // What each call does to the files.

  /** Changing an entry's state or stamp leaves its files counted. */
  lemma TidyChange(m: Entries, open: seq<Stream>, d: Disk, id: string, e: Entry)
    requires Tidy(m, open, d) && id in m && e.size == m[id].size && e.streams == m[id].streams
    ensures Tidy(m[id := e], open, d)
  {
    hide SizeSum;
  }

  lemma TidyCreate(m: Entries, open: seq<Stream>, d: Disk, id: string, now: int)
    requires Tidy(m, open, d)
    ensures Tidy(Created(m, id, now), open, d)
  {
    hide SizeSum;
    if id !in m {
      assert FilesOf(d, id) == map[];
      NoFiles();
    }
  }

  lemma TidyErase(m: Entries, open: seq<Stream>, d: Disk, id: string)
    requires Tidy(m, open, d) && id in m && forall s :: s in open ==> s.id != id
    ensures Tidy(m - {id}, open, d - FilesOf(d, id).Keys)
  {
    hide SizeSum;
    var rest := d - FilesOf(d, id).Keys;
    forall k | k in m && k != id
      ensures FilesOf(rest, k) == FilesOf(d, k)
    {
    }
  }

  /**
   A writer is opened on a stream: the size of the entry is right afterwards if
   the file was counted with its size; and if it was not, because a writer has it
   open or a deletion left it behind, exactly if it is empty or nothing is counted.
   */
  lemma OpeningCounts(m: Entries, d: Disk, id: string, index: nat, previousSize: nat)
    requires SizesCount(m, d) && id in m && ((id, index) in d ==> previousSize == d[(id, index)])
    ensures SizesCount(m[id := AfterOpening(m[id], index, previousSize)], d - {(id, index)})
       <==> (id, index) in d || previousSize == 0 || m[id].size == 0
  {
    hide SizeSum;
    var f, e := (id, index), AfterOpening(m[id], index, previousSize);
    WithoutFile(d, f, id);
    if f in d {
      assert SizeSum(FilesOf(d, id)) >= d[f];
    }
    forall k | k in m && k != id
      ensures SizeSum(FilesOf(d - {f}, k)) == SizeSum(FilesOf(d, k))
    {
      WithoutFile(d, f, k);
    }
    assert m[id := e][id] == e;
  }

  lemma TidyOpen(m: Entries, open: seq<Stream>, d: Disk, id: string, index: nat, previousSize: nat)
    requires Tidy(m, open, d) && id in m && previousSize == SizeOnDisk(d, (id, index))
    requires NoWriter(open, id, index)
    ensures Tidy(m[id := AfterOpening(m[id], index, previousSize)], open + [Stream(id, index, true)], d - {(id, index)})
  {
    hide SizesCount;
    OpeningCounts(m, d, id, index, previousSize);
    var now := open + [Stream(id, index, true)];
    forall i, j | 0 <= i < j < |now| && now[i].writer && now[j].writer
      ensures now[i].id != now[j].id || now[i].index != now[j].index
    {
      assert now[i] == open[i] && open[i] in open;
      if j < |open| {
        assert now[j] == open[j];
      }
    }
  }

  lemma TidyOpenReader(m: Entries, open: seq<Stream>, d: Disk, id: string, index: nat)
    requires Tidy(m, open, d) && id in m
    ensures Tidy(m[id := m[id].(accessors := m[id].accessors + 1)], open + [Stream(id, index, false)], d)
  {
    hide SizeSum;
    TidyChange(m, open, d, id, m[id].(accessors := m[id].accessors + 1));
    var now := open + [Stream(id, index, false)];
    assert forall i :: 0 <= i < |now| && now[i].writer ==> i < |open| && now[i] == open[i];
  }

  /** The files after a stream is closed: a writer's file counts again, with the size it has then. */
  function AfterClosing(d: Disk, s: Stream, newSize: nat): Disk {
    if s.writer then d[(s.id, s.index) := newSize] else d
  }

  lemma TidyClose(m: Entries, open: seq<Stream>, d: Disk, i: nat, newSize: nat, now: int)
    requires Tidy(m, open, d) && StreamsMatch(m, open) && i < |open|
    ensures open[i] in open && open[i].id in m
    ensures Tidy(m[open[i].id := AfterRelease(m[open[i].id], newSize, now)], open[..i] + open[i + 1..],
                 AfterClosing(d, open[i], newSize))
  {
    hide SizesCount, NoneLeftBehind, OneWriterEach;
    var s := open[i];
    assert s in open;
    WritersLeft(m, open, d, i);
    var rest := open[..i] + open[i + 1..];
    if s.writer {
      WriterHasNoFile(m, open, d, s);
      ClosingCounts(m, d, s.id, s.index, newSize, now);
      FileBack(m, rest, d, s, newSize, AfterRelease(m[s.id], newSize, now));
    } else {
      TidyChange(m, rest, d, s.id, AfterRelease(m[s.id], newSize, now));
    }
  }

  lemma WriterHasNoFile(m: Entries, open: seq<Stream>, d: Disk, s: Stream)
    requires OneWriterEach(m, open, d) && s in open && s.writer
    ensures (s.id, s.index) !in d && s.id in m && s.index < m[s.id].streams
  {
  }

  /** The file of a closed writer is one of its entry's streams, and no other writer has it. */
  lemma FileBack(m: Entries, rest: seq<Stream>, d: Disk, s: Stream, newSize: nat, e: Entry)
    requires NoneLeftBehind(m, d) && OneWriterEach(m, rest, d)
    requires s.id in m && s.index < m[s.id].streams && e.streams == m[s.id].streams
    requires forall t :: t in rest && t.writer ==> t.id != s.id || t.index != s.index
    ensures NoneLeftBehind(m[s.id := e], d[(s.id, s.index) := newSize])
    ensures OneWriterEach(m[s.id := e], rest, d[(s.id, s.index) := newSize])
  {
  }

  lemma ClosingCounts(m: Entries, d: Disk, id: string, index: nat, newSize: nat, now: int)
    requires SizesCount(m, d) && id in m && m[id].lockState != Unlocked && (id, index) !in d
    ensures SizesCount(m[id := AfterRelease(m[id], newSize, now)], d[(id, index) := newSize])
  {
    hide SizeSum;
    forall k | k in m
      ensures SizeSum(FilesOf(d[(id, index) := newSize], k)) == SizeSum(FilesOf(d, k)) + if k == id then newSize else 0
    {
      WithFile(d, (id, index), newSize, k);
    }
  }

  /** Without the closed stream, the other writers still have their files to themselves. */
  lemma WritersLeft(m: Entries, open: seq<Stream>, d: Disk, i: nat)
    requires OneWriterEach(m, open, d) && i < |open|
    ensures OneWriterEach(m, open[..i] + open[i + 1..], d)
    ensures forall s :: s in open[..i] + open[i + 1..] && s.writer && open[i].writer ==>
              s.id != open[i].id || s.index != open[i].index
  {
    var rest := open[..i] + open[i + 1..];
    forall k | 0 <= k < |rest|
      ensures rest[k] == open[if k < i then k else k + 1]
    {
    }
  }

  /** A second writer on a file that has 3 bytes so far takes them off the 5 bytes of another file. */
  lemma SecondWriterMiscounts()
    ensures var m, d := map["a" := Entry(Locked, 1, 5, 2, 0)], map[("a", 0) := 5];
            var open := [Stream("a", 1, true)];
            && Tidy(m, open, d)
            && !SizesCount(m["a" := AfterOpening(m["a"], 1, 3)], d - {("a", 1)})
  {
    var m: Entries, d: Disk := map["a" := Entry(Locked, 1, 5, 2, 0)], map[("a", 0) := 5];
    assert FilesOf(d, "a") == d;
    RemoveFile(d, ("a", 0));
    assert d - {("a", 0)} == map[];
    OpeningCounts(m, d, "a", 1, 3);
  }
}
