/**
 Rotating log files, from webrtc/base/filerotatingstream.cc: the plain stream
 that keeps the newest bytes, and the call-session stream that changes its file
 size and rotation index as it goes so that the beginning of the log survives as
 well.
 */
module RotatingLog {
  import opened Arith
  import opened Bytes
  import opened LogNames
  import opened StringOrder

  /** The files of the log directory. */
  type Directory = map<string, seq<byte>>

  function Get(dir: Directory, name: string): Option<seq<byte>> {
    if name in dir then Some(dir[name]) else None
  }

  datatype StreamResult = Error | Success | Block | EndOfStream

  /** Which OnRotation is in force. */
  datatype Kind = Plain(fileSize: nat) | CallSession(maxTotal: nat)

  const ROTATING_LOG_FILE_DEFAULT_SIZE := 1024 * 1024

  function NumRotatingLogFiles(maxTotal: nat): (r: nat)
    ensures r >= 2
  {
    var n := maxTotal / 2 / ROTATING_LOG_FILE_DEFAULT_SIZE;
    if n < 2 then 2 else n
  }

  function RotatingLogSize(maxTotal: nat): (s: nat)
    ensures maxTotal >= 4 ==> s >= 1
    ensures NumRotatingLogFiles(maxTotal) * s <= maxTotal / 2
  {
    if NumRotatingLogFiles(maxTotal) > 2 then ROTATING_LOG_FILE_DEFAULT_SIZE else maxTotal / 4
  }

  /** From 6 MiB on the rotating files are of 1 MiB each, as many as fit in half of the limit; below, they are two quarters. */
  lemma SizesInNumbers(maxTotal: nat)
    ensures var r, size := NumRotatingLogFiles(maxTotal), RotatingLogSize(maxTotal);
            if maxTotal >= 0x600000 then
              size == 0x100000 && r * 0x100000 <= maxTotal / 2 < (r + 1) * 0x100000
            else r == 2 && size == maxTotal / 4
  {
  }

  /** The size of the `k`-th file to be filled. */
  function SegmentSize(kind: Kind, k: nat): nat {
    match kind
    case Plain(size) => size
    case CallSession(max) => if k == 0 then max / 2 else RotatingLogSize(max)
  }

  /** A file the session has filled and rotated away from index 0. */
  type Segment = seq<byte>

  ghost predicate SegmentsFull(kind: Kind, segments: seq<Segment>) {
    forall k :: 0 <= k < |segments| ==> |segments[k]| == SegmentSize(kind, k)
  }

  /** The segment in the file with index `i`, once `count` of them have been filled. */
  function SegmentAt(kind: Kind, numFiles: nat, count: nat, i: nat): nat
    requires 1 <= i <= count && i < numFiles
  {
    if kind.CallSession? && i == numFiles - 1 then 0 else count - i
  }

  /** The file with index `i` in terms of the segments filled so far. */
  ghost function Slot(kind: Kind, numFiles: nat, segments: seq<Segment>, i: nat): Option<Segment>
    requires 1 <= i < numFiles
  {
    if i <= |segments| then Some(segments[SegmentAt(kind, numFiles, |segments|, i)]) else None
  }

  /** Which matching files exist and what the rotated ones hold. */
  ghost predicate Layout(kind: Kind, stem: string, names: seq<string>, dir: Directory, segments: seq<Segment>) {
    && (forall i :: 1 <= i < |names| ==> Get(dir, names[i]) == Slot(kind, |names|, segments, i))
    && (forall f :: f in dir && stem <= f ==> f in names)
  }

  /** The index of the file deleted by the rotation after `count` others. */
  function RotationIndex(kind: Kind, numFiles: nat, count: nat): nat
    requires numFiles >= 2
  {
    if kind.CallSession? && count >= numFiles - 1 then numFiles - 2 else numFiles - 1
  }

  class FileRotatingStream {
    const kind: Kind
    const stem: string
    const fileNames: seq<string>
    var isOpen: bool
    var maxFileSize: nat
    var rotationIndex: nat
    var currentBytesWritten: nat
    var numRotations: nat
    var dir: Directory
    ghost var segments: seq<Segment>

    /** The bytes in the file being written. */
    ghost function Current(): seq<byte>
      reads this
      requires fileNames != [] && fileNames[0] in dir
    {
      dir[fileNames[0]]
    }

    /** Every byte the session has accepted. */
    ghost function Written(): seq<byte>
      reads this
      requires fileNames != [] && fileNames[0] in dir
    {
      Flatten(segments) + Current()
    }

    ghost predicate Configured()
      reads this
    {
      && |fileNames| >= 2
      && fileNames == FileNames(stem, |fileNames|)
      && match kind
         case Plain(size) => size > 0
         case CallSession(max) => max >= 4 && |fileNames| == NumRotatingLogFiles(max) + 1
    }

    /** What the fields hold after `count` rotations. */
    ghost predicate SettingsAfter(count: nat)
      reads this
      requires Configured()
    {
      && maxFileSize == SegmentSize(kind, count)
      && rotationIndex == RotationIndex(kind, |fileNames|, count)
      && (kind.CallSession? ==> numRotations == count)
    }

    ghost predicate Settings()
      reads this
      requires Configured()
    {
      SettingsAfter(|segments|)
    }

    ghost predicate Valid()
      reads this
    {
      && Configured() && Settings() && Layout(kind, stem, fileNames, dir, segments) && SegmentsFull(kind, segments)
      && isOpen
      && fileNames[0] in dir
      && currentBytesWritten == |Current()| < maxFileSize
    }

    constructor Create(stem: string, maxFileSize: nat, numFiles: nat, dir: Directory)
      requires maxFileSize > 0 && numFiles > 1
      ensures Configured() && kind == Plain(maxFileSize) && |fileNames| == numFiles && this.stem == stem
      ensures this.maxFileSize == maxFileSize && rotationIndex == numFiles - 1
      ensures !isOpen && numRotations == 0 && this.dir == dir && currentBytesWritten == 0
    {
      this.kind, this.stem, this.fileNames := Plain(maxFileSize), stem, FileNames(stem, numFiles);
      this.isOpen, this.maxFileSize, this.rotationIndex := false, maxFileSize, numFiles - 1;
      this.currentBytesWritten, this.numRotations, this.dir := 0, 0, dir;
      this.segments := [];
    }

    constructor CreateCallSession(stem: string, maxTotal: nat, dir: Directory)
      requires maxTotal >= 4
      ensures Configured() && kind == CallSession(maxTotal) && this.stem == stem
      ensures maxFileSize == maxTotal / 2 && rotationIndex == |fileNames| - 1
      ensures !isOpen && numRotations == 0 && this.dir == dir && currentBytesWritten == 0
    {
      var numFiles := NumRotatingLogFiles(maxTotal) + 1;
      this.kind, this.stem, this.fileNames := CallSession(maxTotal), stem, FileNames(stem, numFiles);
      this.isOpen, this.maxFileSize, this.rotationIndex := false, maxTotal / 2, numFiles - 1;
      this.currentBytesWritten, this.numRotations, this.dir := 0, 0, dir;
      this.segments := [];
    }

    /** Starts the session: matching files go, files of other prefixes stay. */
    method Open()
      requires Configured() && !isOpen && numRotations == 0 && currentBytesWritten == 0
      requires maxFileSize == SegmentSize(kind, 0) && rotationIndex == |fileNames| - 1
      modifies this
      ensures Valid() && Written() == []
      ensures forall f :: !(stem <= f) ==> Get(dir, f) == Get(old(dir), f)
    {
      hide FileName, NumRotatingLogFiles, RotatingLogSize;
      StemOfNames(stem, |fileNames|);
      NamesDistinct(stem, |fileNames|);
      segments := [];
      var matching := set f | f in dir && stem <= f;
      dir := dir - matching;
      OpenCurrentFile();
      assert fileNames[0] in fileNames;
      forall i | 1 <= i < |fileNames|
        ensures Get(dir, fileNames[i]) == None
      {
        assert fileNames[i] in fileNames && fileNames[i] != fileNames[0];
      }
    }

    method OpenCurrentFile()
      requires Configured()
      modifies this`isOpen, this`dir
      ensures isOpen && dir == old(dir)[fileNames[0] := []]
    {
      dir := dir[fileNames[0] := []];
      isOpen := true;
    }

    method CloseCurrentFile()
      modifies this`isOpen, this`currentBytesWritten
      ensures !isOpen
      ensures currentBytesWritten == if old(isOpen) then 0 else old(currentBytesWritten)
    {
      if !isOpen {
        return;
      }
      currentBytesWritten := 0;
      isOpen := false;
    }

    /** Makes room at index 0: the oldest file goes, the others move up by one. */
    method ShiftFiles()
      requires Configured() && 1 <= rotationIndex < |fileNames|
      modifies this`dir
      ensures MovedUp(old(dir), dir, fileNames, 0, rotationIndex)
    {
      hide FileName, FileNames, Distinct, MovedUp;
      NamesDistinct(stem, |fileNames|);
      var fileToDelete := fileNames[rotationIndex];
      if fileToDelete in dir {
        dir := dir - {fileToDelete};
      }
      DeleteOne(old(dir), dir, fileNames, rotationIndex);
      var i := rotationIndex;
      while i > 0
        invariant 0 <= i <= rotationIndex
        invariant MovedUp(old(dir), dir, fileNames, i, rotationIndex)
      {
        var rotatedName := fileNames[i];
        var unrotatedName := fileNames[i - 1];
        ghost var now := dir;
        if unrotatedName in dir {
          dir := (dir - {unrotatedName})[rotatedName := dir[unrotatedName]];
        }
        MoveOne(old(dir), now, dir, fileNames, i, rotationIndex);
        i := i - 1;
      }
    }

    /** The current file becomes the newest segment and an empty file takes its place. */
    method RotateFiles()
      requires Configured() && Settings() && Layout(kind, stem, fileNames, dir, segments)
      requires isOpen && fileNames[0] in dir
      modifies this
      ensures Configured() && Settings() && Layout(kind, stem, fileNames, dir, segments)
      ensures isOpen && fileNames[0] in dir && currentBytesWritten == 0
      ensures segments == old(segments) + [old(Current())] && Current() == []
      ensures forall f :: f !in fileNames ==> Get(dir, f) == Get(old(dir), f)
    {
      hide FileName, FileNames, RotatingLogSize, Distinct, Layout, MovedUp;
      NamesDistinct(stem, |fileNames|);
      CloseCurrentFile();
      ghost var was := dir;
      ShiftFiles();
      MovedThenOpened(was, dir, fileNames, rotationIndex);
      OpenCurrentFile();
      RotatedLayout(kind, stem, fileNames, was, dir, segments, was[fileNames[0]]);
      segments := segments + [was[fileNames[0]]];
      OnRotation();
    }

    /**
     `accepted` is how many of the offered bytes the file takes; if it takes none
     of them the write fails, and the caller's count is not set.  `count` is that
     count as the caller passes it in (zero without one): the code adds it all
     the same.  So the stream stays valid exactly when no failing write comes
     with a count left over from before.
     */
    method Write(data: seq<byte>, accepted: nat, count: nat) returns (result: StreamResult, written: nat)
      requires isOpen ==> Valid() && accepted <= Min(|data|, maxFileSize - currentBytesWritten)
      modifies this
      ensures result == if !old(isOpen) || (accepted == 0 && data != []) then Error else Success
      ensures !old(isOpen) ==> unchanged(this)
      ensures written == if result == Success then accepted else count
      ensures old(isOpen) ==> isOpen && (Valid() <==> result == Success || count == 0)
      ensures old(isOpen) && Valid() ==> Written() == old(Written()) + data[..accepted]
      ensures old(isOpen) ==> Configured() && fileNames[0] in dir
      ensures old(isOpen) && old(currentBytesWritten) + written < old(maxFileSize) ==>
                && segments == old(segments) && Current() == old(Current()) + data[..accepted]
                && currentBytesWritten == old(currentBytesWritten) + written
      ensures old(isOpen) && old(currentBytesWritten) + written >= old(maxFileSize) ==>
                segments == old(segments) + [old(Current()) + data[..accepted]] && Current() == []
      ensures old(isOpen) ==> forall f :: f !in fileNames ==> Get(dir, f) == Get(old(dir), f)
    {
      hide FileName, FileNames, RotatingLogSize, NumRotatingLogFiles, Distinct, Flatten, Layout;
      if !isOpen {
        return Error, count;
      }
      var remainingBytes := maxFileSize - currentBytesWritten;
      var writeLength := Min(|data|, remainingBytes);
      result, written := WriteToFile(data[..writeLength], accepted, count);
      assert data[..writeLength][..accepted] == data[..accepted];
      currentBytesWritten := currentBytesWritten + written;
      if currentBytesWritten >= maxFileSize {
        ghost var full := Current();
        RotateFiles();
        FlattenPush(old(segments), full);
        assert segments[|old(segments)|] == full;
        assert currentBytesWritten < maxFileSize by { SizesPositive(); }
        assert (Flatten(old(segments)) + full) + [] == Flatten(old(segments)) + full;
      }
      return result, written;
    }

    lemma SizesPositive()
      requires Configured() && Settings()
      ensures maxFileSize > 0
    {
    }

    /** FileStream's Write on the open file. */
    method WriteToFile(data: seq<byte>, accepted: nat, count: nat) returns (result: StreamResult, written: nat)
      requires Configured() && fileNames[0] in dir && Layout(kind, stem, fileNames, dir, segments)
      requires accepted <= |data|
      modifies this`dir
      ensures result == if accepted == 0 && data != [] then Error else Success
      ensures written == if result == Success then accepted else count
      ensures fileNames[0] in dir && Current() == old(Current()) + data[..accepted]
      ensures Layout(kind, stem, fileNames, dir, segments)
      ensures forall f :: f != fileNames[0] ==> Get(dir, f) == Get(old(dir), f)
    {
      hide FileName, FileNames, Distinct, Layout;
      NamesDistinct(stem, |fileNames|);
      ghost var was := dir;
      dir := dir[fileNames[0] := dir[fileNames[0]] + data[..accepted]];
      AppendKeepsLayout(kind, stem, fileNames, was, dir, segments);
      if accepted == 0 && data != [] {
        return Error, count;
      }
      return Success, accepted;
    }

    /**
     Adjusts size and rotation index for the next rotation: whatever their number
     so far, the fields are those the layout of the files calls for.
     */
    method OnRotation()
      requires Configured() && segments != [] && SettingsAfter(|segments| - 1)
      modifies this`numRotations, this`maxFileSize, this`rotationIndex
      ensures Settings()
    {
      match kind
      case Plain(_) =>
      case CallSession(max) =>
        numRotations := numRotations + 1;
        if numRotations == 1 {
          maxFileSize := RotatingLogSize(max);
        } else if numRotations == |fileNames| - 1 {
          rotationIndex := rotationIndex - 1;
        }
    }
  }

  /** One failing write with a left-over count of 5 on a new log: the stream counts bytes the file does not hold. */
  method FailedWriteMiscounts() returns (s: FileRotatingStream)
    ensures s.isOpen && s.Configured() && s.fileNames[0] in s.dir
    ensures s.Current() == [] && s.currentBytesWritten == 5 && !s.Valid()
  {
    hide FileName, FileNames, Layout, Flatten;
    s := new FileRotatingStream.Create("log", 10, 2, map[]);
    s.Open();
    assert s.Current() == [] by {
      assert s.Written() == Flatten(s.segments) + s.Current();
    }
    var result, written := s.Write([1], 0, 5);
    assert s.Current() == [];
  }

  ghost predicate Distinct(names: seq<string>) {
    forall i, j :: 0 <= i < j < |names| ==> names[i] != names[j]
  }

  /** Files `i+1..r` have taken the contents of their lower neighbours; files outside `i..r` are as before. */
  ghost predicate MovedUp(was: Directory, now: Directory, names: seq<string>, i: nat, r: nat)
    requires i <= r < |names|
  {
    && (forall k :: i < k <= r ==> Get(now, names[k]) == Get(was, names[k - 1]))
    && (forall k :: 0 <= k < |names| && (k < i || k > r) ==> Get(now, names[k]) == Get(was, names[k]))
    && (forall f :: f !in names ==> Get(now, f) == Get(was, f))
    && names[i] !in now
  }

  lemma DeleteOne(was: Directory, now: Directory, names: seq<string>, r: nat)
    requires r < |names| && Distinct(names)
    requires now == was - {names[r]}
    ensures MovedUp(was, now, names, r, r)
  {
  }

  lemma MoveOne(was: Directory, now: Directory, next: Directory, names: seq<string>, i: nat, r: nat)
    requires 0 < i <= r < |names| && Distinct(names)
    requires MovedUp(was, now, names, i, r)
    requires next == if names[i - 1] in now then (now - {names[i - 1]})[names[i] := now[names[i - 1]]] else now
    ensures MovedUp(was, next, names, i - 1, r)
  {
    var from, to := names[i - 1], names[i];
    assert from != to;
    assert forall f :: f != from && f != to ==> Get(next, f) == Get(now, f);
    forall k | 0 <= k < |names| && k != i && k != i - 1
      ensures Get(next, names[k]) == Get(now, names[k])
    {
      assert names[k] != from && names[k] != to;
    }
  }

  /** After a rotation the full file is the newest segment, and only the oldest unprotected one is gone. */
  lemma RotatedLayout(kind: Kind, stem: string, names: seq<string>, was: Directory, now: Directory,
                      segments: seq<Segment>, current: Segment)
    requires |names| >= 2 && (kind.CallSession? ==> |names| >= 3) && Distinct(names)
    requires Layout(kind, stem, names, was, segments) && Get(was, names[0]) == Some(current)
    requires Rotated(was, now, names, RotationIndex(kind, |names|, |segments|))
    ensures Layout(kind, stem, names, now, segments + [current])
  {
    var r := RotationIndex(kind, |names|, |segments|);
    forall i | 1 <= i < |names|
      ensures Get(now, names[i]) == Slot(kind, |names|, segments + [current], i)
    {
      if i == 1 {
        assert Get(now, names[1]) == Get(was, names[0]);
      } else if i <= r {
        assert Get(now, names[i]) == Get(was, names[i - 1]) == Slot(kind, |names|, segments, i - 1);
      } else {
        assert Get(now, names[i]) == Get(was, names[i]) == Slot(kind, |names|, segments, i);
      }
    }
    forall f | f in now && stem <= f
      ensures f in names
    {
      assert f !in names ==> Get(now, f) == Get(was, f);
    }
  }

  /** The outcome of a whole rotation at index `r`, with a fresh file at index 0. */
  ghost predicate Rotated(was: Directory, now: Directory, names: seq<string>, r: nat)
    requires r < |names|
  {
    && (forall k :: 1 <= k <= r ==> Get(now, names[k]) == Get(was, names[k - 1]))
    && (forall k :: r < k < |names| ==> Get(now, names[k]) == Get(was, names[k]))
    && (forall f :: f !in names ==> Get(now, f) == Get(was, f))
    && Get(now, names[0]) == Some([])
  }

  lemma MovedThenOpened(was: Directory, moved: Directory, names: seq<string>, r: nat)
    requires 1 <= r < |names| && Distinct(names) && MovedUp(was, moved, names, 0, r)
    ensures Rotated(was, moved[names[0] := []], names, r)
  {
    var now := moved[names[0] := []];
    forall k | 1 <= k < |names|
      ensures Get(now, names[k]) == Get(moved, names[k])
    {
      assert names[k] != names[0];
    }
  }

  lemma AppendKeepsLayout(kind: Kind, stem: string, names: seq<string>, was: Directory, now: Directory,
                          segments: seq<Segment>)
    requires |names| >= 2 && Distinct(names) && names[0] in was && names[0] in now
    requires Layout(kind, stem, names, was, segments)
    requires now == was[names[0] := now[names[0]]]
    ensures Layout(kind, stem, names, now, segments)
    ensures forall f :: f !in names ==> Get(now, f) == Get(was, f)
  {
    forall i | 1 <= i < |names|
      ensures Get(now, names[i]) == Get(was, names[i])
    {
      assert names[i] != names[0];
    }
  }

  lemma NamesDistinct(stem: string, numFiles: nat)
    ensures Distinct(FileNames(stem, numFiles))
  {
    hide FileName;
    FileNamesIncreasing(stem, numFiles);
    forall i, j | 0 <= i < j < numFiles
      ensures FileNames(stem, numFiles)[i] != FileNames(stem, numFiles)[j]
    {
      BeforeIrreflexive(FileNames(stem, numFiles)[i]);
    }
  }

  lemma StemOfNames(stem: string, numFiles: nat)
    ensures forall f :: f in FileNames(stem, numFiles) ==> stem <= f
  {
    forall i | 0 <= i < numFiles
      ensures stem <= FileNames(stem, numFiles)[i]
    {
      var name := FileName(stem, i, numFiles);
      assert name[..|stem|] == stem;
    }
  }

  // ------------------------------------------------------------------
  // What is retained
  // ------------------------------------------------------------------

  /** The files with indices below `n`, highest index first; a missing file contributes nothing. */
  ghost function OldestFirst(dir: Directory, names: seq<string>, n: nat): seq<byte>
    requires n <= |names|
  {
    if n == 0 then []
    else (if names[n - 1] in dir then dir[names[n - 1]] else []) + OldestFirst(dir, names, n - 1)
  }

  /** Below the protected file, the files hold the newest segments and the current bytes. */
  lemma {:induction false} NewestSegments(kind: Kind, stem: string, names: seq<string>, dir: Directory,
                                          segments: seq<Segment>, n: nat)
    requires 1 <= n <= |names| && (kind.CallSession? ==> n < |names|)
    requires Layout(kind, stem, names, dir, segments) && names[0] in dir
    ensures OldestFirst(dir, names, n)
         == Flatten(segments[|segments| - Min(n - 1, |segments|)..]) + dir[names[0]]
  {
    hide Layout, Flatten, OldestFirst;
    OldestFirstStep(dir, names, n);
    if n == 1 {
      assert segments[|segments|..] == [];
      FlattenNone<byte>();
    } else {
      NewestSegments(kind, stem, names, dir, segments, n - 1);
      LayoutAt(kind, stem, names, dir, segments, n - 1);
      if n - 1 <= |segments| {
        var k := |segments| - (n - 1);
        FlattenFrom(segments, k);
        assert segments[k] + (Flatten(segments[k + 1..]) + dir[names[0]])
            == (segments[k] + Flatten(segments[k + 1..])) + dir[names[0]];
      }
    }
  }

  lemma OldestFirstStep(dir: Directory, names: seq<string>, n: nat)
    requires 1 <= n <= |names|
    ensures OldestFirst(dir, names, 0) == []
    ensures OldestFirst(dir, names, n)
         == (if names[n - 1] in dir then dir[names[n - 1]] else []) + OldestFirst(dir, names, n - 1)
  {
  }

  lemma LayoutAt(kind: Kind, stem: string, names: seq<string>, dir: Directory, segments: seq<Segment>, i: nat)
    requires Layout(kind, stem, names, dir, segments) && 1 <= i < |names|
    ensures Get(dir, names[i]) == Slot(kind, |names|, segments, i)
  {
  }

  /** The end of a concatenation of full segments and a current file, by length. */
  lemma TailOfFlatten(segments: seq<Segment>, current: seq<byte>, k: nat)
    requires k <= |segments|
    ensures var w, tail := Flatten(segments) + current, Flatten(segments[k..]) + current;
            |tail| <= |w| && w[|w| - |tail|..] == tail
  {
    hide Flatten;
    assert segments == segments[..k] + segments[k..];
    FlattenConcat(segments[..k], segments[k..]);
    var w, tail := Flatten(segments) + current, Flatten(segments[k..]) + current;
    assert w == Flatten(segments[..k]) + tail;
  }

  lemma MinTimes(a: nat, b: nat, size: nat, c: nat)
    ensures Min(a * size + c, b * size + c) == Min(a, b) * size + c
  {
    if a <= b {
      assert a * size <= b * size;
    } else {
      assert b * size <= a * size;
    }
  }

  /** How many of `total` bytes survive in `slots` rotated files of `size` bytes and a current one. */
  function Kept(total: nat, slots: nat, size: nat): (keep: nat)
    requires size > 0
    ensures keep <= total
  {
    Min(total, slots * size + total % size)
  }

  lemma KeptMeans(total: nat, slots: nat, size: nat)
    requires size > 0
    ensures Kept(total, slots, size) == Min(total, slots * size + total % size)
  {
  }

  lemma KeptOfParts(q: nat, slots: nat, size: nat, c: nat)
    requires c < size
    ensures Kept(q * size + c, slots, size) == Min(q, slots) * size + c
  {
    Remainder(q, size, c);
    MinTimes(q, slots, size, c);
  }

  /**
   The plain stream with N files of M bytes keeps exactly the newest
   min(T, (N-1)*M + T mod M) of the T bytes written, in order.
   */
  lemma PlainRetainsNewest(s: FileRotatingStream)
    requires s.Valid() && s.kind.Plain?
    ensures var w, size, kept := s.Written(), s.kind.fileSize, OldestFirst(s.dir, s.fileNames, |s.fileNames|);
            var room := (|s.fileNames| - 1) * size + |w| % size;
            |kept| == (if |w| <= room then |w| else room) && |kept| <= |w| && kept == w[|w| - |kept|..]
  {
    hide FileName, FileNames, Layout, OldestFirst, Flatten, Kept;
    FilesOfPlain(s);
    NewestMeans(s.Written(), |s.fileNames| - 1, s.kind.fileSize, OldestFirst(s.dir, s.fileNames, |s.fileNames|));
  }

  lemma NewestMeans(w: seq<byte>, slots: nat, size: nat, kept: seq<byte>)
    requires size > 0 && kept == w[|w| - Kept(|w|, slots, size)..]
    ensures var room := slots * size + |w| % size;
            |kept| == (if |w| <= room then |w| else room) && |kept| <= |w| && kept == w[|w| - |kept|..]
  {
    hide Kept;
    KeptMeans(|w|, slots, size);
  }

  lemma FilesOfPlain(s: FileRotatingStream)
    requires s.Valid() && s.kind.Plain?
    ensures OldestFirst(s.dir, s.fileNames, |s.fileNames|)
         == s.Written()[|s.Written()| - Kept(|s.Written()|, |s.fileNames| - 1, s.kind.fileSize)..]
  {
    hide FileName, FileNames, Layout, OldestFirst, Flatten, Kept;
    var n, m, cur := |s.fileNames|, s.kind.fileSize, s.Current();
    var k := |s.segments| - Min(n - 1, |s.segments|);
    NewestSegments(s.kind, s.stem, s.fileNames, s.dir, s.segments, n);
    KeptIsTail(s.segments, cur, n - 1, m);
    TailOfFlatten(s.segments, cur, k);
  }

  /** What the call-session stream promises to keep of the bytes `w`: the first half, and the newest rest. */
  ghost function FirstAndLast(w: seq<byte>, maxTotal: nat): seq<byte>
    requires maxTotal >= 4
  {
    var head := Min(|w|, maxTotal / 2);
    var keep := Kept(|w| - head, NumRotatingLogFiles(maxTotal) - 1, RotatingLogSize(maxTotal));
    w[..head] + w[|w| - keep..]
  }

  lemma FirstAndLastMeans(w: seq<byte>, max: nat)
    requires max >= 4
    ensures var head, size := Min(|w|, max / 2), RotatingLogSize(max);
            var later := |w| - head;
            var keep := Min(later, (NumRotatingLogFiles(max) - 1) * size + later % size);
            FirstAndLast(w, max) == w[..head] + w[|w| - keep..]
  {
    hide NumRotatingLogFiles, RotatingLogSize;
  }

  /**
   The call-session stream keeps the first max/2 bytes for good, and of the U
   later ones the newest min(U, (R-1)*S + U mod S), for R rotating files of S bytes.
   */
  lemma CallSessionRetainsBothEnds(s: FileRotatingStream)
    requires s.Valid() && s.kind.CallSession?
    ensures OldestFirst(s.dir, s.fileNames, |s.fileNames|) == FirstAndLast(s.Written(), s.kind.maxTotal)
    ensures var w, max := s.Written(), s.kind.maxTotal;
            var head, size := Min(|w|, max / 2), RotatingLogSize(max);
            var later := |w| - head;
            var keep := Min(later, (NumRotatingLogFiles(max) - 1) * size + later % size);
            OldestFirst(s.dir, s.fileNames, |s.fileNames|) == w[..head] + w[|w| - keep..]
  {
    hide FileName, FileNames, Layout, NumRotatingLogFiles, RotatingLogSize, OldestFirst, FirstAndLast, Flatten;
    FilesOfCallSession(s);
    FirstAndLastMeans(s.Written(), s.kind.maxTotal);
  }

  lemma FilesOfCallSession(s: FileRotatingStream)
    requires s.Valid() && s.kind.CallSession?
    ensures OldestFirst(s.dir, s.fileNames, |s.fileNames|) == FirstAndLast(s.Written(), s.kind.maxTotal)
  {
    hide FileName, FileNames, Layout, NumRotatingLogFiles, RotatingLogSize, OldestFirst, FirstAndLast, Flatten;
    var max, n, q, cur := s.kind.maxTotal, |s.fileNames|, |s.segments|, s.Current();
    NewestSegments(s.kind, s.stem, s.fileNames, s.dir, s.segments, n - 1);
    TopFile(s);
    if q == 0 {
      assert s.segments[0..] == s.segments == [];
      NothingRotated(cur, max);
    } else {
      BothEndsOfSegments(s.segments, cur, max);
      if q >= n - 1 {
        assert s.segments[1..][(q - 1) - (n - 2)..] == s.segments[q - (n - 2)..];
      } else {
        assert s.segments[0..] == s.segments == [s.segments[0]] + s.segments[1..];
        FlattenConcat([s.segments[0]], s.segments[1..]);
        FlattenOne(s.segments[0]);
        assert s.segments[1..][0..] == s.segments[1..];
      }
    }
  }

  /**
   In numbers: once as many bytes as the limit are written, all but 2 MiB of the
   limit is in use; a limit below 6 MiB is used to at least three quarters.
   */
  lemma RetainedInNumbers(s: FileRotatingStream)
    requires s.Valid() && s.kind.CallSession? && |s.Written()| >= s.kind.maxTotal
    ensures var kept := |OldestFirst(s.dir, s.fileNames, |s.fileNames|)|;
            if s.kind.maxTotal >= 0x600000 then kept > s.kind.maxTotal - 0x200000 - 1
            else kept >= s.kind.maxTotal / 2 + s.kind.maxTotal / 4
  {
    hide OldestFirst, FirstAndLast, Layout, FileNames;
    CallSessionRetainsBothEnds(s);
    KeptInNumbers(s.Written(), s.kind.maxTotal);
  }

  lemma KeptInNumbers(w: seq<byte>, max: nat)
    requires max >= 4 && |w| >= max
    ensures if max >= 0x600000 then |FirstAndLast(w, max)| > max - 0x200000 - 1
            else |FirstAndLast(w, max)| >= max / 2 + max / 4
  {
    hide NumRotatingLogFiles, RotatingLogSize;
    SizesInNumbers(max);
    var r, size, u := NumRotatingLogFiles(max), RotatingLogSize(max), |w| - max / 2;
    assert (r - 1) * size <= u;
    assert Kept(u, r - 1, size) >= (r - 1) * size;
  }

  /** The contents expected by the unit tests for limits of 4 and 8 bytes. */
  lemma KnownRetention()
    ensures FirstAndLast([97, 98, 99, 100, 101], 4) == [97, 98, 101]
    ensures FirstAndLast([49, 50, 51, 52, 53, 54, 55, 56, 57], 8) == [49, 50, 51, 52, 55, 56, 57]
  {
    hide NumRotatingLogFiles, RotatingLogSize, Kept;
    SizesInNumbers(4);
    KeptMeans(3, 1, 1);
    SizesInNumbers(8);
    KeptMeans(5, 1, 2);
  }

  lemma NothingRotated(cur: seq<byte>, max: nat)
    requires max >= 4 && |cur| < max / 2
    ensures FirstAndLast(Flatten<byte>([]) + cur, max) == Flatten<byte>([]) + cur
  {
    hide NumRotatingLogFiles, RotatingLogSize;
    assert Flatten<byte>([]) + cur == cur;
    KeptOfParts(0, NumRotatingLogFiles(max) - 1, RotatingLogSize(max), 0);
  }

  /** The promise in terms of the segments: the first one, and the newest R-1 of the others. */
  lemma BothEndsOfSegments(segments: seq<Segment>, cur: seq<byte>, max: nat)
    requires max >= 4 && segments != [] && SegmentsFull(CallSession(max), segments) && |cur| < RotatingLogSize(max)
    ensures var later, r := segments[1..], NumRotatingLogFiles(max);
            var k := |later| - Min(r - 1, |later|);
            FirstAndLast(Flatten(segments) + cur, max) == segments[0] + (Flatten(later[k..]) + cur)
  {
    hide NumRotatingLogFiles, RotatingLogSize, Kept, Flatten, FirstAndLast, SegmentsFull, SegmentSize;
    var first, later, size, r := segments[0], segments[1..], RotatingLogSize(max), NumRotatingLogFiles(max);
    var k := |later| - Min(r - 1, |later|);
    LaterSegments(segments, max);
    TailOfFlatten(later, cur, k);
    var u, tail := Flatten(later) + cur, Flatten(later[k..]) + cur;
    assert (first + Flatten(later)) + cur == first + u;
    KeptIsTail(later, cur, r - 1, size);
    HeadAndTail(first, u, tail, max);
  }

  lemma LaterSegments(segments: seq<Segment>, max: nat)
    requires segments != [] && SegmentsFull(CallSession(max), segments)
    ensures |segments[0]| == max / 2
    ensures forall i :: 0 <= i < |segments| - 1 ==> |segments[1..][i]| == RotatingLogSize(max)
    ensures Flatten(segments) == segments[0] + Flatten(segments[1..])
  {
    hide RotatingLogSize;
  }

  lemma KeptIsTail(later: seq<Segment>, cur: seq<byte>, slots: nat, size: nat)
    requires |cur| < size && forall i :: 0 <= i < |later| ==> |later[i]| == size
    ensures Kept(|Flatten(later) + cur|, slots, size)
         == |Flatten(later[|later| - Min(slots, |later|)..]) + cur|
  {
    hide Kept, Flatten;
    FlattenUniform(later, size);
    FlattenUniform(later[|later| - Min(slots, |later|)..], size);
    KeptOfParts(|later|, slots, size, |cur|);
  }

  lemma HeadAndTail(first: seq<byte>, u: seq<byte>, tail: seq<byte>, max: nat)
    requires max >= 4 && |first| == max / 2 && |tail| <= |u| && u[|u| - |tail|..] == tail
    requires Kept(|u|, NumRotatingLogFiles(max) - 1, RotatingLogSize(max)) == |tail|
    ensures FirstAndLast(first + u, max) == first + tail
  {
    hide NumRotatingLogFiles, RotatingLogSize, Kept;
    var w := first + u;
    assert w[..max / 2] == first;
    assert w[|w| - |tail|..] == u[|u| - |tail|..];
  }

  lemma TopFile(s: FileRotatingStream)
    requires s.Configured() && s.kind.CallSession?
    requires Layout(s.kind, s.stem, s.fileNames, s.dir, s.segments)
    ensures OldestFirst(s.dir, s.fileNames, |s.fileNames|)
         == (if |s.segments| >= |s.fileNames| - 1 then s.segments[0] else [])
            + OldestFirst(s.dir, s.fileNames, |s.fileNames| - 1)
  {
    hide FileName, FileNames;
    var n := |s.fileNames|;
    assert Get(s.dir, s.fileNames[n - 1]) == Slot(s.kind, n, s.segments, n - 1);
  }

  /** Total disk use stays within the limit, even while the current file is full and waits for its rotation. */
  lemma CallSessionWithinLimit(s: FileRotatingStream)
    requires s.Configured() && s.Settings() && s.kind.CallSession?
    requires Layout(s.kind, s.stem, s.fileNames, s.dir, s.segments) && SegmentsFull(s.kind, s.segments)
    requires s.fileNames[0] in s.dir && |s.Current()| <= s.maxFileSize
    ensures |OldestFirst(s.dir, s.fileNames, |s.fileNames|)| <= s.kind.maxTotal
  {
    hide FileName, FileNames, NumRotatingLogFiles, RotatingLogSize, OldestFirst, Flatten, Layout;
    var max, n, q := s.kind.maxTotal, |s.fileNames|, |s.segments|;
    var size, m := RotatingLogSize(max), Min(n - 2, q);
    NewestSegments(s.kind, s.stem, s.fileNames, s.dir, s.segments, n - 1);
    TopFile(s);
    if q < n - 1 {
      AllSegments(s);
    } else {
      FlattenUniform(s.segments[q - m..], size);
      assert (n - 2) * size + size == (n - 1) * size;
    }
  }

  lemma AllSegments(s: FileRotatingStream)
    requires s.Configured() && s.Settings() && s.kind.CallSession? && SegmentsFull(s.kind, s.segments)
    requires s.fileNames[0] in s.dir && |s.Current()| <= s.maxFileSize && |s.segments| < |s.fileNames| - 1
    ensures |Flatten(s.segments)| + |s.Current()| <= s.kind.maxTotal
  {
    hide FileName, FileNames, NumRotatingLogFiles, RotatingLogSize, Flatten;
    var max, q := s.kind.maxTotal, |s.segments|;
    var size := RotatingLogSize(max);
    if q == 0 {
      assert s.segments == [] && Flatten(s.segments) == [] by { FlattenNone<byte>(); }
    } else {
      LaterSegments(s.segments, max);
      FlattenUniform(s.segments[1..], size);
      SlotsBound(q - 1, |s.fileNames| - 1, size, |s.Current()|);
    }
  }

  lemma SlotsBound(q: nat, slots: nat, size: nat, c: nat)
    requires q < slots && c <= size
    ensures q * size + c <= slots * size
  {
    MulMonotone(q + 1, slots, size);
    assert (q + 1) * size == q * size + size;
  }
}
