/**
 Reading a rotated log back, from webrtc/base/filerotatingstream.cc: the files
 found in the directory are sorted by name and read from the last to the first.
 */
module LogReader {
  import opened Arith
  import opened Bytes
  import opened LogNames
  import opened StringOrder
  import opened RotatingLog

  /** `names` is the directory's sorted list of files whose name begins with `stem`. */
  ghost predicate IsSortedListing(names: seq<string>, dir: Directory, stem: string) {
    Increasing(names) && forall f :: f in names <==> f in dir && stem <= f
  }

  class FileRotatingReader {
    const dir: Directory
    const fileNames: seq<string>
    var currentFileIndex: nat
    var position: Option<nat>

    ghost predicate Valid()
      reads this
    {
      && (forall i :: 0 <= i < |fileNames| ==> fileNames[i] in dir)
      && currentFileIndex <= |fileNames|
      && (position.Some? ==> currentFileIndex < |fileNames|)
      && (position.Some? ==> position.value <= |dir[fileNames[currentFileIndex]]|)
    }

    /** The bytes still to be returned. */
    ghost function Remaining(): seq<byte>
      reads this
      requires Valid()
    {
      Unread(dir, fileNames, currentFileIndex, position)
    }

    /** How many bytes of the current file are still to be returned. */
    ghost function InFile(): nat
      reads this
      requires Valid() && currentFileIndex < |fileNames|
    {
      |dir[fileNames[currentFileIndex]]| - if position.Some? then position.value else 0
    }

    /** How many more successful reads there can be. */
    ghost function Left(): nat
      reads this
      requires Valid()
    {
      |Remaining()| + if currentFileIndex == |fileNames| then 0 else currentFileIndex + 1
    }

    constructor (dir: Directory, ghost stem: string, listing: seq<string>)
      requires IsSortedListing(listing, dir, stem)
      ensures Valid()
      ensures Remaining() == OldestFirst(dir, listing, |listing|)
    {
      this.dir, this.fileNames, this.position := dir, listing, None;
      currentFileIndex := if |listing| > 0 then |listing| - 1 else 0;
    }

    /**
     Each read returns the next bytes; an exhausted file yields an empty success
     and moves on to the next newer one.  `opens` and `readable` tell whether the
     operations on the current file succeed: a file that cannot be opened is
     tried again by the next read, one that cannot be read is given up.
     */
    method Read(bufferLen: nat, opens: bool, readable: bool)
      returns (result: StreamResult, bytes: seq<byte>)
      requires Valid()
      modifies this
      ensures Valid()
      ensures result == EndOfStream <==> old(currentFileIndex) == |fileNames|
      ensures result == EndOfStream ==> old(Remaining()) == []
      ensures result == Error <==> old(currentFileIndex) < |fileNames| && ((old(position).None? && !opens) || (!readable && bufferLen > 0))
      ensures result == Error ==> bytes == []
      ensures result == Error && old(position).None? && !opens ==> unchanged(this)
      ensures result == Error && (old(position).Some? || opens) ==>
                Remaining() == OldestFirst(dir, fileNames, old(currentFileIndex))
      ensures result != Error ==> bytes + Remaining() == old(Remaining())
      ensures result == Success ==> |bytes| == Min(bufferLen, old(InFile()))
      ensures result == EndOfStream ==> bytes == []
      ensures result == Success && bufferLen > 0 ==> Left() < old(Left())
      ensures result in {Success, Error, EndOfStream}
    {
      hide OldestFirst, Unread;
      if currentFileIndex >= |fileNames| {
        NothingUnread(dir, fileNames);
        return EndOfStream, [];
      }
      if position.None? {
        if !opens {
          return Error, [];
        }
        OpenedAtStart(dir, fileNames, currentFileIndex);
        position := Some(0);
      }
      var content := dir[fileNames[currentFileIndex]];
      var n := Min(bufferLen, |content| - position.value);
      if bufferLen > 0 && (n == 0 || !readable) {
        FileFinished(dir, fileNames, currentFileIndex);
        position := None;
        if currentFileIndex == 0 {
          currentFileIndex := |fileNames|;
        } else {
          currentFileIndex := currentFileIndex - 1;
        }
        return (if readable then Success else Error), [];
      }
      bytes := content[position.value..position.value + n];
      Advanced(dir, fileNames, currentFileIndex, position.value, n);
      position := Some(position.value + n);
      return Success, bytes;
    }

    /**
     Reads on until `bufferLen` bytes are there, the log is at its end or a file
     fails, which no file does if the log is `healthy`.
     */
    method ReadAll(bufferLen: nat, healthy: bool) returns (result: StreamResult, bytes: seq<byte>)
      requires Valid()
      modifies this
      ensures Valid()
      ensures healthy ==> result != Error
      ensures result == Error ==> bytes <= old(Remaining())
      ensures result != Error ==>
                && bytes + Remaining() == old(Remaining())
                && bytes == old(Remaining())[..Min(bufferLen, |old(Remaining())|)]
                && result == if bufferLen <= |old(Remaining())| then Success else EndOfStream
    {
      ghost var all := Remaining();
      result, bytes := Success, [];
      while |bytes| < bufferLen
        invariant Valid() && result == Success && |bytes| <= bufferLen
        invariant bytes + Remaining() == all
        decreases Left()
      {
        var opens: bool, readable: bool := *, *;
        var more;
        result, more := Read(bufferLen - |bytes|, healthy || opens, healthy || readable);
        if result != Success {
          break;
        }
        assert (bytes + more) + Remaining() == all;
        bytes := bytes + more;
      }
    }
  }

  /** What is still to be read at `position` of the file with index `i` and in all newer files. */
  ghost function Unread(dir: Directory, names: seq<string>, i: nat, position: Option<nat>): seq<byte>
    requires i < |names| ==> names[i] in dir && (position.Some? ==> position.value <= |dir[names[i]]|)
  {
    if i >= |names| then []
    else dir[names[i]][(if position.Some? then position.value else 0)..] + OldestFirst(dir, names, i)
  }

  lemma NothingUnread(dir: Directory, names: seq<string>)
    ensures Unread(dir, names, |names|, None) == []
  {
  }

  lemma OpenedAtStart(dir: Directory, names: seq<string>, i: nat)
    requires i < |names| && names[i] in dir
    ensures Unread(dir, names, i, None) == Unread(dir, names, i, Some(0))
  {
  }

  lemma Advanced(dir: Directory, names: seq<string>, i: nat, at: nat, n: nat)
    requires i < |names| && names[i] in dir && at + n <= |dir[names[i]]|
    ensures dir[names[i]][at..at + n] + Unread(dir, names, i, Some(at + n)) == Unread(dir, names, i, Some(at))
  {
    hide OldestFirst;
    hide Unread;
    UnreadAt(dir, names, i, at);
    UnreadAt(dir, names, i, at + n);
    SplitAt(dir[names[i]], at, n, OldestFirst(dir, names, i));
  }

  lemma UnreadAt(dir: Directory, names: seq<string>, i: nat, at: nat)
    requires i < |names| && names[i] in dir && at <= |dir[names[i]]|
    ensures Unread(dir, names, i, Some(at)) == dir[names[i]][at..] + OldestFirst(dir, names, i)
  {
    hide OldestFirst;
  }

  lemma SplitAt(content: seq<byte>, at: nat, n: nat, newer: seq<byte>)
    requires at + n <= |content|
    ensures content[at..at + n] + (content[at + n..] + newer) == content[at..] + newer
  {
    assert content[at..] == content[at..at + n] + content[at + n..];
  }

  /** Past the end of a file, what remains is the newer files. */
  lemma FileFinished(dir: Directory, names: seq<string>, i: nat)
    requires i < |names| && forall k :: 0 <= k < |names| ==> names[k] in dir
    ensures Unread(dir, names, i, Some(|dir[names[i]]|)) == OldestFirst(dir, names, i)
    ensures Unread(dir, names, if i == 0 then |names| else i - 1, None) == OldestFirst(dir, names, i)
    ensures forall at :: 0 <= at <= |dir[names[i]]| ==>
              |Unread(dir, names, i, Some(at))| >= |OldestFirst(dir, names, i)|
  {
    if i > 0 {
      assert dir[names[i - 1]][0..] == dir[names[i - 1]];
    }
  }

  /** The files a session leaves behind are the first of its names, so their sorted listing is known. */
  lemma ListingOfSession(s: FileRotatingStream, listing: seq<string>)
    requires s.Valid() && IsSortedListing(listing, s.dir, s.stem)
    ensures listing == s.fileNames[..Min(|s.segments| + 1, |s.fileNames|)]
  {
    hide FileName, FileNames;
    var m := Min(|s.segments| + 1, |s.fileNames|);
    FileNamesIncreasing(s.stem, |s.fileNames|);
    StemOfNames(s.stem, |s.fileNames|);
    forall f
      ensures f in listing <==> f in s.fileNames[..m]
    {
      if f in s.fileNames {
        var i :| 0 <= i < |s.fileNames| && s.fileNames[i] == f;
        if i > 0 {
          assert Get(s.dir, s.fileNames[i]) == Slot(s.kind, |s.fileNames|, s.segments, i);
        }
        assert f in s.dir <==> i < m;
        NameOnlyBelow(s.fileNames, i, m);
      }
    }
    SortedListingUnique(listing, s.fileNames[..m]);
  }

  lemma NameOnlyBelow(names: seq<string>, i: nat, m: nat)
    requires Increasing(names) && i < |names| && m <= |names|
    ensures names[i] in names[..m] <==> i < m
  {
    if names[i] in names[..m] {
      var k :| 0 <= k < m && names[k] == names[i];
      BeforeIrreflexive(names[i]);
    }
  }

  /** Missing files contribute nothing, so reading the listing is reading all the names. */
  lemma {:induction false} ShorterListing(dir: Directory, names: seq<string>, m: nat, n: nat)
    requires m <= n <= |names|
    requires forall i :: m <= i < n ==> names[i] !in dir
    ensures OldestFirst(dir, names, n) == OldestFirst(dir, names[..m], m)
  {
    if n > m {
      ShorterListing(dir, names, m, n - 1);
    } else if n > 0 {
      ShorterPrefix(dir, names, m, n);
    }
  }

  lemma {:induction false} ShorterPrefix(dir: Directory, names: seq<string>, m: nat, n: nat)
    requires n <= m <= |names|
    ensures OldestFirst(dir, names, n) == OldestFirst(dir, names[..m], n)
  {
    if n > 0 {
      ShorterPrefix(dir, names, m, n - 1);
    }
  }

  lemma ReadsWhatIsRetained(s: FileRotatingStream, listing: seq<string>)
    requires s.Valid() && IsSortedListing(listing, s.dir, s.stem)
    ensures OldestFirst(s.dir, listing, |listing|) == OldestFirst(s.dir, s.fileNames, |s.fileNames|)
  {
    hide FileName, FileNames;
    ListingOfSession(s, listing);
    var m := |listing|;
    forall i | m <= i < |s.fileNames|
      ensures s.fileNames[i] !in s.dir
    {
      assert Get(s.dir, s.fileNames[i]) == Slot(s.kind, |s.fileNames|, s.segments, i);
    }
    ShorterListing(s.dir, s.fileNames, m, |s.fileNames|);
  }

  /** Opening a call-session log for reading finds its first half and its newest bytes, in the order they were written. */
  lemma ReadBackCallSession(s: FileRotatingStream, listing: seq<string>)
    requires s.Valid() && s.kind.CallSession? && IsSortedListing(listing, s.dir, s.stem)
    ensures OldestFirst(s.dir, listing, |listing|) == FirstAndLast(s.Written(), s.kind.maxTotal)
  {
    ReadsWhatIsRetained(s, listing);
    CallSessionRetainsBothEnds(s);
  }

  /** What a session keeps of the bytes written. */
  ghost function Retained(s: FileRotatingStream): seq<byte>
    reads s
    requires s.Valid()
  {
    var w := s.Written();
    match s.kind
    case Plain(size) => w[|w| - Kept(|w|, |s.fileNames| - 1, size)..]
    case CallSession(max) => FirstAndLast(w, max)
  }

  /** A log of either kind that is opened again and read returns what was kept, as much as there is room for, and then ends. */
  method ReadSession(s: FileRotatingStream, listing: seq<string>, bufferLen: nat)
    returns (result: StreamResult, bytes: seq<byte>)
    requires s.Valid() && IsSortedListing(listing, s.dir, s.stem)
    ensures bytes == Retained(s)[..Min(bufferLen, |Retained(s)|)]
    ensures result == if bufferLen <= |Retained(s)| then Success else EndOfStream
  {
    hide Retained, IsSortedListing, OldestFirst;
    var reader := new FileRotatingReader(s.dir, s.stem, listing);
    ListingIsRetained(s, listing);
    result, bytes := reader.ReadAll(bufferLen, true);
  }

  lemma ListingIsRetained(s: FileRotatingStream, listing: seq<string>)
    requires s.Valid() && IsSortedListing(listing, s.dir, s.stem)
    ensures OldestFirst(s.dir, listing, |listing|) == Retained(s)
  {
    hide FirstAndLast, IsSortedListing, Kept, OldestFirst, FileNames, Layout, Flatten;
    ReadsWhatIsRetained(s, listing);
    if s.kind.Plain? {
      FilesOfPlain(s);
    } else {
      FilesOfCallSession(s);
    }
  }
}
