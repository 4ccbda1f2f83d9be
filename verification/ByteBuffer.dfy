/**
 The growable byte buffer of webrtc/base/bytebuffer.cc.  It is a FIFO of bytes
 whose reads only move a position, so an earlier position can be restored as
 long as the stored bytes have not been moved: the version number tells.
 */
module ByteBuffer {
  import opened Arith
  import opened Bytes
  import opened ByteOrder

  datatype ReadPosition = ReadPosition(start: nat, version: nat)

  // ------------------------------------------------------------------
  // The state as a value, and what each call does to it
  // ------------------------------------------------------------------

  /** All bytes stored since the last move, the read position among them, and the allocation. */
  datatype State = State(stored: seq<byte>, start: nat, size: nat, version: nat) {
    predicate Valid() {
      start <= |stored| <= size
    }

    /** The unread bytes: the queue a user sees. */
    function Contents(): seq<byte>
      requires Valid()
    {
      stored[start..]
    }
  }

  datatype Op =
    | Write(bytes: seq<byte>)
    | Consume(count: nat)
    | Resize(newSize: nat)
    | Clear
    | Restore(position: ReadPosition)

  /** Moves the unread bytes to the front, truncated to `n`, in an allocation of at least `n` bytes. */
  function Resized(s: State, n: nat): State
    requires s.Valid()
  {
    State(s.Contents()[..Min(|s.Contents()|, n)], 0, if n <= s.size then s.size else Max(n, 3 * s.size / 2), s.version + 1)
  }

  function Reserved(s: State, n: nat): (r: State)
    requires s.Valid()
    ensures r.Valid() && |r.stored| + n <= r.size && r.Contents() == s.Contents()
    ensures r == s || r.version > s.version
  {
    if |s.Contents()| + n > s.size - s.start then Resized(s, |s.Contents()| + n) else s
  }

  /** A position can be restored when it comes from this version, where it lies within the stored bytes. */
  predicate Restorable(s: State, p: ReadPosition) {
    p.version == s.version ==> p.start <= |s.stored|
  }

  function Apply(s: State, op: Op): (r: State)
    requires s.Valid() && (op.Restore? ==> Restorable(s, op.position))
    ensures r.Valid()
  {
    match op
    case Write(b) => var t := Reserved(s, |b|); t.(stored := t.stored + b)
    case Consume(n) => if n > |s.Contents()| then s else s.(start := s.start + n)
    case Resize(n) => Resized(s, n)
    case Clear => State([], 0, s.size, s.version + 1)
    case Restore(p) => if p.version != s.version then s else s.(start := p.start)
  }

  // ------------------------------------------------------------------
  // A FIFO
  // ------------------------------------------------------------------

  /** What one step takes from the front of the queue. */
  function Taken(s: State, op: Op): seq<byte>
    requires s.Valid()
  {
    if op.Consume? && op.count <= |s.Contents()| then s.Contents()[..op.count] else []
  }

  /** Neither clears nor restores, nor resizes below the length of the contents. */
  predicate KeepsAll(s: State, op: Op)
    requires s.Valid()
  {
    !op.Clear? && !op.Restore? && (op.Resize? ==> op.newSize >= |s.Contents()|)
  }

  /** Writes append, reads take from the front, however the bytes are moved or reallocated. */
  lemma StepIsFifo(s: State, op: Op)
    requires s.Valid() && KeepsAll(s, op)
    ensures Taken(s, op) + Apply(s, op).Contents() == s.Contents() + if op.Write? then op.bytes else []
  {
    hide Apply;
    match op
    case Write(b) => WriteAppends(s, b);
    case Consume(n) => ConsumeTakes(s, n);
    case Resize(n) => ResizeKeeps(s, n);
  }

  lemma WriteAppends(s: State, b: seq<byte>)
    requires s.Valid()
    ensures Apply(s, Write(b)).Contents() == s.Contents() + b
  {
    hide Resized, Reserved;
    var t := Reserved(s, |b|);
    AppendedAtEnd(t.stored, t.start, b);
  }

  lemma ConsumeTakes(s: State, n: nat)
    requires s.Valid()
    ensures Taken(s, Consume(n)) + Apply(s, Consume(n)).Contents() == s.Contents()
  {
    hide Resized, Reserved;
    if n <= |s.Contents()| {
      TakenAtFront(s.stored, s.start, n);
    }
  }

  lemma ResizeKeeps(s: State, n: nat)
    requires s.Valid() && n >= |s.Contents()|
    ensures Apply(s, Resize(n)).Contents() == s.Contents()
  {
    hide Reserved;
    assert s.Contents()[..|s.Contents()|] == s.Contents();
  }

  lemma AppendedAtEnd(stored: seq<byte>, start: nat, b: seq<byte>)
    requires start <= |stored|
    ensures (stored + b)[start..] == stored[start..] + b
  {
  }

  lemma TakenAtFront(stored: seq<byte>, start: nat, n: nat)
    requires start + n <= |stored|
    ensures stored[start..][..n] + stored[start + n..] == stored[start..]
    ensures stored[start..][n..] == stored[start + n..]
    ensures stored[start..][..n] == stored[start..start + n]
  {
  }

  // ------------------------------------------------------------------
  // Restoring a position after any run
  // ------------------------------------------------------------------

  /** A run from `s` to `t`: every step is allowed where it happens. */
  ghost predicate Run(s: State, ops: seq<Op>, t: State)
    decreases |ops|
  {
    s.Valid() &&
    if ops == [] then s == t
    else (ops[0].Restore? ==> Restorable(s, ops[0].position)) && Run(Apply(s, ops[0]), ops[1..], t)
  }

  /** The bytes a run writes. */
  function WrittenBy(ops: seq<Op>): seq<byte> {
    if ops == [] then [] else (if ops[0].Write? then ops[0].bytes else []) + WrittenBy(ops[1..])
  }

  /** Every step of the run is one that keeps all unread bytes it does not take. */
  ghost predicate KeepsAllAlong(s: State, ops: seq<Op>)
    requires s.Valid()
    decreases |ops|
  {
    ops == [] || (KeepsAll(s, ops[0]) && KeepsAllAlong(Apply(s, ops[0]), ops[1..]))
  }

  /** The bytes a run takes from the front, in order. */
  ghost function TakenBy(s: State, ops: seq<Op>): seq<byte>
    requires s.Valid() && KeepsAllAlong(s, ops)
    decreases |ops|
  {
    if ops == [] then [] else Taken(s, ops[0]) + TakenBy(Apply(s, ops[0]), ops[1..])
  }

  /**
   The buffer is a FIFO over any run of writes, reads, failed reads and moves:
   the bytes taken, followed by those still unread, are the bytes unread at the
   start, followed by those written.
   */
  lemma {:induction false} RunIsFifo(s: State, ops: seq<Op>, t: State)
    requires Run(s, ops, t) && KeepsAllAlong(s, ops)
    ensures t.Valid() && TakenBy(s, ops) + t.Contents() == s.Contents() + WrittenBy(ops)
    decreases |ops|
  {
    hide Apply, Taken, KeepsAll;
    if ops == [] {
      assert [] + t.Contents() == s.Contents() + [];
    } else {
      var m, taken := Apply(s, ops[0]), Taken(s, ops[0]);
      var b := if ops[0].Write? then ops[0].bytes else [];
      RunIsFifo(m, ops[1..], t);
      StepIsFifo(s, ops[0]);
      Regroup(taken, TakenBy(m, ops[1..]), t.Contents(), m.Contents(), s.Contents(), b, WrittenBy(ops[1..]));
    }
  }

  lemma Regroup(taken: seq<byte>, takenLater: seq<byte>, left: seq<byte>, between: seq<byte>,
                first: seq<byte>, b: seq<byte>, bLater: seq<byte>)
    requires takenLater + left == between + bLater && taken + between == first + b
    ensures (taken + takenLater) + left == first + (b + bLater)
  {
    calc {
      (taken + takenLater) + left;
      taken + (takenLater + left);
      taken + (between + bLater);
      (taken + between) + bLater;
      (first + b) + bLater;
      first + (b + bLater);
    }
  }

  /** Versions never go back; while the version stays, the stored bytes only grow by what is written. */
  lemma {:induction false} StoredGrows(s: State, ops: seq<Op>, t: State)
    requires Run(s, ops, t)
    ensures t.Valid() && t.version >= s.version
    ensures t.version == s.version ==> t.stored == s.stored + WrittenBy(ops)
    decreases |ops|
  {
    hide Apply;
    if ops == [] {
      assert s.stored + [] == s.stored;
    } else {
      var m := Apply(s, ops[0]);
      StepStored(s, ops[0]);
      StoredGrows(m, ops[1..], t);
      if t.version == s.version {
        var b := if ops[0].Write? then ops[0].bytes else [];
        assert s.stored + b + WrittenBy(ops[1..]) == s.stored + (b + WrittenBy(ops[1..]));
      }
    }
  }

  lemma StepStored(s: State, op: Op)
    requires s.Valid() && (op.Restore? ==> Restorable(s, op.position))
    ensures Apply(s, op).version >= s.version
    ensures Apply(s, op).version == s.version ==> Apply(s, op).stored == s.stored + if op.Write? then op.bytes else []
  {
    assert s.stored + [] == s.stored;
  }

  /**
   A remembered position, if still accepted after any run of writes, reads,
   resizes and other restores, brings back exactly the bytes that were unread
   when it was taken, followed by those written since.
   */
  lemma PositionRestores(s: State, ops: seq<Op>, t: State)
    requires s.Valid() && Run(s, ops, t)
    ensures var p := ReadPosition(s.start, s.version);
            t.Valid() && Restorable(t, p) &&
            (p.version == t.version ==> Apply(t, Restore(p)).Contents() == s.Contents() + WrittenBy(ops))
  {
    hide Run, WrittenBy;
    StoredGrows(s, ops, t);
    if t.version == s.version {
      assert (s.stored + WrittenBy(ops))[s.start..] == s.stored[s.start..] + WrittenBy(ops);
    }
  }

  /** Once the bytes have been moved or cleared, no earlier position is accepted any more. */
  lemma {:induction false} MovedRefusesPosition(s: State, ops: seq<Op>, t: State, i: nat)
    requires Run(s, ops, t) && i < |ops| && (ops[i].Resize? || ops[i].Clear?)
    ensures t.version > s.version
    decreases |ops|
  {
    hide Apply;
    var m := Apply(s, ops[0]);
    StepStored(s, ops[0]);
    if i == 0 {
      StoredGrows(m, ops[1..], t);
      MoveRaisesVersion(s, ops[0]);
    } else {
      MovedRefusesPosition(m, ops[1..], t, i - 1);
    }
  }

  lemma MoveRaisesVersion(s: State, op: Op)
    requires s.Valid() && (op.Resize? || op.Clear?)
    ensures Apply(s, op).version == s.version + 1
  {
  }

  // ------------------------------------------------------------------
  // The object
  // ------------------------------------------------------------------

  // memmove and memcpy, each with its effect on the sequence of bytes.

  method MoveToFront(a: array<byte>, from: nat, len: nat)
    requires from + len <= a.Length
    modifies a
    ensures a[..len] == old(a[from..from + len])
  {
    forall i | 0 <= i < len {
      a[i] := a[from + i];
    }
  }

  method CopyToNew(a: array<byte>, from: nat, len: nat, size: nat) returns (b: array<byte>)
    requires from + len <= a.Length && len <= size
    ensures fresh(b) && b.Length == size && b[..len] == a[from..from + len]
  {
    b := new byte[size](_ => 0);
    forall i | 0 <= i < len {
      b[i] := a[from + i];
    }
  }

  method CopyBehind(a: array<byte>, at: nat, val: seq<byte>)
    requires at + |val| <= a.Length
    modifies a
    ensures a[..at + |val|] == old(a[..at]) + val
  {
    forall i | 0 <= i < |val| {
      a[at + i] := val[i];
    }
  }

  class Buffer {
    var bytes: array<byte>
    var start: nat
    var end: nat
    var version: nat
    const order: Order
    const hostBig: bool

    ghost predicate Valid()
      reads this
    {
      start <= end <= bytes.Length
    }

    ghost function Value(): (s: State)
      reads this, bytes
      requires Valid()
      ensures s.Valid()
    {
      State(bytes[..end], start, bytes.Length, version)
    }

    constructor (initial: seq<byte>, capacity: nat, order: Order, hostBig: bool)
      requires |initial| <= capacity
      ensures Valid() && Value() == State(initial, 0, capacity, 0) && this.order == order && this.hostBig == hostBig
      ensures fresh(bytes)
    {
      this.order, this.hostBig := order, hostBig;
      start, end, version := 0, |initial|, 0;
      bytes := new byte[capacity](i => if 0 <= i < |initial| then initial[i] else 0);
      new;
      assert bytes[..end] == initial;
    }

    method ResizeTo(size: nat)
      requires Valid()
      modifies this, bytes
      ensures Valid() && Value() == Resized(old(Value()), size)
      ensures bytes == old(bytes) || fresh(bytes)
      ensures Value().Contents() == old(Value().Contents())[..Min(size, |old(Value().Contents())|)]
      ensures version == old(version) + 1
      ensures bytes.Length == if size <= old(bytes.Length) then old(bytes.Length) else Max(size, 3 * old(bytes.Length) / 2)
    {
      var len := Min(end - start, size);
      assert Value().Contents()[..len] == bytes[start..start + len];
      if size <= bytes.Length {
        MoveToFront(bytes, start, len);
      } else {
        bytes := CopyToNew(bytes, start, len, Max(size, 3 * bytes.Length / 2));
      }
      start, end := 0, len;
      version := version + 1;
    }

    /** Makes room for `len` more bytes behind the stored ones. */
    method ReserveWriteBuffer(len: nat)
      requires Valid()
      modifies this, bytes
      ensures Valid() && Value() == Reserved(old(Value()), len)
      ensures end + len <= bytes.Length
      ensures bytes == old(bytes) || fresh(bytes)
      ensures version == if old(end) + len <= old(bytes.Length) then old(version) else old(version) + 1
    {
      hide Resized;
      if (end - start) + len > bytes.Length - start {
        ResizeTo((end - start) + len);
      }
    }

    method WriteBytes(val: seq<byte>)
      requires Valid()
      modifies this, bytes
      ensures Valid() && Value() == Apply(old(Value()), Write(val))
      ensures bytes == old(bytes) || fresh(bytes)
      ensures Value().Contents() == old(Value().Contents()) + val
      ensures version == if old(end) + |val| <= old(bytes.Length) then old(version) else old(version) + 1
    {
      hide Resized, Reserved;
      WriteAppends(Value(), val);
      ReserveWriteBuffer(|val|);
      CopyBehind(bytes, end, val);
      end := end + |val|;
    }

    method ReadBytes(len: nat) returns (ok: bool, val: seq<byte>)
      requires Valid()
      modifies this`start
      ensures Valid() && Value() == Apply(old(Value()), Consume(len))
      ensures ok <==> len <= |old(Value()).Contents()|
      ensures ok ==> val == old(Value()).Contents()[..len] && val + Value().Contents() == old(Value()).Contents()
      ensures !ok ==> Value() == old(Value())
    {
      if len > end - start {
        return false, [];
      }
      val := bytes[start..start + len];
      assert val == bytes[..end][start..start + len];
      TakenAtFront(bytes[..end], start, len);
      start := start + len;
      return true, val;
    }

    method ConsumeBytes(size: nat) returns (ok: bool)
      requires Valid()
      modifies this`start
      ensures Valid() && Value() == Apply(old(Value()), Consume(size))
      ensures ok <==> size <= |old(Value()).Contents()|
      ensures Value().Contents() == if ok then old(Value()).Contents()[size..] else old(Value()).Contents()
    {
      if size > end - start {
        return false;
      }
      TakenAtFront(bytes[..end], start, size);
      start := start + size;
      return true;
    }

    /** Writes an integer of 8, 16, 24, 32 or 64 bits in the buffer's byte order. */
    method WriteUInt(val: nat, width: nat)
      requires Valid() && width in {1, 2, 3, 4, 8} && val < Pow256(if width == 3 then 4 else width)
      modifies this, bytes
      ensures Valid() && Value() == Apply(old(Value()), Write(Written(val, width, order, hostBig)))
      ensures Value().Contents() == old(Value().Contents()) + Written(val, width, order, hostBig)
    {
      hide BigEndian, LittleEndian, Pow256, Apply;
      WriteBytes(Written(val, width, order, hostBig));
    }

    /** Reads one: the only value of that width whose written form is the bytes in front. */
    method ReadUInt(width: nat) returns (ok: bool, val: nat)
      requires Valid() && width in {1, 2, 3, 4, 8}
      modifies this`start
      ensures Valid() && Value() == Apply(old(Value()), Consume(width))
      ensures ok <==> width <= |old(Value()).Contents()|
      ensures ok ==> val < Pow256(width) && Written(val, width, order, hostBig) == old(Value()).Contents()[..width]
    {
      hide BigEndian, LittleEndian, FromBigEndian, FromLittleEndian, Pow256, Written, Read, Apply;
      var b;
      ok, b := ReadBytes(width);
      if !ok {
        return false, 0;
      }
      val := Read(b, order, hostBig);
      BytesRoundTrip(b, order, hostBig);
    }

    method GetReadPosition() returns (p: ReadPosition)
      ensures p == ReadPosition(start, version)
    {
      return ReadPosition(start, version);
    }

    method SetReadPosition(p: ReadPosition) returns (ok: bool)
      requires Valid() && Restorable(Value(), p)
      modifies this`start
      ensures Valid() && Value() == Apply(old(Value()), Restore(p))
      ensures ok <==> p.version == version
      ensures start == if ok then p.start else old(start)
    {
      if p.version != version {
        return false;
      }
      start := p.start;
      return true;
    }

    method ClearAll()
      requires Valid()
      modifies this`start, this`end, this`version, bytes
      ensures Valid() && Value() == Apply(old(Value()), Clear)
      ensures Value().Contents() == [] && version == old(version) + 1
    {
      forall i | 0 <= i < bytes.Length {
        bytes[i] := 0;
      }
      start, end := 0, 0;
      version := version + 1;
    }
  }
}
