/**
 The packet queue of webrtc/base/bufferqueue.cc: a bounded FIFO of byte strings
 kept in buffer objects (webrtc/base/buffer.h) that are recycled through a free
 list.  Every call holds the queue's lock, so calls are atomic.
 */
module BufferQueue {
  import opened Bytes

  /** A growable block of bytes. */
  class Buffer {
    var size: nat
    var data: array<byte>

    /** IsConsistent: the contents fit the allocation. */
    ghost predicate Consistent()
      reads this
    {
      size <= data.Length
    }

    ghost function Contents(): seq<byte>
      reads this, data
      requires Consistent()
    {
      data[..size]
    }

    /** `size` unspecified bytes in an allocation of the larger of the two sizes. */
    constructor (size: nat, capacity: nat)
      ensures Consistent() && this.size == size && fresh(data)
    {
      this.size := size;
      data := new byte[if capacity > size then capacity else size](_ => 0);
    }

    method EnsureCapacity(capacity: nat)
      requires Consistent()
      modifies this`data
      ensures Consistent() && Contents() == old(Contents()) && size == old(size)
      ensures data.Length == if capacity <= old(data.Length) then old(data.Length) else capacity
      ensures if capacity <= old(data.Length) then data == old(data) else fresh(data)
    {
      if capacity <= data.Length {
        return;
      }
      var newData := new byte[capacity](_ => 0);
      forall i | 0 <= i < size {
        newData[i] := data[i];
      }
      data := newData;
    }

    method AppendData(source: seq<byte>)
      requires Consistent()
      modifies this, data
      ensures Consistent() && Contents() == old(Contents()) + source
      ensures data == old(data) || fresh(data)
    {
      var newSize := size + |source|;
      EnsureCapacity(newSize);
      forall i | 0 <= i < |source| {
        data[size + i] := source[i];
      }
      size := newSize;
    }

    method SetData(source: seq<byte>)
      requires Consistent()
      modifies this, data
      ensures Consistent() && Contents() == source
      ensures data == old(data) || fresh(data)
    {
      size := 0;
      AppendData(source);
    }
  }

  class PacketQueue {
    const capacity: nat
    const defaultSize: nat
    var queue: seq<Buffer>
    var freeList: seq<Buffer>
    ghost var packets: seq<seq<byte>>
    ghost var created: nat

    /**
     `packets` are the contents of the queued buffers; every buffer made so far
     is in exactly one of the two lists, and none shares its memory.
     */
    ghost predicate Valid()
      reads this, queue, freeList, Blocks(queue)
    {
      ListsValid() && created == |queue| + |freeList| <= capacity
    }

    ghost predicate ListsValid()
      reads this, queue, freeList, Blocks(queue)
    {
      && |packets| == |queue|
      && (forall i :: 0 <= i < |queue| ==> queue[i].Consistent() && queue[i].Contents() == packets[i])
      && (forall i :: 0 <= i < |freeList| ==> freeList[i].Consistent())
      && (forall i, j :: 0 <= i < j < |queue| ==> Apart(queue[i], queue[j]))
      && (forall i, j :: 0 <= i < j < |freeList| ==> Apart(freeList[i], freeList[j]))
      && (forall i, j :: 0 <= i < |queue| && 0 <= j < |freeList| ==> Apart(queue[i], freeList[j]))
    }

    constructor (capacity: nat, defaultSize: nat)
      ensures Valid() && packets == [] && this.capacity == capacity && created == 0
    {
      this.capacity, this.defaultSize := capacity, defaultSize;
      queue, freeList, packets, created := [], [], [], 0;
    }

    /** Takes the oldest packet; only the returned copy is cut to `bytes`. */
    method ReadFront(bytes: nat) returns (ok: bool, packet: seq<byte>)
      requires Valid()
      modifies this`queue, this`freeList, this`packets
      ensures Valid()
      ensures ok <==> old(packets) != []
      ensures ok ==> packet <= old(packets)[0] && packets == old(packets)[1..]
      ensures ok ==> |packet| == if bytes <= |old(packets)[0]| then bytes else |old(packets)[0]|
      ensures ok ==> queue == old(queue)[1..] && freeList == old(freeList) + [old(queue)[0]]
      ensures !ok ==> unchanged(this)
    {
      if queue == [] {
        return false, [];
      }
      var front := queue[0];
      queue := queue[1..];
      var n := if bytes > front.size then front.size else bytes;
      packet := front.data[..n];
      assert packet == front.Contents()[..n];
      freeList := freeList + [front];
      packets := packets[1..];
      return true, packet;
    }

    /** Appends a packet, in a recycled buffer if there is one; the packets already queued keep their bytes. */
    method WriteBack(packet: seq<byte>) returns (ok: bool)
      requires Valid()
      modifies this`queue, this`freeList, this`packets, this`created, freeList, Blocks(freeList)
      ensures Valid()
      ensures ok <==> |old(packets)| < capacity
      ensures ok ==> packets == old(packets) + [packet]
      ensures !ok ==> unchanged(this) && packets == old(packets)
      ensures created == old(created) + (if ok && old(freeList) == [] then 1 else 0)
    {
      if |queue| == capacity {
        return false;
      }
      var buffer: Buffer;
      if freeList != [] {
        buffer := freeList[|freeList| - 1];
        assert buffer in freeList;
        freeList := freeList[..|freeList| - 1];
      } else {
        buffer := new Buffer(|packet|, defaultSize);
        created := created + 1;
      }
      FillAndQueue(buffer, packet);
      return true;
    }

    /** Overwrites a buffer that is in neither list and puts it at the end of the queue. */
    method FillAndQueue(buffer: Buffer, packet: seq<byte>)
      requires ListsValid() && buffer.Consistent()
      requires forall i :: 0 <= i < |queue| ==> Apart(queue[i], buffer)
      requires forall i :: 0 <= i < |freeList| ==> Apart(freeList[i], buffer)
      modifies this`queue, this`packets, buffer, buffer.data
      ensures ListsValid()
      ensures queue == old(queue) + [buffer] && packets == old(packets) + [packet]
    {
      buffer.SetData(packet);
      PushBack(buffer, packet);
    }

    /** Puts a filled buffer at the end of the queue. */
    method PushBack(buffer: Buffer, ghost packet: seq<byte>)
      requires ListsValid() && buffer.Consistent() && buffer.Contents() == packet
      requires forall i :: 0 <= i < |queue| ==> Apart(queue[i], buffer)
      requires forall i :: 0 <= i < |freeList| ==> Apart(freeList[i], buffer)
      modifies this`queue, this`packets
      ensures ListsValid()
      ensures queue == old(queue) + [buffer] && packets == old(packets) + [packet]
    {
      queue := queue + [buffer];
      packets := packets + [packet];
    }
  }

  /** Different objects with different memory. */
  ghost predicate Apart(a: Buffer, b: Buffer)
    reads a, b
  {
    a != b && a.data != b.data
  }

  ghost function Blocks(buffers: seq<Buffer>): set<object>
    reads buffers
  {
    set b | b in buffers :: b.data
  }
}
