/** The ring of ByteCircularBuffer.cpp: a fixed array with 16-bit `front`, `rear` and `currentSize`. */
module ByteCircularBuffers {
  import opened Bytes

  /** Where the second half of a read that runs past the end of the array is put.
      `AsWritten` is ByteCircularBuffer.cpp:94, which copies it over the start of the destination.
      `Offset` copies it behind the first half, as the write does at ByteCircularBuffer.cpp:56. */
  datatype SplitRead = AsWritten | Offset

  /** An index that ran past the end of an array of `size` cells, brought back into it. */
  function Wrap(i: nat, size: nat): nat {
    if i < size then i else i - size
  }

  /** The `n` cells of a ring that start at `rear`. */
  function RingSlice(cells: seq<byte>, rear: nat, n: nat): (s: seq<byte>)
    requires rear <= |cells| && n <= |cells|
    ensures |s| == n
  {
    if rear + n <= |cells| then cells[rear..rear + n] else cells[rear..] + cells[..rear + n - |cells|]
  }

  lemma WrapIsMod(i: nat, size: nat)
    requires 0 < size && i < 2 * size
    ensures Wrap(i, size) == i % size
  {
    var q := i / size;
    assert i == q * size + i % size;
    assert (q - 1) * size < size;
    assert q < 2;
  }

  lemma SliceAt(cells: seq<byte>, rear: nat, n: nat, i: nat)
    requires rear < |cells| && i < n <= |cells|
    ensures RingSlice(cells, rear, n)[i] == cells[Wrap(rear + i, |cells|)]
  {
  }

  /** The reference reading of a ring: element `i` is the cell `(rear + i) mod size`. */
  lemma RingSliceAt(cells: seq<byte>, rear: nat, n: nat, i: nat)
    requires rear < |cells| && i < n <= |cells|
    ensures RingSlice(cells, rear, n)[i] == cells[(rear + i) % |cells|]
  {
    SliceAt(cells, rear, n, i);
    WrapIsMod(rear + i, |cells|);
  }

  /** Reading `k` of the `n` bytes takes a prefix ... */
  lemma SliceTake(cells: seq<byte>, rear: nat, n: nat, k: nat)
    requires rear < |cells| && k <= n <= |cells|
    ensures RingSlice(cells, rear, n)[..k] == RingSlice(cells, rear, k)
  {
    forall i | 0 <= i < k
      ensures RingSlice(cells, rear, n)[..k][i] == RingSlice(cells, rear, k)[i]
    {
      SliceAt(cells, rear, n, i);
      SliceAt(cells, rear, k, i);
    }
  }

  /** ... in two halves if it runs past the end ... */
  lemma SliceHalves(cells: seq<byte>, rear: nat, n: nat, k: nat)
    requires rear < |cells| && k <= n <= |cells| < rear + k
    ensures RingSlice(cells, rear, n)[..k] == cells[rear..|cells|] + cells[0..rear + k - |cells|]
  {
    SliceTake(cells, rear, n, k);
  }

  /** ... and leaves the slice that starts `k` cells further. */
  lemma SliceDrop(cells: seq<byte>, rear: nat, n: nat, k: nat)
    requires rear < |cells| && k <= n <= |cells|
    ensures RingSlice(cells, rear, n)[k..] == RingSlice(cells, Wrap(rear + k, |cells|), n - k)
  {
    var all, further := RingSlice(cells, rear, n), Wrap(rear + k, |cells|);
    var left := RingSlice(cells, further, n - k);
    forall i | 0 <= i < n - k
      ensures all[k + i] == left[i]
    {
      SliceAt(cells, rear, n, k + i);
      SliceAt(cells, further, n - k, i);
    }
    assert |all[k..]| == |left|;
  }

  /** Laying `data` over the cells behind the `n` waiting ones appends it: in one block ... */
  lemma ExtendInOneBlock(cells: seq<byte>, rear: nat, n: nat, at: nat, data: seq<byte>)
    requires rear < |cells| && n + |data| <= |cells|
    requires at == Wrap(rear + n, |cells|) && at + |data| <= |cells|
    ensures RingSlice(Overlay(cells, at, data), rear, n + |data|) == RingSlice(cells, rear, n) + data
  {
    var written := Overlay(cells, at, data);
    forall i | 0 <= i < n + |data|
      ensures RingSlice(written, rear, n + |data|)[i] == (RingSlice(cells, rear, n) + data)[i]
    {
      SliceAt(written, rear, n + |data|, i);
      OverlayAt(cells, at, data, Wrap(rear + i, |cells|));
      if i < n {
        SliceAt(cells, rear, n, i);
      }
    }
  }

  /** ... or in two, the second at the start of the array. */
  lemma ExtendInTwoBlocks(cells: seq<byte>, rear: nat, n: nat, first: seq<byte>, second: seq<byte>)
    requires |first| > 0 && rear + n + |first| == |cells| && |second| <= rear
    ensures RingSlice(Overlay(Overlay(cells, rear + n, first), 0, second), rear, n + |first| + |second|)
            == RingSlice(cells, rear, n) + (first + second)
  {
    var half := Overlay(cells, rear + n, first);
    ExtendInOneBlock(cells, rear, n, rear + n, first);
    ExtendInOneBlock(half, rear, n + |first|, 0, second);
    Assoc(RingSlice(cells, rear, n), first, second);
  }

  /** The destination after a read of `data`, of which `lead` bytes lie before the end of the array. */
  function CopyOut(split: SplitRead, lead: nat, data: seq<byte>, dest: seq<byte>): (r: seq<byte>)
    requires |data| <= |dest|
    ensures |r| == |dest|
  {
    if split == Offset || |data| <= lead then
      Overlay(dest, 0, data)
    else
      Overlay(Overlay(dest, 0, data[..lead]), 0, data[lead..])
  }

  /** Byte by byte: with the offset, the destination gets the data; as written, it gets the second half, then what of
      the first half reaches beyond that, and keeps the rest of what it had. */
  lemma CopyOutAt(split: SplitRead, lead: nat, data: seq<byte>, dest: seq<byte>, k: nat)
    requires |data| <= |dest| && k < |dest|
    ensures CopyOut(split, lead, data, dest)[k] ==
            if split.Offset? || |data| <= lead then (if k < |data| then data[k] else dest[k])
            else if k < |data| - lead then data[lead + k]
            else if k < lead then data[k]
            else dest[k]
  {
    if split.Offset? || |data| <= lead {
      OverlayAt(dest, 0, data, k);
    } else {
      OverlayAt(dest, 0, data[..lead], k);
      OverlayAt(Overlay(dest, 0, data[..lead]), 0, data[lead..], k);
    }
  }

  /** Copying a read in two halves gives `CopyOut` of the two together. */
  lemma CopyTwice(split: SplitRead, first: seq<byte>, second: seq<byte>, dest: seq<byte>)
    requires |first| + |second| <= |dest| && |second| > 0
    ensures CopyOut(split, |first|, first + second, dest)
            == Overlay(Overlay(dest, 0, first), SecondAt(split, |first|), second)
  {
    match split
    case Offset =>
      OverlayTwice(dest, first, second);
    case AsWritten =>
      assert (first + second)[..|first|] == first && (first + second)[|first|..] == second;
  }

  function SecondAt(split: SplitRead, lead: nat): nat {
    match split
    case AsWritten => 0
    case Offset => lead
  }

  /** What the two copies of a split read leave in the destination, in terms of the queue. */
  lemma HalvesOut(
    split: SplitRead, cells: seq<byte>, rear: nat, lead: nat, n: nat, contents: seq<byte>, k: nat, dest: seq<byte>)
    requires rear < |cells| == rear + lead && lead < k <= n <= |cells| && k <= |dest|
    requires contents == RingSlice(cells, rear, n)
    ensures CopyOut(split, lead, contents[..k], dest)
            == Overlay(Overlay(dest, 0, cells[rear..|cells|]), SecondAt(split, lead), cells[0..k - lead])
  {
    SliceHalves(cells, rear, n, k);
    CopyTwice(split, cells[rear..|cells|], cells[0..k - lead], dest);
  }

  class ByteCircularBuffer {
    const splitRead: SplitRead
    const bufferSize: uint16
    const buffer: array<byte>
    var front: uint16
    var rear: uint16
    var currentSize: uint16

    ghost predicate Valid()
      reads this
    {
      && buffer.Length == bufferSize as int
      && currentSize <= bufferSize
      && (bufferSize == 0 ==> front == rear == 0)
      && (bufferSize > 0 ==>
            && front < bufferSize
            && rear < bufferSize
            && front as int == Wrap(rear as int + currentSize as int, bufferSize as int))
    }

    /** The bytes that wait in the ring, oldest first. */
    ghost function Contents(): (s: seq<byte>)
      requires Valid()
      reads this, buffer
      ensures |s| == currentSize as int
    {
      RingSlice(buffer[..], rear as int, currentSize as int)
    }

    constructor (size: uint16, split: SplitRead)
      ensures Valid() && fresh(buffer)
      ensures bufferSize == size && splitRead == split
      ensures Contents() == [] && rear == 0 && front == 0
    {
      splitRead := split;
      bufferSize := size;
      buffer := new byte[size as int](i => 0);
      front, rear, currentSize := 0, 0, 0;
    }

    method AvailableSize() returns (n: uint16)
      requires Valid()
      ensures n as int == bufferSize as int - |Contents()|
    {
      n := bufferSize - currentSize;
    }

    method IsFull() returns (full: bool)
      requires Valid()
      ensures full <==> |Contents()| == bufferSize as int
    {
      full := currentSize == bufferSize;
    }

    /** Lines 38-42 and 48-52: a write that fits between `front` and the end of the array. */
    method AppendBlock(data: array<byte>, dataSize: uint16)
      requires Valid() && data != buffer
      requires currentSize < bufferSize && dataSize <= bufferSize - currentSize
      requires dataSize <= bufferSize - front && dataSize as int <= data.Length
      modifies this`front, this`currentSize, buffer
      ensures Valid() && Contents() == old(Contents()) + data[..dataSize]
    {
      ExtendInOneBlock(buffer[..], rear as int, currentSize as int, front as int, data[0..dataSize]);
      Memcpy(buffer, front as int, data, 0, dataSize as int);
      front := front + dataSize;
      if front == bufferSize {
        front := 0;
      }
      currentSize := currentSize + dataSize;
    }

    /** Lines 55-58: a write that runs past the end of the array. */
    method AppendHalves(data: array<byte>, dataSize: uint16, leadingSpace: uint16)
      requires Valid() && data != buffer
      requires dataSize <= bufferSize - currentSize && dataSize as int <= data.Length
      requires rear <= front && leadingSpace == bufferSize - front < dataSize
      modifies this`front, this`currentSize, buffer
      ensures Valid() && Contents() == old(Contents()) + data[..dataSize]
    {
      ghost var first, second := data[0..leadingSpace], data[leadingSpace..dataSize];
      ExtendInTwoBlocks(buffer[..], rear as int, currentSize as int, first, second);
      MemcpyTwice(buffer, data, front as int, 0, leadingSpace as int, 0, leadingSpace as int, dataSize as int);
      front := dataSize - leadingSpace;
      currentSize := currentSize + dataSize;
      assert data[..dataSize] == first + second;
    }

    /** A write is all or nothing. `rear` is not in its frame, so the bytes already waiting stay in their cells. */
    method Write(data: array<byte>, dataSize: uint16) returns (written: uint16)
      requires Valid() && data != buffer
      requires dataSize <= bufferSize - currentSize ==> dataSize as int <= data.Length
      modifies this`front, this`currentSize, buffer
      ensures Valid()
      ensures written == if dataSize as int <= bufferSize as int - |old(Contents())| then dataSize else 0
      ensures Contents() == old(Contents()) + data[..written]
    {
      var full := IsFull();
      if full {
        return 0;
      }
      var available := AvailableSize();
      if available < dataSize {
        return 0;
      }
      if front < rear {
        AppendBlock(data, dataSize);
        return dataSize;
      }
      var leadingSpace := bufferSize - front;
      if dataSize <= leadingSpace {
        AppendBlock(data, dataSize);
        return dataSize;
      }
      AppendHalves(data, dataSize, leadingSpace);
      return dataSize;
    }

    /** Lines 70 and 83: a read that ends before the end of the array. */
    method CopyBlock(dest: array<byte>, dataSize: uint16)
      requires Valid() && dest != buffer
      requires dataSize <= currentSize && dataSize as int <= dest.Length
      requires dataSize <= bufferSize - rear
      modifies dest
      ensures dest[..] == CopyOut(splitRead, (bufferSize - rear) as int, Contents()[..dataSize], old(dest[..]))
      ensures Contents() == old(Contents())
    {
      if bufferSize > 0 {
        SliceTake(buffer[..], rear as int, currentSize as int, dataSize as int);
      }
      Memcpy(dest, 0, buffer, rear as int, (rear + dataSize) as int);
    }

    /** Lines 93-94: a read that runs past the end of the array. */
    method CopyHalves(dest: array<byte>, dataSize: uint16, leadingSpace: uint16)
      requires Valid() && dest != buffer
      requires dataSize <= currentSize && dataSize as int <= dest.Length
      requires leadingSpace == bufferSize - rear < dataSize
      modifies dest
      ensures dest[..] == CopyOut(splitRead, (bufferSize - rear) as int, Contents()[..dataSize], old(dest[..]))
      ensures Contents() == old(Contents())
    {
      var lead, rest := leadingSpace as int, (dataSize - leadingSpace) as int;
      ghost var contents := Contents();
      HalvesOut(splitRead, buffer[..], rear as int, lead, |contents|, contents, dataSize as int, dest[..]);
      MemcpyTwice(dest, buffer, 0, rear as int, buffer.Length, SecondAt(splitRead, lead), 0, rest);
    }

    /** Lines 72-74 and 86-88. */
    method RemoveBlock(dataSize: uint16)
      requires Valid() && dataSize <= currentSize && dataSize <= bufferSize - rear
      modifies this`rear, this`currentSize
      ensures Valid() && Contents() == old(Contents())[dataSize..]
      ensures rear as int == Wrap(old(rear) as int + dataSize as int, bufferSize as int)
    {
      if bufferSize > 0 {
        SliceDrop(buffer[..], rear as int, currentSize as int, dataSize as int);
      }
      rear := rear + dataSize;
      if rear == bufferSize {
        rear := 0;
      }
      currentSize := currentSize - dataSize;
    }

    /** Lines 96-97. */
    method RemoveHalves(dataSize: uint16, leadingSpace: uint16)
      requires Valid() && dataSize <= currentSize && leadingSpace == bufferSize - rear < dataSize
      modifies this`rear, this`currentSize
      ensures Valid() && Contents() == old(Contents())[dataSize..]
      ensures rear as int == Wrap(old(rear) as int + dataSize as int, bufferSize as int)
    {
      SliceDrop(buffer[..], rear as int, currentSize as int, dataSize as int);
      rear := dataSize - leadingSpace;
      currentSize := currentSize - dataSize;
    }

    /** What a read of `n` bytes leaves in the ring. */
    ghost predicate Advanced(contents: seq<byte>, from: uint16, n: uint16, removed: bool)
      requires Valid() && n as int <= |contents|
      reads this, buffer
    {
      if removed then
        Contents() == contents[n..] && rear as int == Wrap(from as int + n as int, bufferSize as int)
      else
        Contents() == contents && rear == from
    }

    /** Lines 70-76 and 83-90. */
    method ReadBlock(dest: array<byte>, dataSize: uint16, removeReadBytes: bool)
      requires Valid() && dest != buffer
      requires dataSize <= currentSize && dataSize as int <= dest.Length && dataSize <= bufferSize - rear
      modifies if removeReadBytes then {this} else {}, dest
      ensures dest[..] == CopyOut(splitRead, (bufferSize - old(rear)) as int, old(Contents())[..dataSize], old(dest[..]))
      ensures Valid() && front == old(front) && Advanced(old(Contents()), old(rear), dataSize, removeReadBytes)
    {
      CopyBlock(dest, dataSize);
      if removeReadBytes {
        RemoveBlock(dataSize);
      }
    }

    /** Lines 93-99. */
    method ReadHalves(dest: array<byte>, dataSize: uint16, leadingSpace: uint16, removeReadBytes: bool)
      requires Valid() && dest != buffer
      requires dataSize <= currentSize && dataSize as int <= dest.Length
      requires leadingSpace == bufferSize - rear < dataSize
      modifies if removeReadBytes then {this} else {}, dest
      ensures dest[..] == CopyOut(splitRead, (bufferSize - old(rear)) as int, old(Contents())[..dataSize], old(dest[..]))
      ensures Valid() && front == old(front) && Advanced(old(Contents()), old(rear), dataSize, removeReadBytes)
    {
      CopyHalves(dest, dataSize, leadingSpace);
      if removeReadBytes {
        RemoveHalves(dataSize, leadingSpace);
      }
    }

    /** A read copies out the oldest `dataSize` bytes, and removes them when asked to.
        A read of more bytes than there are changes nothing. */
    method Read(dest: array<byte>, dataSize: uint16, removeReadBytes: bool) returns (read: uint16)
      requires Valid() && dest != buffer
      requires dataSize <= currentSize ==> dataSize as int <= dest.Length
      modifies if removeReadBytes then {this} else {}, dest
      ensures read == if dataSize as int <= |old(Contents())| then dataSize else 0
      ensures read == 0 ==> dest[..] == old(dest[..])
      ensures read > 0 ==>
        dest[..] == CopyOut(splitRead, (bufferSize - old(rear)) as int, old(Contents())[..read], old(dest[..]))
      ensures Valid() && front == old(front) && Advanced(old(Contents()), old(rear), read, removeReadBytes)
    {
      if currentSize < dataSize {
        return 0;
      }
      if rear < front {
        ReadBlock(dest, dataSize, removeReadBytes);
        return dataSize;
      }
      var leadingSpace := bufferSize - rear;
      if dataSize <= leadingSpace {
        ReadBlock(dest, dataSize, removeReadBytes);
        return dataSize;
      }
      ReadHalves(dest, dataSize, leadingSpace, removeReadBytes);
      return dataSize;
    }

    method Reset()
      requires Valid()
      modifies this
      ensures Valid() && Contents() == [] && rear == 0 && front == 0
    {
      currentSize, front, rear := 0, 0, 0;
    }
  }
}
