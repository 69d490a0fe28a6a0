// The ring of bytes that a caller shares with the parser or the writer.
module Rings {
  import opened Base

  /** The caller's ring: what it holds, and where that lies in it. */
  class LoopBuf {
    const capacity: nat
    var content: Bytes
    var head: nat

    ghost predicate Valid()
      reads this
    {
      |content| <= capacity && head <= capacity
    }

    constructor (capacity: nat, head: nat)
      requires head <= capacity
      ensures Valid() && content == [] && this.capacity == capacity
    {
      this.capacity, content, this.head := capacity, [], head;
    }

    /** The readable bytes, which wrap at the end of the ring. */
    function Readable(): Spans
      requires Valid()
      reads this
    {
      Spans(content, capacity - head)
    }

    /** How many bytes can be appended. */
    function SpareLen(): nat
      requires Valid()
      reads this
    {
      capacity - |content|
    }

    method Append(bytes: Bytes)
      requires Valid() && |content| + |bytes| <= capacity
      modifies this
      ensures Valid() && content == old(content) + bytes
    {
      content := content + bytes;
    }

    method Advance(n: nat)
      requires Valid() && n <= |content|
      modifies this
      ensures Valid() && content == old(content)[n..]
    {
      content := content[n..];
      head := if head + n >= capacity then head + n - capacity else head + n;
    }
  }
}
