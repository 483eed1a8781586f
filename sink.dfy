/** The `io.Writer` the transcoders write their output into: the bufio.Writer
    over the staged temporary file.  The device behind it has room for
    `capacity` bytes in all; a write that does not fit stores the part that
    fits and reports an error, which is how a Go writer reports a short
    write. */
module Output {
  import opened Wire

  class Sink {
    var data: seq<byte>
    const capacity: nat

    ghost predicate Valid()
      reads this
    {
      |data| <= capacity
    }

    /** Bytes that can still be written. */
    function Room(): nat
      reads this
      requires Valid()
    {
      capacity - |data|
    }

    constructor (capacity: nat)
      ensures Valid() && data == [] && this.capacity == capacity
    {
      data := [];
      this.capacity := capacity;
    }

    /** `Write(p) (n int, err error)`: `ok` is `err == nil`. */
    method Write(p: seq<byte>) returns (n: nat, ok: bool)
      requires Valid()
      modifies this
      ensures Valid()
      ensures ok == (|p| <= old(Room()))
      ensures n == Min(|p|, old(Room()))
      ensures data == old(data) + Take(p, old(Room()))
    {
      n := Min(|p|, capacity - |data|);
      ok := n == |p|;
      data := data + p[..n];
    }
  }
}
