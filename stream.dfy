/**
 * An open file as both programs use it: fixed contents and a read
 * position that each read advances, copying into the caller's buffer.
 */
module Stream {
  import opened Basics
  import opened Hex

  class FileStream {
    const contents: seq<byte>
    var pos: nat

    predicate Valid()
      reads this
    {
      pos <= |contents|
    }

    /** The bytes not read yet. */
    function Remaining(): nat
      reads this
      requires Valid()
    {
      |contents| - pos
    }

    /** Opening a file positions the stream at its first byte. */
    constructor Open(contents: seq<byte>)
      ensures Valid() && this.contents == contents && pos == 0
    {
      this.contents := contents;
      pos := 0;
    }

    /**
     * Reads up to `most` bytes, as many as the buffer holds and the file
     * still has, into the front of the buffer; the rest of the buffer keeps
     * what an earlier read left there.
     */
    method Read(buffer: array<byte>, most: nat) returns (n: nat)
      requires Valid()
      modifies this, buffer
      ensures Valid()
      ensures n == Min(Min(most, buffer.Length), old(Remaining()))
      ensures pos == old(pos) + n
      ensures buffer[..n] == contents[old(pos)..old(pos) + n]
      ensures buffer[n..] == old(buffer[n..])
    {
      n := Min(Min(most, buffer.Length), |contents| - pos);
      forall k | 0 <= k < n {
        buffer[k] := contents[pos + k];
      }
      pos := pos + n;
    }
  }

  /** A prefix of the bytes a read delivered is the same prefix of the file from where it read. */
  lemma {:induction false} DeliveredPrefix(buffer: seq<byte>, contents: seq<byte>, from: nat, n: nat, k: nat)
    requires n <= |buffer| && from + n <= |contents| && buffer[..n] == contents[from..from + n] && k <= n
    ensures buffer[..k] == contents[from..from + k]
  {
    assert buffer[..k] == buffer[..n][..k];
  }
}
