/**
 * The input the boundary scanner reads from: a pushback stream over an in-memory byte array.
 * Reading a buffer hands out as many bytes as fit and are left; pushed-back bytes are read
 * again before the rest, and at most `capacity` of them may be pending at once.
 */
module PushbackStreams {

  function Min(a: int, b: int): int {
    if a < b then a else b
  }

  class PushbackStream {
    /** The bytes a reader would still obtain, pushed-back bytes first. */
    var rest: seq<bv8>
    /** How many of the first bytes of `rest` sit in the pushback buffer. */
    var pushed: nat
    /** Size of the pushback buffer. */
    const capacity: nat

    ghost predicate Valid()
      reads this
    {
      pushed <= capacity && pushed <= |rest|
    }

    constructor (data: seq<bv8>, capacity: nat)
      ensures Valid()
      ensures rest == data && pushed == 0 && this.capacity == capacity
    {
      rest := data;
      pushed := 0;
      this.capacity := capacity;
    }

    /**
     * Reads up to `b.Length` bytes into the front of `b`: 0 for an empty `b`, -1 at end of
     * stream, otherwise every byte that fits and is left. Pending pushed-back bytes go first.
     */
    method Read(b: array<bv8>) returns (n: int)
      requires Valid()
      modifies this, b
      ensures Valid()
      ensures var count := Min(b.Length, |old(rest)|);
        n == (if b.Length > 0 && count == 0 then -1 else count) &&
        b[..count] == old(rest)[..count] && b[count..] == old(b[count..]) &&
        rest == old(rest)[count..] &&
        pushed == (if old(pushed) > count then old(pushed) - count else 0)
    {
      var count := Min(b.Length, |rest|);
      forall k | 0 <= k < count {
        b[k] := rest[k];
      }
      rest := rest[count..];
      pushed := if pushed > count then pushed - count else 0;
      n := if b.Length > 0 && count == 0 then -1 else count;
    }

    /** Reads one byte as a value in 0..255, or -1 at end of stream. */
    method ReadByte() returns (v: int)
      requires Valid()
      modifies this
      ensures Valid()
      ensures old(rest) == [] ==> v == -1 && rest == [] && pushed == old(pushed)
      ensures old(rest) != [] ==>
        v == old(rest)[0] as int && rest == old(rest)[1..] &&
        pushed == (if old(pushed) > 0 then old(pushed) - 1 else 0)
    {
      if rest == [] {
        v := -1;
      } else {
        v := rest[0] as int;
        rest := rest[1..];
        pushed := if pushed > 0 then pushed - 1 else 0;
      }
    }

    /** Pushes `b[off..off + len]` back, so that those bytes are read next. */
    method Unread(b: array<bv8>, off: int, len: int)
      requires Valid()
      requires 0 <= off && 0 <= len && off + len <= b.Length
      requires pushed + len <= capacity
      modifies this
      ensures Valid()
      ensures rest == b[off..off + len] + old(rest) && pushed == old(pushed) + len
    {
      rest := b[off..off + len] + rest;
      pushed := pushed + len;
    }
  }
}
