/**
 * concat: strings are written one after another into a process-wide
 * bytes.Buffer, the buffer's contents are returned, and a deferred Reset
 * empties it. Because every call leaves the buffer empty, every call
 * returns the plain concatenation of its arguments; the other modules
 * therefore write `+` where sz.go calls concat.
 */
module Concat {

  /** The arguments written one after another. */
  function Flatten(parts: seq<string>): string {
    if parts == [] then "" else Flatten(parts[..|parts| - 1]) + parts[|parts| - 1]
  }

  /** Writing two runs of arguments one after the other writes their concatenations one after the other. */
  lemma {:induction false} FlattenAppend(a: seq<string>, b: seq<string>)
    ensures Flatten(a + b) == Flatten(a) + Flatten(b)
    decreases |b|
  {
    if b == [] {
      assert a + b == a;
    } else {
      var b' := b[..|b| - 1];
      var last := b[|b| - 1];
      FlattenAppend(a, b');
      calc {
        Flatten(a + b);
        { assert (a + b)[..|a + b| - 1] == a + b'; assert (a + b)[|a + b| - 1] == last; }
        Flatten(a + b') + last;
        Flatten(a) + Flatten(b') + last;
        Flatten(a) + (Flatten(b') + last);
      }
    }
  }

  /** The global buffer that concat writes into. */
  class Buffer {
    var contents: string

    constructor ()
      ensures contents == []
    {
      contents := [];
    }

    method Concat(parts: seq<string>) returns (r: string)
      modifies this
      ensures r == old(contents) + Flatten(parts)
      ensures contents == []
    {
      var i := 0;
      while i < |parts|
        invariant 0 <= i <= |parts|
        invariant contents == old(contents) + Flatten(parts[..i])
      {
        assert parts[..i + 1][..i] == parts[..i];
        contents := contents + parts[i];
        i := i + 1;
      }
      assert parts[..i] == parts;
      r := contents;
      contents := [];
    }
  }
}
