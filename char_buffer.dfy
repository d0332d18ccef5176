/** `popchar`: remove one character from a char buffer of `size` used
    characters by shifting the characters after it one place to the left. */
module CharBuffer {

  /** The buffer after popping position idx from its first size characters:
      the characters after idx move one place left, the last used character
      stays where it was (so it appears twice), and nothing from size on
      changes.  When idx is not below size nothing moves. */
  function Popped(s: seq<char>, idx: int, size: int): (t: seq<char>)
    requires 0 <= idx < |s| && size <= |s|
    ensures |t| == |s|
    ensures forall i :: 0 <= i < |s| && !(idx <= i < size - 1) ==> t[i] == s[i]
  {
    if idx < size then s[..idx] + s[idx + 1..size] + s[size - 1..] else s
  }

  /** Element by element: position i takes its right neighbour exactly when
      idx <= i < size - 1; every other position keeps its character. */
  lemma PoppedAt(s: seq<char>, idx: int, size: int, i: int)
    requires 0 <= idx < |s| && size <= |s| && 0 <= i < |s|
    ensures Popped(s, idx, size)[i] == if idx <= i < size - 1 then s[i + 1] else s[i]
  {
    if idx < size {
      var t := Popped(s, idx, size);
      if i < idx {
        assert t[i] == s[..idx][i];
      } else if i < size - 1 {
        assert t[i] == s[idx + 1..size][i - idx];
      } else {
        assert t[i] == s[size - 1..][i - (size - 1)];
      }
    }
  }

  /** Round trip: putting the popped character back in front of the shifted
      part restores the used prefix, and the tail from size-1 on is the old one. */
  lemma PopThenReinsert(s: seq<char>, idx: int, size: int)
    requires 0 <= idx < size <= |s|
    ensures s[..idx] + [s[idx]] + Popped(s, idx, size)[idx..size - 1] == s[..size]
    ensures Popped(s, idx, size)[size - 1..] == s[size - 1..]
  {
    var t := Popped(s, idx, size);
    assert t[idx..size - 1] == s[idx + 1..size];
    assert t[size - 1..] == s[size - 1..];
  }

  /** `popchar(c, idx, size)`: returns the old c[idx] and shifts c in place. */
  method PopChar(c: array<char>, idx: int, size: int) returns (res: char)
    requires 0 <= idx < c.Length && size <= c.Length
    modifies c
    ensures res == old(c[idx])
    ensures c[..] == Popped(old(c[..]), idx, size)
  {
    res := c[idx];
    var i := idx;
    while i < size
      invariant idx <= i && (i <= size || i == idx)
      invariant forall k :: 0 <= k < c.Length ==>
        c[k] == if idx <= k < i - 1 then old(c[k + 1]) else old(c[k])
    {
      if i > idx {
        c[i - 1] := c[i];
      }
      i := i + 1;
    }
    forall k | 0 <= k < c.Length
      ensures c[..][k] == Popped(old(c[..]), idx, size)[k]
    {
      PoppedAt(old(c[..]), idx, size, k);
    }
  }
}
