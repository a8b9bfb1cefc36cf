/** The growable predecessor buffer of the betweenness engine (Path.java): an
    int array `nodes` whose first `offset` cells are the stored entries. */
module PathStore {
  import opened Sequences

  /** The capacity `Grow` allocates: strictly more than the current length and
      at least `minSize`, with one eighth of head room. */
  function GrownLength(length: nat, minSize: nat): (r: nat)
    ensures r >= minSize && r > length
  {
    var target := if minSize > length then minSize else length;
    target + target / 8 + 1
  }

  /** The growth step `Path.append` relies on: a fresh array, strictly longer
      than `a`, whose prefix is a copy of `a`. */
  method Grow(a: array<int>, minSize: nat) returns (b: array<int>)
    ensures fresh(b) && b.Length == GrownLength(a.Length, minSize)
    ensures b[..a.Length] == a[..]
  {
    b := new int[GrownLength(a.Length, minSize)](_ => 0);
    var i := 0;
    while i < a.Length
      invariant 0 <= i <= a.Length
      invariant b[..i] == a[..i]
    {
      b[i] := a[i];
      i := i + 1;
    }
  }

  /** The length the array library's `grow(array, minSize)` returns: the array
      itself when it already holds `minSize` cells, otherwise a larger copy. */
  function LibraryGrownLength(length: nat, minSize: nat): (r: nat)
    ensures r >= minSize && r >= length
  {
    if length < minSize then GrownLength(length, minSize) else length
  }

  /** With the library's growth rule, `append` on a full buffer (the buffer
      invariant gives `offset <= capacity`, the guard `offset >= capacity`) asks
      for `offset` cells, gets an array of the same length back, and so writes
      at index `offset`, one past its end. */
  lemma LibraryGrowAppendOutOfBounds(p: Path)
    requires p.Valid() && p.offset >= p.nodes.Length
    ensures p.offset == p.nodes.Length
    ensures !(p.offset < LibraryGrownLength(p.nodes.Length, p.offset))
  {
  }

  class Path {
    var nodes: array<int>
    var offset: nat

    ghost predicate Valid()
      reads this
    {
      offset <= nodes.Length
    }

    /** The stored entries, in insertion order. */
    ghost function Elements(): seq<int>
      reads this, nodes
      requires Valid()
    {
      nodes[..offset]
    }

    constructor (initialSize: nat)
      ensures Valid() && fresh(nodes)
      ensures nodes.Length == initialSize && Elements() == []
    {
      nodes := new int[initialSize](_ => 0);
      offset := 0;
    }

    /** The no-argument constructor: capacity 1. */
    constructor Default()
      ensures Valid() && fresh(nodes)
      ensures nodes.Length == 1 && Elements() == []
    {
      nodes := new int[1](_ => 0);
      offset := 0;
    }

    method Append(nodeId: int)
      requires Valid()
      modifies this, nodes
      ensures Valid()
      ensures Elements() == old(Elements()) + [nodeId]
      ensures nodes[old(offset)] == nodeId
      ensures nodes == old(nodes) || fresh(nodes)
    {
      if offset >= nodes.Length {
        nodes := Grow(nodes, offset);
      }
      nodes[offset] := nodeId;
      offset := offset + 1;
    }

    function Size(): (r: nat)
      reads this, nodes
      requires Valid()
      ensures r == |Elements()|
    {
      offset
    }

    /** `forEch`: offers the entries in insertion order to `visit` and stops right
        after the first one it rejects; the result is what was offered. */
    method ForEach(visit: int -> bool) returns (offered: seq<int>)
      requires Valid()
      ensures offered == TakeUntilFalse(Elements(), visit)
    {
      offered := [];
      var i := 0;
      while i < offset
        invariant 0 <= i <= offset
        invariant offered == nodes[..i]
        invariant forall j :: 0 <= j < i ==> visit(nodes[j])
      {
        offered := offered + [nodes[i]];
        if !visit(nodes[i]) {
          TakeUntilFalseStops(Elements(), visit, i);
          assert nodes[..i + 1] == Elements()[..i + 1];
          return;
        }
        i := i + 1;
      }
      assert nodes[..offset] == Elements();
      TakeUntilFalseAllTrue(Elements(), visit);
    }

    /** Forgets the entries but keeps the storage. */
    method Clear()
      requires Valid()
      modifies this`offset
      ensures Valid() && Elements() == []
      ensures nodes == old(nodes) && nodes[..] == old(nodes[..])
    {
      offset := 0;
    }
  }
}
