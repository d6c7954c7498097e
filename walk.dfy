/**
  What the asset walker produces, as a pure function of the tree, and the
  properties of that output: which entries it lists, in which order, how
  many, and that their paths lie below the root and are distinct.

  `Walk(dir, listing)` is the sequence of paths that walking a directory
  at `dir` with the given listing appends to the accumulator. The ghost
  function `Origins` names, for each element of that sequence, the
  position of the entry that produced it; it links the recursive
  definition to the positional view of the tree in `FileTree`.
 */
module AssetWalk {
  import opened FileTree

  /** The paths the walk appends for a directory listing: each entry's contribution, in listing order. */
  function Walk(dir: string, listing: seq<Dirent>): seq<string>
    decreases listing, 1
  {
    if listing == [] then []
    else Walk(dir, listing[..|listing| - 1]) + Emit(dir, listing[|listing| - 1])
  }

  /** One entry's contribution: a directory's walk, or the entry's own path. */
  function Emit(dir: string, d: Dirent): seq<string>
    decreases d.node, 0
  {
    match d.node
    case Directory(listing) => Walk(Join(dir, d.name), listing)
    case NonDirectory(_) => [Join(dir, d.name)]
  }

  /** The number of non-directory entries at any depth, counted from the front of each listing. */
  function LeafCount(listing: seq<Dirent>): nat
    decreases listing, 1
  {
    if listing == [] then 0 else LeafCountOf(listing[0]) + LeafCount(listing[1..])
  }

  function LeafCountOf(d: Dirent): nat
    decreases d.node, 0
  {
    match d.node
    case Directory(listing) => LeafCount(listing)
    case NonDirectory(_) => 1
  }

  /** The position holds an entry for which `isDirectory()` is false. */
  predicate LeafAt(listing: seq<Dirent>, pos: Position)
  {
    ValidPosition(listing, pos) && EntryAt(listing, pos).node.NonDirectory?
  }

  /**
    `p` comes before `q` in a depth-first traversal that follows listing
    order: at the first index where they differ, `p`'s is smaller.
   */
  predicate Precedes(p: Position, q: Position)
    decreases p
  {
    |p| > 0 && |q| > 0 && (p[0] < q[0] || (p[0] == q[0] && Precedes(p[1..], q[1..])))
  }

  /** The positions of the entries that produce the elements of `Walk`, in the same order. */
  ghost function Origins(listing: seq<Dirent>): seq<Position>
    decreases listing, 1
  {
    if listing == [] then []
    else Origins(listing[..|listing| - 1]) + OriginsOf(|listing| - 1, listing[|listing| - 1])
  }

  ghost function OriginsOf(i: nat, d: Dirent): seq<Position>
    decreases d.node, 0
  {
    match d.node
    case Directory(listing) => Below(i, Origins(listing))
    case NonDirectory(_) => [[i]]
  }

  /** Positions inside the listing of entry `i`, as positions of the enclosing listing. */
  ghost function Below(i: nat, positions: seq<Position>): seq<Position>
  {
    seq(|positions|, k requires 0 <= k < |positions| => [i] + positions[k])
  }

  lemma PrecedesIrreflexive(p: Position)
    ensures !Precedes(p, p)
  {
  }

  lemma {:induction false} PrecedesAsymmetric(p: Position, q: Position)
    requires Precedes(p, q)
    ensures !Precedes(q, p)
    decreases p
  {
    if p[0] == q[0] {
      PrecedesAsymmetric(p[1..], q[1..]);
    }
  }

  /** Walking the concatenation of two listings walks one after the other. */
  lemma {:induction false} WalkAppend(dir: string, a: seq<Dirent>, b: seq<Dirent>)
    ensures Walk(dir, a + b) == Walk(dir, a) + Walk(dir, b)
    decreases |b|
  {
    if b == [] {
      assert a + b == a;
    } else {
      var n := |b| - 1;
      assert (a + b)[..|a + b| - 1] == a + b[..n];
      assert (a + b)[|a + b| - 1] == b[n];
      WalkAppend(dir, a, b[..n]);
    }
  }

  /**
    Depth-first order in listing order: the paths of the entries before the
    i-th come first, then the i-th entry's (its own path, or everything below
    it, contiguously), then those of the entries after it.
   */
  lemma WalkSplit(dir: string, listing: seq<Dirent>, i: nat)
    requires i < |listing|
    ensures Walk(dir, listing) == Walk(dir, listing[..i]) + Emit(dir, listing[i]) + Walk(dir, listing[i + 1..])
  {
    assert listing == listing[..i] + [listing[i]] + listing[i + 1..];
    WalkAppend(dir, listing[..i] + [listing[i]], listing[i + 1..]);
    WalkAppend(dir, listing[..i], [listing[i]]);
    assert Walk(dir, [listing[i]]) == Emit(dir, listing[i]) by {
      assert [listing[i]][..0] == [];
    }
  }

  /** One path per non-directory entry; directories, empty or not, add none of their own. */
  lemma {:induction false} WalkLength(dir: string, listing: seq<Dirent>)
    ensures |Walk(dir, listing)| == LeafCount(listing)
    decreases listing, 1
  {
    if listing != [] {
      WalkSplit(dir, listing, 0);
      assert listing[..0] == [];
      EmitLength(dir, listing[0]);
      WalkLength(dir, listing[1..]);
    }
  }

  lemma {:induction false} EmitLength(dir: string, d: Dirent)
    ensures |Emit(dir, d)| == LeafCountOf(d)
    decreases d.node, 0
  {
    match d.node
    case Directory(listing) => WalkLength(Join(dir, d.name), listing);
    case NonDirectory(_) =>
  }

  /** Every origin is the position of a non-directory entry. */
  lemma {:induction false} OriginsAreLeaves(listing: seq<Dirent>)
    ensures forall k :: 0 <= k < |Origins(listing)| ==> LeafAt(listing, Origins(listing)[k])
    decreases listing, 1
  {
    if listing != [] {
      var n := |listing| - 1;
      var init := listing[..n];
      OriginsAreLeaves(init);
      OriginsOfAreLeaves(listing, n);
      forall k | 0 <= k < |Origins(init)| ensures LeafAt(listing, Origins(init)[k]) {
        PositionInLargerListing("", init, listing, Origins(init)[k]);
      }
    }
  }

  lemma {:induction false} OriginsOfAreLeaves(listing: seq<Dirent>, i: nat)
    requires i < |listing|
    ensures forall k :: 0 <= k < |OriginsOf(i, listing[i])| ==>
      LeafAt(listing, OriginsOf(i, listing[i])[k]) && OriginsOf(i, listing[i])[k][0] == i
    decreases listing[i].node, 0
  {
    match listing[i].node
    case Directory(children) =>
      OriginsAreLeaves(children);
      forall k | 0 <= k < |Origins(children)|
        ensures LeafAt(listing, [i] + Origins(children)[k])
      {
        PositionInParent("", listing, i, Origins(children)[k]);
      }
    case NonDirectory(_) =>
  }

  /** The k-th path of the walk is the path of the k-th origin. */
  lemma {:induction false} WalkAtOrigins(dir: string, listing: seq<Dirent>)
    ensures |Origins(listing)| == |Walk(dir, listing)|
    ensures forall k :: 0 <= k < |Walk(dir, listing)| ==>
      LeafAt(listing, Origins(listing)[k]) && Walk(dir, listing)[k] == PathAt(dir, listing, Origins(listing)[k])
    decreases listing, 1
  {
    OriginsAreLeaves(listing);
    if listing != [] {
      var n := |listing| - 1;
      var init := listing[..n];
      WalkAtOrigins(dir, init);
      EmitAtOrigins(dir, listing, n);
      forall k | 0 <= k < |Walk(dir, init)|
        ensures PathAt(dir, listing, Origins(init)[k]) == PathAt(dir, init, Origins(init)[k])
      {
        PositionInLargerListing(dir, init, listing, Origins(init)[k]);
      }
    }
  }

  lemma {:induction false} EmitAtOrigins(dir: string, listing: seq<Dirent>, i: nat)
    requires i < |listing|
    ensures |OriginsOf(i, listing[i])| == |Emit(dir, listing[i])|
    ensures forall k :: 0 <= k < |Emit(dir, listing[i])| ==>
      LeafAt(listing, OriginsOf(i, listing[i])[k]) &&
      Emit(dir, listing[i])[k] == PathAt(dir, listing, OriginsOf(i, listing[i])[k])
    decreases listing[i].node, 0
  {
    OriginsOfAreLeaves(listing, i);
    match listing[i].node
    case Directory(children) =>
      var sub := Join(dir, listing[i].name);
      WalkAtOrigins(sub, children);
      forall k | 0 <= k < |Origins(children)|
        ensures PathAt(dir, listing, [i] + Origins(children)[k]) == PathAt(sub, children, Origins(children)[k])
      {
        PositionInParent(dir, listing, i, Origins(children)[k]);
      }
    case NonDirectory(_) =>
  }

  /** The origins of a prefix of a listing are a prefix of the listing's origins. */
  lemma {:induction false} OriginsOfPrefix(listing: seq<Dirent>, m: nat)
    requires m <= |listing|
    ensures Origins(listing[..m]) <= Origins(listing)
    decreases |listing| - m
  {
    if m == |listing| {
      assert listing[..m] == listing;
    } else {
      OriginsOfPrefix(listing, m + 1);
      assert listing[..m + 1][..m] == listing[..m];
    }
  }

  /** Every non-directory entry of the tree is an origin. */
  lemma {:induction false} OriginsComplete(listing: seq<Dirent>, pos: Position)
    requires LeafAt(listing, pos)
    ensures pos in Origins(listing)
    decreases pos
  {
    var i := pos[0];
    OriginsOfPrefix(listing, i + 1);
    assert listing[..i + 1][..i] == listing[..i];
    assert Origins(listing[..i + 1]) == Origins(listing[..i]) + OriginsOf(i, listing[i]);
    match listing[i].node {
      case NonDirectory(_) =>
        assert pos == [i];
        assert OriginsOf(i, listing[i]) == [pos];
      case Directory(children) =>
        assert pos == [i] + pos[1..];
        OriginsComplete(children, pos[1..]);
        var k :| 0 <= k < |Origins(children)| && Origins(children)[k] == pos[1..];
        assert OriginsOf(i, listing[i])[k] == pos;
    }
    var prefix := Origins(listing[..i + 1]);
    assert pos in prefix;
    assert prefix == Origins(listing)[..|prefix|];
  }

  /** The origins are listed in depth-first, listing order. */
  lemma {:induction false} OriginsInOrder(listing: seq<Dirent>)
    ensures forall j, k :: 0 <= j < k < |Origins(listing)| ==> Precedes(Origins(listing)[j], Origins(listing)[k])
    decreases listing, 1
  {
    if listing != [] {
      var n := |listing| - 1;
      var init := listing[..n];
      var before, last := Origins(init), OriginsOf(n, listing[n]);
      OriginsInOrder(init);
      OriginsOfInOrder(n, listing[n]);
      OriginsAreLeaves(init);
      OriginsOfAreLeaves(listing, n);
      forall j, k | 0 <= j < k < |before + last| ensures Precedes((before + last)[j], (before + last)[k]) {
        if k < |before| {
          assert Precedes(before[j], before[k]);
        } else if j >= |before| {
          assert Precedes(last[j - |before|], last[k - |before|]);
        } else {
          assert before[j][0] < n == last[k - |before|][0];
        }
      }
    }
  }

  lemma {:induction false} OriginsOfInOrder(i: nat, d: Dirent)
    ensures forall j, k :: 0 <= j < k < |OriginsOf(i, d)| ==> Precedes(OriginsOf(i, d)[j], OriginsOf(i, d)[k])
    decreases d.node, 0
  {
    match d.node
    case Directory(children) =>
      var inner := Origins(children);
      OriginsInOrder(children);
      OriginsAreLeaves(children);
      forall j, k | 0 <= j < k < |inner| ensures Precedes([i] + inner[j], [i] + inner[k]) {
        assert ([i] + inner[j])[1..] == inner[j];
        assert ([i] + inner[k])[1..] == inner[k];
      }
    case NonDirectory(_) =>
  }

  /** A path is listed exactly when it is the path of some non-directory entry at any depth. */
  lemma WalkListsExactlyTheLeaves(dir: string, listing: seq<Dirent>, path: string)
    ensures path in Walk(dir, listing) <==> exists pos :: LeafAt(listing, pos) && PathAt(dir, listing, pos) == path
  {
    WalkAtOrigins(dir, listing);
    if path in Walk(dir, listing) {
      var k :| 0 <= k < |Walk(dir, listing)| && Walk(dir, listing)[k] == path;
      assert LeafAt(listing, Origins(listing)[k]);
    }
    if pos :| LeafAt(listing, pos) && PathAt(dir, listing, pos) == path {
      OriginsComplete(listing, pos);
      var k :| 0 <= k < |Origins(listing)| && Origins(listing)[k] == pos;
      assert Walk(dir, listing)[k] == path;
    }
  }

  /** Two origins in depth-first order sit at increasing indices. */
  lemma OriginIndicesFollowOrder(listing: seq<Dirent>, j: nat, k: nat)
    requires j < |Origins(listing)| && k < |Origins(listing)|
    requires Precedes(Origins(listing)[j], Origins(listing)[k])
    ensures j < k
  {
    OriginsInOrder(listing);
    PrecedesIrreflexive(Origins(listing)[j]);
    if k < j {
      assert Precedes(Origins(listing)[k], Origins(listing)[j]);
      PrecedesAsymmetric(Origins(listing)[j], Origins(listing)[k]);
    }
  }

  /** If `p` comes before `q` depth-first, `p`'s path is listed before `q`'s. */
  lemma LeavesListedInDepthFirstOrder(dir: string, listing: seq<Dirent>, p: Position, q: Position)
    requires LeafAt(listing, p) && LeafAt(listing, q) && Precedes(p, q)
    ensures exists j, k ::
      (0 <= j < k < |Walk(dir, listing)| &&
       Walk(dir, listing)[j] == PathAt(dir, listing, p) && Walk(dir, listing)[k] == PathAt(dir, listing, q))
  {
    WalkAtOrigins(dir, listing);
    OriginsComplete(listing, p);
    OriginsComplete(listing, q);
    var origins := Origins(listing);
    var j :| 0 <= j < |origins| && origins[j] == p;
    var k :| 0 <= k < |origins| && origins[k] == q;
    OriginIndicesFollowOrder(listing, j, k);
    assert Walk(dir, listing)[j] == PathAt(dir, listing, p);
    assert Walk(dir, listing)[k] == PathAt(dir, listing, q);
  }

  /** Every listed path starts with the root directory and a separator. */
  lemma WalkBelowRoot(dir: string, listing: seq<Dirent>)
    ensures forall k :: 0 <= k < |Walk(dir, listing)| ==> IsPrefix(dir + [Separator], Walk(dir, listing)[k])
  {
    WalkAtOrigins(dir, listing);
    forall k | 0 <= k < |Walk(dir, listing)| ensures IsPrefix(dir + [Separator], Walk(dir, listing)[k]) {
      PathAtBelowDir(dir, listing, Origins(listing)[k]);
    }
  }

  /** In a well-formed tree no path is listed twice. */
  lemma WalkDistinct(dir: string, listing: seq<Dirent>)
    requires WellFormed(listing)
    ensures forall j, k :: 0 <= j < k < |Walk(dir, listing)| ==> Walk(dir, listing)[j] != Walk(dir, listing)[k]
  {
    WalkAtOrigins(dir, listing);
    OriginsInOrder(listing);
    var origins := Origins(listing);
    forall j, k | 0 <= j < k < |Walk(dir, listing)| ensures Walk(dir, listing)[j] != Walk(dir, listing)[k] {
      PrecedesIrreflexive(origins[j]);
      PathAtInjective(dir, listing, origins[j], origins[k]);
    }
  }

  /** In a well-formed tree the path of a directory is never listed. */
  lemma DirectoryPathNotListed(dir: string, listing: seq<Dirent>, pos: Position)
    requires WellFormed(listing)
    requires ValidPosition(listing, pos) && EntryAt(listing, pos).node.Directory?
    ensures PathAt(dir, listing, pos) !in Walk(dir, listing)
  {
    WalkAtOrigins(dir, listing);
    forall k | 0 <= k < |Walk(dir, listing)| ensures Walk(dir, listing)[k] != PathAt(dir, listing, pos) {
      PathAtInjective(dir, listing, Origins(listing)[k], pos);
    }
  }

  /** A tree with no non-directory entry at any depth lists nothing. */
  lemma OnlyDirectoriesListNothing(dir: string, listing: seq<Dirent>)
    requires forall pos :: ValidPosition(listing, pos) ==> EntryAt(listing, pos).node.Directory?
    ensures Walk(dir, listing) == []
  {
    WalkAtOrigins(dir, listing);
    assert |Walk(dir, listing)| > 0 ==> LeafAt(listing, Origins(listing)[0]);
  }
}
