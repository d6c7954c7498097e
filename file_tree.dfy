/**
  The part of the host filesystem that the asset walker reads: a finite,
  acyclic tree of directory entries, each directory holding its listing in
  the order `fs.readdirSync` returns it.

  An entry is addressed by a position: the sequence of indices followed from
  the root listing down to it. Positions give a second, non-recursive way to
  name every entry of the tree, against which the walk is checked.
 */
module FileTree {
  import opened Wrappers

  /** The kinds of entry for which `Dirent.isDirectory()` answers false. */
  datatype FileKind = RegularFile | SymbolicLink | Fifo | Socket | BlockDevice | CharacterDevice

  /** A node is a directory with its ordered listing, or anything else. */
  datatype Node = Directory(listing: seq<Dirent>) | NonDirectory(kind: FileKind)

  /** One element of a directory listing: the entry's name and what it is. */
  datatype Dirent = Dirent(name: string, node: Node)

  /** The one failure of listing a node the tree can express (ENOTDIR). */
  datatype FsError = NotADirectory

  const Separator: char := '/'

  /**
    `path.join(dir, name)` for a normalised absolute directory other than
    `/` and a non-empty name other than `.` or `..` without separators:
    the directory, a separator, then the name.
   */
  function Join(dir: string, name: string): (path: string)
    ensures IsPrefix(dir + [Separator], path)
    ensures path[|dir| + 1..] == name
  {
    dir + [Separator] + name
  }

  /**
    What `fs.readdirSync(path, { withFileTypes: true })` yields for the node
    at `path`, once any symbolic link at `path` itself has been followed.
    Links found inside a listing are never followed by the walk, because
    only entries whose `isDirectory()` is true are listed in turn.
   */
  function ReadDir(node: Node): (r: Result<seq<Dirent>, FsError>)
    ensures r.Ok? <==> node.Directory?
    ensures r.Ok? ==> r.value == node.listing
  {
    match node
    case Directory(listing) => Ok(listing)
    case NonDirectory(_) => Err(NotADirectory)
  }

  predicate IsPrefix(prefix: string, s: string)
  {
    |prefix| <= |s| && s[..|prefix|] == prefix
  }

  /** A name a real directory listing can hold: non-empty and free of separators. */
  predicate ValidName(name: string)
  {
    name != [] && Separator !in name
  }

  /** Every listing in the tree has valid, pairwise distinct names. */
  predicate WellFormed(listing: seq<Dirent>)
    decreases listing, 1
  {
    && (forall i, j :: 0 <= i < j < |listing| ==> listing[i].name != listing[j].name)
    && (forall i :: 0 <= i < |listing| ==> WellFormedEntry(listing[i]))
  }

  predicate WellFormedEntry(d: Dirent)
    decreases d.node, 0
  {
    ValidName(d.name) && (d.node.Directory? ==> WellFormed(d.node.listing))
  }

  /** A sequence of indices from the root listing down to an entry. */
  type Position = seq<nat>

  predicate ValidPosition(listing: seq<Dirent>, pos: Position)
    decreases pos
  {
    && |pos| > 0
    && pos[0] < |listing|
    && (|pos| > 1 ==>
          listing[pos[0]].node.Directory? && ValidPosition(listing[pos[0]].node.listing, pos[1..]))
  }

  /** The entry at a position. */
  function EntryAt(listing: seq<Dirent>, pos: Position): Dirent
    requires ValidPosition(listing, pos)
    decreases pos
  {
    if |pos| == 1 then listing[pos[0]]
    else EntryAt(listing[pos[0]].node.listing, pos[1..])
  }

  /** The path of the entry at a position, below the directory `dir` whose listing is given. */
  function PathAt(dir: string, listing: seq<Dirent>, pos: Position): string
    requires ValidPosition(listing, pos)
    decreases pos
  {
    var path := Join(dir, listing[pos[0]].name);
    if |pos| == 1 then path
    else PathAt(path, listing[pos[0]].node.listing, pos[1..])
  }

  /** A position means the same entry and path in any listing that agrees on its first index. */
  lemma PositionInLargerListing(dir: string, small: seq<Dirent>, large: seq<Dirent>, pos: Position)
    requires ValidPosition(small, pos)
    requires |small| <= |large| && large[..|small|] == small
    ensures ValidPosition(large, pos)
    ensures EntryAt(large, pos) == EntryAt(small, pos)
    ensures PathAt(dir, large, pos) == PathAt(dir, small, pos)
  {
  }

  /** Prefixing an index to a position inside a directory's listing gives the position in the parent. */
  lemma PositionInParent(dir: string, listing: seq<Dirent>, i: nat, inner: Position)
    requires i < |listing| && listing[i].node.Directory?
    requires ValidPosition(listing[i].node.listing, inner)
    ensures ValidPosition(listing, [i] + inner)
    ensures EntryAt(listing, [i] + inner) == EntryAt(listing[i].node.listing, inner)
    ensures PathAt(dir, listing, [i] + inner) == PathAt(Join(dir, listing[i].name), listing[i].node.listing, inner)
  {
  }

  /** Every path below `dir` starts with `dir` and a separator. */
  lemma {:induction false} PathAtBelowDir(dir: string, listing: seq<Dirent>, pos: Position)
    requires ValidPosition(listing, pos)
    ensures IsPrefix(dir + [Separator], PathAt(dir, listing, pos))
    ensures |PathAt(dir, listing, pos)| > |dir|
    decreases pos
  {
    var path := Join(dir, listing[pos[0]].name);
    assert IsPrefix(dir + [Separator], path);
    if |pos| > 1 {
      PathAtBelowDir(path, listing[pos[0]].node.listing, pos[1..]);
    }
  }

  /**
    The path at a position is its first entry's joined path when the position
    has one index, and extends that path past a separator when it descends.
   */
  lemma PathAtShape(dir: string, listing: seq<Dirent>, pos: Position)
    requires ValidPosition(listing, pos)
    ensures |pos| == 1 ==> PathAt(dir, listing, pos) == Join(dir, listing[pos[0]].name)
    ensures |pos| > 1 ==>
      IsPrefix(Join(dir, listing[pos[0]].name) + [Separator], PathAt(dir, listing, pos))
  {
    if |pos| > 1 {
      PathAtBelowDir(Join(dir, listing[pos[0]].name), listing[pos[0]].node.listing, pos[1..]);
    }
  }

  /**
    Two strings that each are `pre + a`, or extend `pre + a` past a separator,
    differ when `a` and `b` are different names without separators.
   */
  lemma SeparateNames(pre: string, a: string, b: string, x: string, y: string)
    requires Separator !in a && Separator !in b && a != b
    requires x == pre + a || IsPrefix(pre + a + [Separator], x)
    requires y == pre + b || IsPrefix(pre + b + [Separator], y)
    ensures x != y
  {
    var m := |pre|;
    assert x[..m + |a|] == pre + a by {
      if x != pre + a { assert (pre + a + [Separator])[..m + |a|] == pre + a; }
    }
    assert y[..m + |b|] == pre + b by {
      if y != pre + b { assert (pre + b + [Separator])[..m + |b|] == pre + b; }
    }
    assert forall k :: 0 <= k < |a| ==> x[m + k] == a[k] by {
      forall k | 0 <= k < |a| ensures x[m + k] == a[k] { assert x[m + k] == x[..m + |a|][m + k]; }
    }
    assert forall k :: 0 <= k < |b| ==> y[m + k] == b[k] by {
      forall k | 0 <= k < |b| ensures y[m + k] == b[k] { assert y[m + k] == y[..m + |b|][m + k]; }
    }
    if |a| == |b| {
      var k :| 0 <= k < |a| && a[k] != b[k];
      assert x[m + k] != y[m + k];
    } else if |a| < |b| {
      ShorterNameSeparates(pre, a, b, x, y);
    } else {
      ShorterNameSeparates(pre, b, a, y, x);
    }
  }

  /** The case of `SeparateNames` where `a` is the shorter name. */
  lemma ShorterNameSeparates(pre: string, a: string, b: string, x: string, y: string)
    requires Separator !in b && |a| < |b|
    requires x == pre + a || IsPrefix(pre + a + [Separator], x)
    requires IsPrefix(pre + b, y)
    ensures x != y
  {
    var m := |pre|;
    assert x[..m + |a|] == pre + a by {
      if x != pre + a { assert (pre + a + [Separator])[..m + |a|] == pre + a; }
    }
    if b[..|a|] != a {
      var k :| 0 <= k < |a| && a[k] != b[k];
      assert x[m + k] == (pre + a)[m + k];
      assert y[m + k] == (pre + b)[m + k];
    } else {
      assert y[m + |a|] == (pre + b)[m + |a|] == b[|a|];
      assert b[|a|] in b;
      if x != pre + a {
        assert x[m + |a|] == (pre + a + [Separator])[m + |a|] == Separator;
      }
    }
  }

  /** In a well-formed tree, distinct positions have distinct paths. */
  lemma {:induction false} PathAtInjective(dir: string, listing: seq<Dirent>, p: Position, q: Position)
    requires WellFormed(listing)
    requires ValidPosition(listing, p) && ValidPosition(listing, q)
    requires p != q
    ensures PathAt(dir, listing, p) != PathAt(dir, listing, q)
    decreases p
  {
    PathAtShape(dir, listing, p);
    PathAtShape(dir, listing, q);
    var a, b := listing[p[0]], listing[q[0]];
    assert WellFormedEntry(a) && WellFormedEntry(b);
    var pre := dir + [Separator];
    if p[0] != q[0] {
      assert a.name != b.name;
      SeparateNames(pre, a.name, b.name, PathAt(dir, listing, p), PathAt(dir, listing, q));
    } else if |p| == 1 || |q| == 1 {
      // Both are the entry's own path only if p == q; otherwise one lies strictly below the other.
    } else {
      assert p == [p[0]] + p[1..] && q == [q[0]] + q[1..];
      PathAtInjective(Join(dir, a.name), a.node.listing, p[1..], q[1..]);
    }
  }
}
