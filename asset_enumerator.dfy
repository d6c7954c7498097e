/**
  The asset enumerator `listAllFiles`: a depth-first walk that pushes the
  path of every non-directory entry onto one shared accumulator array,
  threads that same array through its recursive calls, and returns it.
 */
module AssetEnumerator {
  import opened Wrappers
  import opened FileTree
  import opened AssetWalk

  /** The accumulator array `locations`, which the walk grows in place. */
  class PathList {
    var paths: seq<string>

    /** The default argument `[]`. */
    constructor ()
      ensures paths == []
    {
      paths := [];
    }

    /** `Array.prototype.push` of one path. */
    method Push(path: string)
      modifies this
      ensures paths == old(paths) + [path]
    {
      paths := paths + [path];
    }
  }

  /**
    `listAllFiles(directory, locations)` for the node found at `directory`.
    Listing a non-directory throws before anything is pushed; otherwise the
    paths of the walk are appended after what `locations` already held, and
    the very same accumulator is returned.
   */
  method ListAllFiles(directory: string, node: Node, locations: PathList) returns (r: Result<PathList, FsError>)
    modifies locations
    ensures r.Ok? <==> node.Directory?
    ensures r.Ok? ==> r.value == locations
    ensures r.Ok? ==> locations.paths == old(locations.paths) + Walk(directory, node.listing)
    ensures r.Err? ==> r.error == NotADirectory && locations.paths == old(locations.paths)
    decreases node
  {
    var items := ReadDir(node);
    if items.Err? {
      return Err(items.error);
    }
    var listing := items.value;
    for i := 0 to |listing|
      invariant locations.paths == old(locations.paths) + Walk(directory, listing[..i])
    {
      var dirent := listing[i];
      var fullPath := Join(directory, dirent.name);
      assert listing[..i + 1][..i] == listing[..i];
      if dirent.node.Directory? {
        var _ := ListAllFiles(fullPath, dirent.node, locations);
      } else {
        locations.Push(fullPath);
      }
    }
    assert listing[..|listing|] == listing;
    return Ok(locations);
  }
}
