/**
  The deployment step that consumes the walk: list every file under the
  build directory, then declare one bucket object per file whose name is
  the file's path with the build directory removed.
 */
module AssetUpload {
  import opened Wrappers
  import opened FileTree
  import opened AssetWalk
  import opened AssetEnumerator
  import opened StringSearch

  /** A declared bucket object: its name (the destination key) and the file it uploads. */
  datatype BucketObject = BucketObject(name: string, source: string)

  /** `file.replace(buildDir, "")`: for a file below the build directory, the rest of its path. */
  function DestinationName(buildDir: string, file: string): (key: string)
    ensures IsPrefix(buildDir, file) ==> buildDir + key == file
    ensures IsPrefix(buildDir, file) ==> |key| == |file| - |buildDir|
  {
    RemoveFirst(file, buildDir)
  }

  /**
    List all files under `buildDir` and declare one bucket object for each,
    in listing order. Each object's name is its file's path relative to the
    build directory, starting with a separator; in a well-formed tree no two
    objects share a name.
   */
  method UploadAssets(buildDir: string, root: Node) returns (r: Result<seq<BucketObject>, FsError>)
    ensures r.Ok? <==> root.Directory?
    ensures r.Err? ==> r.error == NotADirectory
    ensures r.Ok? ==> |r.value| == |Walk(buildDir, root.listing)|
    ensures r.Ok? ==> forall i :: 0 <= i < |r.value| ==>
      && r.value[i].source == Walk(buildDir, root.listing)[i]
      && buildDir + r.value[i].name == r.value[i].source
      && IsPrefix([Separator], r.value[i].name)
    ensures r.Ok? && WellFormed(root.listing) ==>
      forall i, j :: 0 <= i < j < |r.value| ==> r.value[i].name != r.value[j].name
  {
    var locations := new PathList();
    var listed := ListAllFiles(buildDir, root, locations);
    if listed.Err? {
      return Err(listed.error);
    }
    var files := listed.value.paths;
    assert files == Walk(buildDir, root.listing);
    WalkBelowRoot(buildDir, root.listing);
    var objects: seq<BucketObject> := [];
    for i := 0 to |files|
      invariant |objects| == i
      invariant forall k :: 0 <= k < i ==>
        objects[k].source == files[k] && buildDir + objects[k].name == files[k]
      invariant forall k :: 0 <= k < i ==> IsPrefix([Separator], objects[k].name)
    {
      var file := files[i];
      var destinationName := DestinationName(buildDir, file);
      ListedFileKey(buildDir, file);
      objects := objects + [BucketObject(destinationName, file)];
    }
    if WellFormed(root.listing) {
      WalkDistinct(buildDir, root.listing);
      forall i, j | 0 <= i < j < |objects| ensures objects[i].name != objects[j].name {
        assert buildDir + objects[i].name != buildDir + objects[j].name;
      }
    }
    return Ok(objects);
  }

  /** The key of a file below the build directory is its path after the build directory, separator first. */
  lemma ListedFileKey(buildDir: string, file: string)
    requires IsPrefix(buildDir + [Separator], file)
    ensures buildDir + DestinationName(buildDir, file) == file
    ensures IsPrefix([Separator], DestinationName(buildDir, file))
  {
  }
}
