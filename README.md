# Asset enumerator of the Pulumi website stack

The Pulumi program of this repository deploys a single-page application to
an S3 bucket. Before it declares the bucket objects it enumerates the build
output with `listAllFiles`. That is a depth-first walk over the build
directory: it reads each directory's listing, recurses into every entry for
which `isDirectory()` is true, and pushes the joined path of every other
entry onto one shared `locations` array, which it then returns. The upload
loop names each object `file.replace(buildDir, "")`.

This project models that walk and the key derivation, and proves what they
produce.

- `FileTree` (file_tree.dfy) is the filesystem as a finite tree. A `Dirent` has
  a name and a `Node`. A node is a `Directory` with its ordered listing, or a
  `NonDirectory` of some kind: regular file, symbolic link, FIFO, socket or
  device. Entries are also addressed by positions (index paths from the
  root). `PathAt` gives an entry's path independently of the walk, and the
  lemmas about it show that in a well-formed tree distinct positions have
  distinct paths. A tree is well-formed when sibling names are distinct,
  non-empty and free of `/`.
- `AssetWalk` (walk.dfy) is the pure specification: `Walk(dir, listing)` is
  the sequence of paths the walk appends. Its lemmas relate it to the
  positional view: exactly the non-directory entries are listed, in
  depth-first listing order, one path each, all below the root, with no
  duplicates and never a directory's own path.
- `AssetEnumerator` (asset_enumerator.dfy) is the imperative walker. It has a
  `PathList` class for the shared accumulator array and the recursive
  method `ListAllFiles`, whose `for` loop follows `forEach` and which is
  proved against `Walk`.
- `StringSearch` (string_search.dfy) models `replace(pattern, "")` for a string
  pattern, together with the first-occurrence search it performs (the same
  search `indexOf` does).
- `AssetUpload` (asset_upload.dfy) models the caller. It lists the build
  directory and derives one bucket object per file, and it proves that each
  name is the file's path after `buildDir`.

Two consequences of `isDirectory()` deciding the walk:
- The walk lists every entry whose `Dirent.isDirectory()` is false, not
  only regular files: symbolic links (even links to directories), FIFOs,
  sockets and devices.
- The walk cannot loop on symbolic-link cycles. It never follows a link
  found in a listing, because `isDirectory()` is false for a link's
  `Dirent`.

## Model

| member | source | states |
|---|---|---|
| FileTree.Join | pulumi/index.ts:193 | the joined path starts with the directory and a separator, and what follows is exactly the entry's name |
| FileTree.ReadDir | pulumi/index.ts:190 | `readdirSync` with file types, on the node reached after following a root link, succeeds exactly on a directory and yields its listing in order; on any other node it fails with ENOTDIR |
| FileTree.PathAtBelowDir | pulumi/index.ts:193 | every path built by joining below a directory starts with that directory followed by a separator and is longer than it |
| FileTree.PathAtShape | pulumi/index.ts:193-195 | an entry's path is its parent's path joined with its name, and paths found by recursing into it extend that path past a separator |
| FileTree.PathAtInjective | pulumi/index.ts:192-199 | in a well-formed tree (distinct, non-empty, separator-free sibling names), two different entries never get the same path |
| AssetWalk.Walk | pulumi/index.ts:192-199 | the reference the walker is proved against: for each entry in listing order, a directory contributes its own walk and any other entry its joined path; its properties are the lemmas below |
| AssetWalk.Emit | pulumi/index.ts:193-198 | one entry's contribution to `Walk`: the walk below a directory, or the single joined path of any other entry |
| AssetWalk.WalkAppend | pulumi/index.ts:192-199 | walking a listing `a + b` appends the paths of `a` and then those of `b` |
| AssetWalk.WalkSplit | pulumi/index.ts:192-199 | the paths of the i-th entry sit between those of the entries before it and after it: a file's single path, or all of a subdirectory's paths contiguously |
| AssetWalk.WalkLength | pulumi/index.ts:190-201 | the walk adds exactly one path per non-directory entry at any depth (an independently defined count); directories add none of their own |
| AssetWalk.WalkAtOrigins | pulumi/index.ts:192-199 | the k-th appended path is the path of a non-directory entry, the k-th origin |
| AssetWalk.OriginsComplete | pulumi/index.ts:192-198 | every non-directory entry at any depth is among the origins of the walk |
| AssetWalk.OriginsInOrder | pulumi/index.ts:192-199 | the origins are listed in depth-first, listing order |
| AssetWalk.OriginIndicesFollowOrder | pulumi/index.ts:192-199 | an entry before another in depth-first order has a smaller index in the walk |
| AssetWalk.WalkListsExactlyTheLeaves | pulumi/index.ts:192-198 | a path is listed if and only if it is the path of some non-directory entry at some depth |
| AssetWalk.LeavesListedInDepthFirstOrder | pulumi/index.ts:192-199 | if entry p precedes entry q depth-first in listing order, p's path is listed at an earlier index than q's |
| AssetWalk.WalkBelowRoot | pulumi/index.ts:193 | every listed path starts with the root directory followed by a separator |
| AssetWalk.WalkDistinct | pulumi/index.ts:192-199 | in a well-formed tree no path is listed twice, since each entry is visited once |
| AssetWalk.DirectoryPathNotListed | pulumi/index.ts:194-195 | in a well-formed tree the path of a directory, at any depth, is never in the output |
| AssetWalk.OnlyDirectoriesListNothing | pulumi/index.ts:190-201 | a tree with no non-directory entry, such as an empty directory or one with only empty subdirectories, lists nothing |
| AssetEnumerator.PathList.constructor | pulumi/index.ts:189 | the default accumulator starts empty |
| AssetEnumerator.PathList.Push | pulumi/index.ts:197 | `push` appends one path and keeps everything before it |
| AssetEnumerator.ListAllFiles | pulumi/index.ts:189-202 | on a directory it returns the very accumulator it was given, whose old contents are kept as a prefix and followed by `Walk` of the listing; on a non-directory it fails with ENOTDIR and pushes nothing |
| StringSearch.SearchFrom | pulumi/index.ts:32 | the first occurrence of the pattern at or after a start index, or -1 exactly when there is none |
| StringSearch.IndexOf | pulumi/index.ts:32 | the first-occurrence search `replace` performs for a string pattern (the search `indexOf` also does): -1 exactly when the pattern does not occur; otherwise an occurrence with none before it |
| StringSearch.RemoveFirst | pulumi/index.ts:32 | `replace(pattern, "")` returns the string unchanged when the pattern does not occur; otherwise it is shorter by the pattern, and inserting the pattern at the first occurrence restores it; a string starting with the pattern becomes its remainder |
| AssetUpload.DestinationName | pulumi/index.ts:32 | for a file below the build directory, `buildDir + key == file` |
| AssetUpload.ListedFileKey | pulumi/index.ts:28-32 | the key of a file listed under the build directory is its path after `buildDir`, starting with a separator |
| AssetUpload.UploadAssets | pulumi/index.ts:28-38 | one bucket object per listed file, in walk order; each object's source is the file, and its name is the path after `buildDir`, starting with a separator; names are pairwise distinct in a well-formed tree; it fails with ENOTDIR exactly when the build path is not a directory |

## Left out

- The AWS and Pulumi resource declarations (pulumi/index.ts:7-26 and 40-187) are not modelled. They are a declarative resource graph evaluated by the provider, and there is nothing to compute in them. A bucket object is reduced to its name and its source file.
- Content-type inference `mime.getType` (pulumi/index.ts:36) is not modelled. It is a call into a library whose code is not part of this model.
- `fs.readdirSync` and `Dirent.isDirectory` are not modelled as I/O. Their results are the input tree. The model covers the ENOTDIR failure of listing a non-directory root. A missing root, a permission error, and a directory removed or changed during the walk are not modelled, because a tree value cannot express them. In the code such an error is thrown out of every level, after some paths may already have been pushed onto the shared array.
- FileTree.ReadDir: the root node is the node reached after following any symbolic link at the root path. A root that is itself a link is not modelled as a link: a link to a directory is given as that directory, and a dangling link (which makes `readdirSync` fail with ENOENT) is not modelled.
- FileTree.Join does not model `path.join` normalisation. It models joining as `dir + "/" + name`. That matches `path.join` for a normalised absolute directory other than `/` and a non-empty name other than `.` or `..` without separators. That is what the walk passes: `buildDir` (pulumi/index.ts:28) is built from the absolute `__dirname` by `path.join`, every `fullPath` (pulumi/index.ts:193) comes from `path.join`, and `readdirSync` never lists an empty name, `.` or `..`. Windows separators are not modelled.
- StringSearch.RemoveFirst does not model `$` substitution patterns in a replacement string, because the source always replaces with the empty string.
- cdk/lib/cdk-stack.ts is not part of this model. It declares a bucket, a deployment and an output through CDK constructs and has no computable behaviour.
- app/client/src/App.js is not part of this model. It renders routes over a constant page list.
- AssetWalk.WalkDistinct and AssetWalk.DirectoryPathNotListed require a well-formed tree (distinct, non-empty, separator-free sibling names). A listing of valid UTF-8 names guarantees this, but the tree type alone does not.
