/**
 * The publish step of the upload route (server/routes.ts): the first 100 collected files are
 * committed one by one with `createOrUpdateFileContents`; a rejected call is caught and the loop
 * goes on with the next file.
 */
module Publisher {
  import opened Collector

  /** `filesToUpload.slice(0, 100)`. */
  const MaxUploads: nat := 100

  /** The files that are published: the first `MaxUploads` collected ones, in collection order. */
  function UploadSlice(files: seq<CollectedFile>): (r: seq<CollectedFile>)
    ensures r <= files
    ensures |r| == if |files| <= MaxUploads then |files| else MaxUploads
  {
    if |files| <= MaxUploads then files else files[..MaxUploads]
  }

  /** `Buffer.from(text).toString('base64')`; the encoding itself is kept opaque. */
  datatype Payload = Base64(text: string)

  /** The arguments of one `createOrUpdateFileContents` call. */
  datatype FileCommit = FileCommit(owner: string, repo: string, path: string, message: string, content: Payload)

  /** One attempted commit and whether the remote accepted it. */
  datatype Attempt = Attempt(commit: FileCommit, succeeded: bool)

  /** The commit requested for one file: into the new repository, at the file's path, "Add <path>". */
  function CommitFor(owner: string, repo: string, f: CollectedFile): FileCommit {
    FileCommit(owner, repo, f.path, "Add " + f.path, Base64(f.content))
  }

  /**
   * The publish loop. `failing` is the remote's answer: the attempts (counted from 0) whose call
   * throws. Every file of the slice is attempted exactly once and in order, whatever the earlier
   * attempts gave, and nothing past the slice is attempted.
   */
  method PublishFiles(owner: string, repo: string, filesToUpload: seq<CollectedFile>, failing: set<nat>)
    returns (attempts: seq<Attempt>)
    ensures |attempts| == |UploadSlice(filesToUpload)|
    ensures forall i :: 0 <= i < |attempts| ==>
      attempts[i] == Attempt(CommitFor(owner, repo, filesToUpload[i]), i !in failing)
  {
    var batch := UploadSlice(filesToUpload);
    attempts := [];
    for i := 0 to |batch|
      invariant |attempts| == i
      invariant forall k :: 0 <= k < i ==> attempts[k] == Attempt(CommitFor(owner, repo, batch[k]), k !in failing)
    {
      var file := batch[i];
      var accepted := i !in failing;
      attempts := attempts + [Attempt(CommitFor(owner, repo, file), accepted)];
    }
  }

  /**
   * What reaches the remote: at most 100 files, each under an admissible path and each a file of
   * the tree below 1 MiB with its content unchanged.
   */
  lemma PublishedFilesAdmissible(root: Entry)
    requires root.Dir? ==> WellNamed(root.entries)
    ensures |UploadSlice(Walk(root, ""))| <= MaxUploads
    ensures forall f :: f in UploadSlice(Walk(root, "")) ==>
      f.path != "" && f.path[0] != '/'
      && (forall s :: s in Split(f.path) ==>
            s != "" && s !in ExcludeDirs && (s[0] == '.' ==> s == AllowedDotfile))
      && exists e: Entry :: (f.path, e) in FileSites(root, "") && e.File? && e.size < MaxFileSize && e.content == f.content
  {
    var files := Walk(root, "");
    CollectedPathsAdmissible(root);
    CollectedFilesSmall(root);
    forall f | f in UploadSlice(files)
      ensures f in files
    {
      var k :| 0 <= k < |UploadSlice(files)| && UploadSlice(files)[k] == f;
      assert files[k] == f;
    }
  }
}
