# Upload-to-GitHub route: a verified Dafny model

This project models the one piece of real logic in the repository: the `POST /api/github/upload`
route. The route validates the request body against `githubUploadSchema`. It creates a repository
for the authenticated user. It walks the server's working directory, collecting text files, and it
commits the first 100 of those files one at a time. Failed commits are ignored.

Modules, one per concern:

- `Wrappers` (`wrappers.dfy`): `Option` and `Result`.
- `Schema` (`schema.dfy`): the body as JSON, zod's field rules and defaults, and the issues it reports.
- `Collector` (`collector.dfy`): `walkDir` over an abstract directory tree. `Walk`/`WalkEntries`
  specify what the walk appends. The class `FileCollector` holds the `filesToUpload` buffer, and its
  recursive `WalkDir` method appends to it in a loop, proved equal to `Walk`. Lemmas cover order,
  error containment, path shape, provenance, the size bound and completeness.
- `Publisher` (`publisher.dfy`): `slice(0, 100)` and the per-file commit loop, driven by a failure oracle.
- `UploadRoute` (`upload_route.dfy`): the handler. It returns the HTTP response and the trace of
  remote calls it made, in order.

Each filesystem entry carries the outcome of the system calls the walk makes on it: `statOk` for
`statSync`, `listable` for `readdirSync` and `readable` for `readFileSync`. The remote API is an
oracle with these parts:

- whether the client can be obtained;
- the login, or the error the identity lookup throws;
- the created repository, or the error creation throws;
- the set of commit attempts that throw.

Three behaviours of the code are easy to misread:

- The exclusion list is matched against file names as well as directory names.
- A failing `statSync` is caught by the directory's outer `catch`. That entry and every later
  sibling are lost, not only the failing entry.
- Reading with `'utf-8'` does not fail on undecodable bytes. "Unreadable" is therefore an abstract
  read failure, not binary detection.

## Model

| member | source | states |
|---|---|---|
| `Schema.Validate` | shared/schema.ts:20-25 | A non-object body gets one root issue. An object is accepted iff `repoName` is a non-empty string, `repoDescription` is absent or a string, and both flags are absent or booleans. A refused object gets one issue per faulty field, naming it, in declaration order. |
| `Schema.ParseRepoName` | shared/schema.ts:21 | `repoName` is accepted iff it is a non-empty string, and then unchanged. Otherwise the one issue names `repoName`. |
| `Schema.ParseDescription` | shared/schema.ts:22 | `repoDescription` is accepted iff it is absent or a string. Absent stays absent and a string is kept verbatim. Otherwise the one issue names the field. |
| `Schema.ParseFlag` | shared/schema.ts:23-24 | A flag is accepted iff it is absent or a boolean. It is the given value, or the default when absent. Otherwise the one issue names the field. |
| `Schema.AcceptedFields` | shared/schema.ts:21-24 | An accepted request carries `repoName` unchanged and non-empty. The description is as given, or absent. `isPrivate` is as given or `false`. `includeReadme` is as given or `true`. |
| `Schema.EmptyNameRejected` | shared/schema.ts:21 | An empty `repoName` is refused, with a too-small issue and the message "Repository name is required". |
| `Schema.ToJsonRoundTrip` | shared/schema.ts:20-25 | Every request with a non-empty name, written back as JSON, parses to itself. |
| `Schema.ValidateIdempotent` | shared/schema.ts:20-25 | Parsing an accepted request again gives it back unchanged; this follows from the round trip. |
| `Collector.FileCollector.constructor` | server/routes.ts:39 | The buffer starts empty. |
| `Collector.FileCollector.WalkDir` | server/routes.ts:41-66 | `walkDir(dir, base)` appends exactly `Walk(dir, base)` to the buffer and keeps what was already there. |
| `Collector.NameFilters` | server/routes.ts:38-46 | `.gitignore` is kept. Each of the seven excluded names is skipped. Any other dot-prefixed name is skipped. A name neither excluded nor dot-prefixed is kept. |
| `Collector.JoinPathSegments` | server/routes.ts:49 | The segments of `base ? base + "/" + name : name` are the base's segments followed by the name's; at the root they are the name's alone. |
| `Collector.WalkCount` | server/routes.ts:41-66 | `walkDir` yields no more files than the tree holds. |
| `Collector.WalkEntriesCount` | server/routes.ts:44-62 | The same bound, for the loop over one listing. |
| `Collector.WalkEntriesConcat` | server/routes.ts:44-62 | A listing without a stat failure yields its parts' files in order. A subdirectory's files come at its position, whatever fails inside it. |
| `Collector.StatFailureCutsListing` | server/routes.ts:44-65 | When `statSync` fails on an entry, the files of earlier siblings are kept. That entry and all later siblings are lost. |
| `Collector.InertEntryDropped` | server/routes.ts:42-61 | Each of these is dropped alone, as if absent from the listing: an entry with a skipped name (even if its stat fails), an unlistable directory, and an oversized or unreadable file. |
| `Collector.JoinPathGood` | server/routes.ts:45-49 | Joining an admitted name onto an admissible base gives an admissible path under `base + "/"`. |
| `Collector.WalkPaths` | server/routes.ts:41-53 | Every path collected below `base` starts with `base + "/"`. Every segment is non-empty, not an excluded name, and not dot-prefixed unless it is `.gitignore`. |
| `Collector.WalkEntriesPaths` | server/routes.ts:44-61 | The same path property, for the loop over one listing. |
| `Collector.CollectedPathsAdmissible` | server/routes.ts:38-68 | From the working directory, no collected path is empty or starts with `/`. No segment is empty, is one of the seven excluded names, or starts with `.` unless it is `.gitignore`. |
| `Collector.WalkProvenance` | server/routes.ts:52-57 | Every collected file is a file of the tree at that path. It passed both name filters, its stat and read succeeded, its size is below 1 MiB, and its content is unchanged. |
| `Collector.WalkEntriesProvenance` | server/routes.ts:44-61 | The same provenance, for the loop over one listing. |
| `Collector.CollectedFilesSmall` | server/routes.ts:54-57 | No collected file has a size of 1048576 bytes or more. |
| `Collector.WalkComplete` | server/routes.ts:41-66 | When no stat or listing that the walk performs fails, every readable file below 1 MiB whose path segments all pass the filters is collected under its path. |
| `Collector.WalkEntriesComplete` | server/routes.ts:44-61 | The same completeness (skipped-name entries may fail freely), for the loop over one listing. |
| `Collector.CollectedExactly` | server/routes.ts:38-68 | When no stat or listing that the walk performs fails, the collected files are exactly the tree's admissible files below 1 MiB. |
| `Publisher.UploadSlice` | server/routes.ts:71 | The publish set is a prefix of the collected files, of length min(100, n). |
| `Publisher.PublishFiles` | server/routes.ts:71-83 | Every file of the slice is attempted exactly once and in order, whatever earlier attempts gave. Attempt i uses the file's path, the message "Add " + path and its content. |
| `Publisher.PublishedFilesAdmissible` | server/routes.ts:38-71 | At most 100 files reach the remote. Each has an admissible path and comes from a file of the tree below 1 MiB. |
| `UploadRoute.ErrorMessage` | server/routes.ts:94 | The 500 message is never empty, and it is the error's own message when that is non-empty. |
| `UploadRoute.DescriptionParam` | server/routes.ts:32 | A description is sent iff it is present and non-empty, and then it is sent unchanged. |
| `UploadRoute.CreateCall` | server/routes.ts:30-35 | The creation request carries the requested name, the description only when it is non-empty, the privacy flag, and `auto_init` equal to `includeReadme`. |
| `UploadRoute.HandleUpload` | server/routes.ts:14-96 | A refused body gives 400 (and only then) with no remote call. A throwing client, identity lookup or creation gives 500 and stops the calls there. The working directory is walked exactly when the request succeeds, so never on a 400 or 500. Otherwise the calls are identity, creation, then one commit per published file. The response carries the created repository's URL and name and the login, whatever the commits gave. |

## Left out

- The GitHub client, its authentication and the network are not modelled. Client acquisition,
  identity, creation and per-commit results are oracle inputs.
- The creation oracle's result does not depend on the requested name, so a name collision is just
  an oracle that throws.
- The real filesystem (`readdirSync`, `statSync`, `readFileSync`, `process.cwd()`, `path.join`) is
  replaced by an abstract tree whose entries carry the outcome of each call.
- Symbolic links and their cycles are not modelled: the source does not guard against them.
- Entries other than regular files and directories are treated as files.
- Base64 encoding of the content is an opaque `Base64(text)` wrapper, so its round trip is not stated.
- Express routing, JSON body parsing, `console.error` and the async sequencing are not modelled.
  The handler is a sequential method that returns the response and the ordered call trace.
- The `success: true` field of the 200 response is implied by the `Uploaded` variant.
- zod is modelled only through the four field rules of `githubUploadSchema`.
- zod's human-readable messages for type errors are not modelled; issues carry the expected and
  received kinds instead.
- Unknown keys are not modelled: zod strips them and they affect nothing.
- JSON numbers are integers in the model, since only their kind matters.
- The client page (`client/src/pages/home.tsx`) is not part of this model: it is UI state with no logic of its own.
- The `users` table and `insertUserSchema` are not part of this model: this feature does not use them.
- Collector.WalkPaths, Collector.CollectedPathsAdmissible, Publisher.PublishedFilesAdmissible and the completeness lemmas assume every
  name the filesystem returns is non-empty and free of `/`. The operating system guarantees this;
  the walk itself does not depend on it.
