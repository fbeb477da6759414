# freehold file handlers in Dafny

This project models the core of the file handlers of freehold (`file.go`), a
permission-gated resource store. Every file carries a permission record with an
owner and public, friend and private tiers. It models three handlers:

- **GET** (`serveResource`) serves a file to a requester who can read it. On a
  directory it scans the listing in enumeration order and either serves the
  first readable index file, redirects to the properties view, or answers
  not-found. It answers not-found as soon as it meets an unreadable file, and
  also when it meets no readable file at all. A not-found therefore hides whether
  the directory exists. It does not hide every unreadable file (see below).
- **DELETE** (`fileDelete`) removes a single file for its owner. On a directory
  it makes one pass over the file children: the requester's own files are
  removed, readable files of others are reported as errors, and the rest are
  passed over in silence. The directory itself is then removed if nothing is
  left in it.
- **POST** (`filePost`) turns each uploaded part into a new file through an
  exclusive create. A part whose write and record write both succeed gets a
  private permission record owned by the uploader. Every part is reported in
  the data or in the errors. A failing part never stops the ones after it.

The model also covers the two string computations these handlers depend on:

- the index-name test `strings.TrimRight(name, path.Ext(name)) == "index"`.
  `TrimRight` trims a character set, not a suffix, so "index.md" passes but
  "index.txt" does not.
- the redirect rewrite `strings.Replace(url, "/v1/file/", "/v1/properties/file/", 1)`.

## How the model is built

- **`GoText`** (`gotext.dfy`) defines `strings.TrimRight`, `path.Ext`,
  `strings.Index` and one-shot `strings.Replace` over `string`, each with a
  contract characterising its result. It then proves what the index test
  accepts and how the redirect URL is formed.
- **`Store`** (`store.dfy`) holds the state:
  - The tree is a `map` from paths (sequences of names) to entries. An entry is
    a file with its bytes or a directory with its ordered listing.
    `WellFormed` says the map is a tree.
  - Permission records are a `map` from paths to records. A path without a
    record is a lookup error, which the handlers answer with an internal error.
  - `Unlink` (`os.Remove`) and `Create` (`os.OpenFile` with `O_CREATE|O_EXCL`)
    are the two ways the tree changes. Both are proved to keep it well formed.
  - `CanRead` grants read to the owner always, to a friend of the owner when the
    friend tier holds `r`, and to anyone when the public tier holds `r`.
    `IsOwner` compares the owner's name.
- **`Resolution`** (`resolution.dfy`) is `serveResource` as a function. Its
  directory loop, with its `canReadDir` flag and early returns, is the recursive
  `ScanDir`. The lemmas characterise each outcome by the first child the scan
  cannot go past.
- **`Deletion`** (`deletion.dfy`) is the specification of the directory branch
  of `fileDelete`:
  - `DeletePass` is the pass over the listing, defined over its prefixes the way
    the loop advances.
  - `RemoveChildren` is the tree after some children have gone.
  - `DirectoryResponse` is the answer the handler writes.
  - `DeleteDirectory` is the final tree, after the cleanup.
- **`Upload`** (`upload.dfy`) is the specification of the item loop of
  `filePost`: `UploadStep` for one part and `UploadAll` for the sequence.
- **`Handlers`** (`handlers.dfy`) is the imperative part. It has a class
  `FileServer` whose `fs` and `perms` fields are the tree and the records.
  - `Delete` and `Post` update those fields in place, with loops over the
    listing snapshot and over the parts.
  - Each is proved to leave exactly the state and answer that the `Deletion` and
    `Upload` specification functions describe, and to keep the tree well formed.
  - A GET changes nothing. It is `Resolution.Resolve` applied to the server's
    current `fs` and `perms`. `docsGet` is the same with an anonymous requester.

In several places `file.go` does not do what a reader might expect, and the
model follows the code:

- deleting a resource never deletes its permission record;
- a GET can reveal a file the requester may not read. A directory holding one
  readable file that is not an index file redirects. The same directory with an
  unreadable file listed after that file answers not-found
  (`Resolution.HiddenFileChangesAnswer`);
- a DELETE reveals that a directory exists even when the requester can see
  nothing in it. A directory of subdirectories and unreadable files answers
  success with empty lists, where a missing path is not found
  (`Deletion.HiddenDirectoryAnswers`);
- deleting a single file never removes its parent directory, even when the
  parent is left empty (file.go:179-181); only the directory branch cleans up;
- a failed upload writes no record for the file it created. Deletion keeps
  records, so a record left behind at that path by an earlier resource governs
  the new file. That record may belong to another user and grant others access;
- deleting a directory never consults the directory's own record;
- a partly written upload is not rolled back, and its file stays;
- there is no separate total-failure status: the last failing item sets the
  status, and it stays success only while no item has failed;
- the cleanup after a directory delete calls `Readdir(0)` a second time on the
  same handle. That handle is already at the end of the directory, so the
  listing it returns is always empty, and `os.Remove` of the directory is always
  attempted. The removal succeeds only for an empty directory, so the outcome is
  "removed exactly when it lists nothing". A subdirectory, or a file the
  requester does not own, keeps the directory.

## Model

| member | source | states |
|---|---|---|
| GoText.TrimRight | file.go:299 | the result is a prefix of the input; every character trimmed is in the cutset; the last character kept is not |
| GoText.Ext | file.go:299 | the result is a suffix of the input, starting at a '.' with no later '.' or '/'; it is empty only when every '.' is followed by a '/' |
| GoText.IsIndexName | file.go:299 | a name that passes the index test begins with "index" |
| GoText.TrimRightAt | file.go:299 | trimming stops exactly at the last character outside the cutset |
| GoText.IndexNameOnlyIf | file.go:299 | a name passes the index test only if it is "index", or "index" followed by characters of its extension, with no 'x' in the extension |
| GoText.IndexNameIf | file.go:299 | every such name passes the index test |
| GoText.IndexNameExactly | file.go:299 | both directions: exactly which names the index test accepts |
| GoText.ExtWithoutDot | file.go:299 | a name without a '.' has an empty extension |
| GoText.IndexNameWithoutDot | file.go:299 | a name without a '.' passes the test exactly when it is "index" |
| GoText.IndexNameNeedsPrefix | file.go:299 | a name that does not begin with "index" never passes |
| GoText.ExtOfDotted | file.go:299 | the extension of "stem.ext" is ".ext" when ext has no '.' or '/' |
| GoText.IndexWithExtension | file.go:299 | "index." + ext passes exactly when ext contains no 'x' |
| GoText.BareIndexName | file.go:299 | "index" passes the test |
| GoText.MarkdownIndexName | file.go:299 | "index.md" passes the test |
| GoText.TextIndexNameRejected | file.go:299 | "index.txt" fails the test, since trimming the set {'.','t','x'} leaves "inde" |
| GoText.OtherNameRejected | file.go:299 | "notes.md" fails the test |
| GoText.Index | file.go:319 | the result is -1 when the pattern does not occur, otherwise its least occurrence |
| GoText.ReplaceFirst | file.go:319 | without an occurrence the string is unchanged; otherwise only the first occurrence is replaced and everything around it is kept |
| GoText.ReplaceAtHead | file.go:319 | a string that begins with the pattern has exactly that occurrence replaced |
| GoText.PropertiesUrl | file.go:319 | the redirect target differs from the request path exactly when the path holds "/v1/file/", and is then eleven characters longer |
| GoText.PropertiesUrlOfFileUrl | file.go:319 | "/v1/file/" + rest is redirected to "/v1/properties/file/" + rest |
| GoText.PropertiesUrlElsewhere | file.go:319 | a path without "/v1/file/" is returned unchanged |
| GoText.PropertiesUrlOnlyFirst | file.go:319 | wherever the first "/v1/file/" stands, only it is rewritten: what precedes it and everything after it, a later "/v1/file/" included, is kept |
| Store.IsOwner | file.go:167 | an owner can always read |
| Store.CanRead | file.go:168 | an anonymous requester reads exactly what the public tier grants; a public 'r' lets anyone read; beyond that only the owner or a friend of the owner reads |
| Store.Without | file.go:204 | a listing minus removed names keeps exactly the other names, still distinct |
| Store.Unlink | file.go:179 | os.Remove: the entry leaves the tree and its parent's listing; nothing else changes |
| Store.Create | file.go:77 | the exclusive create adds the new file with its bytes and appends its name to the parent's listing; nothing else changes |
| Store.UnlinkWellFormed | file.go:179 | removing a file, or a directory that lists nothing, keeps the tree well formed |
| Store.CreateWellFormed | file.go:77 | creating a new, validly named file in a directory keeps the tree well formed |
| Store.PrivateRecordReaders | file.go:101-106 | the uploader owns the default record, and exactly the uploader can read it |
| Resolution.ScanDir | file.go:285-321 | the scan only serves a readable index child and only redirects to the rewritten URL when some file child is readable |
| Resolution.Resolve | file.go:245-326 | a served file is readable by the requester; a redirect comes only from a directory holding a readable file |
| Resolution.ResolveFile | file.go:263-275 | a file is served exactly when readable, is a lookup error exactly when it has no record, and is not found otherwise |
| Resolution.FirstStop | file.go:287-315 | the first child the scan cannot go past: every child before it is a subdirectory or a readable non-index file |
| Resolution.ScanDecided | file.go:285-321 | the outcome of the scan is decided by the first child it cannot go past |
| Resolution.FirstStopAt | file.go:287-315 | the first stopping child is unique |
| Resolution.ResolveServesIndex | file.go:295-309 | the child at position k is served exactly when it is a readable index file and every child before it is passable |
| Resolution.ResolveRedirects | file.go:317-321 | a directory redirects exactly when every child is passable and at least one child is a file |
| Resolution.ResolveDirNotFound | file.go:311-325 | a directory is not found exactly when it holds no file or the scan first meets an unreadable file |
| Resolution.UniformNotFound | file.go:245-326 | a missing path, an unreadable file, an empty directory, one holding only subdirectories, and one whose first child is an unreadable file all give the same not-found |
| Resolution.ServedAtFirstStop | file.go:295-309 | in a listing of distinct names, the child served is the first one the scan cannot go past |
| Resolution.HiddenFileChangesAnswer | file.go:291-321 | a directory holding one readable non-index file redirects, and with an unreadable file after it answers not-found |
| Resolution.ScanSkipsSubdirectory | file.go:288-290 | removing a subdirectory from the listing does not change the outcome of the scan |
| Deletion.Classify | file.go:195-224 | a child is skipped exactly when it is a directory, stops the pass exactly when it is a file without a record, is removed exactly when the requester owns it, and is passed over silently exactly when the requester cannot read it |
| Deletion.HiddenDirectoryAnswers | file.go:184-232 | a directory whose children are all subdirectories or unreadable files answers success with empty data and errors |
| Deletion.DeletePass | file.go:194-226 | every removed child is a file the requester owns; every reported child is a readable file the requester does not own |
| Deletion.PassComplete | file.go:194-226 | a pass that runs to the end has removed every owned file, reported every readable unowned one, and met no child without a record |
| Deletion.PassNotAborted | file.go:198-201 | a pass over children that all have a record runs to the end |
| Deletion.PassAbortsAt | file.go:198-201 | at the first child without a record the pass stops with what it had removed and reported so far; later children are not touched |
| Deletion.AbortStays | file.go:198-201 | after the cut, the remaining children change nothing |
| Deletion.PassNext | file.go:194-226 | one more child extends the pass according to its classification |
| Deletion.PassEmptiesDirectory | file.go:234-242 | the listing is left empty exactly when every child was a file the requester owns |
| Deletion.PassSplitsListing | file.go:194-223 | over a listing of distinct names, no child appears both in the data and in the errors, or twice in either, and together they hold at most as many children as the listing |
| Deletion.RemoveChildren | file.go:204 | the removed children are gone, the directory lists the rest in order, and nothing else changes |
| Deletion.RemoveNextChild | file.go:204 | removing one more child is one more os.Remove |
| Deletion.RemoveChildrenWellFormed | file.go:204 | removing files of a directory keeps the tree well formed |
| Deletion.DirectoryResponse | file.go:228-232 | the answer is a lookup error, or a JSend whose status is fail exactly when some file was reported; it is settled before the cleanup |
| Deletion.DeleteDirectory | file.go:184-242 | the final tree: the removed files are gone and, after a full pass, the directory too if it lists nothing; the parent stops listing a removed directory |
| Deletion.DeleteDirectoryOnlyOwned | file.go:194-226 | only files of the directory that the requester owns, and the directory itself, are removed; everything else is kept as it was |
| Deletion.RemovedWasOwned | file.go:203-204 | a child the pass removed was a file the requester owns |
| Deletion.OwnedWasRemoved | file.go:203-204 | after a pass that ran to the end, every owned file of the directory was removed |
| Deletion.DeleteDirectoryAllOwned | file.go:203-209 | after a full pass, every owned file of the directory is gone |
| Deletion.DeleteDirectoryRemovesSelf | file.go:234-242 | the directory is removed exactly when the pass ran to the end and every child was an owned file |
| Upload.ItemStatus | file.go:62-65 | a failed item's status is never success |
| Upload.Written | file.go:86-87 | the bytes that reach the file are a prefix of the part, as many as the write accepted |
| Upload.WriteSucceeded | file.go:86-96 | a write that succeeds puts the whole part in the file |
| Upload.CanCreate | file.go:77 | an exclusive create that succeeds makes a new entry directly inside the target directory, under the part's name |
| Upload.UploadStep | file.go:55-118 | one part is reported exactly once: its descriptor joins the data with the status kept, or an error item with its descriptor joins the errors and the status is no longer success |
| Upload.UploadAll | file.go:51-120 | the two lists together gain one entry per part; the lists only grow; the status is success exactly while there are no errors |
| Upload.UploadReportsEachPart | file.go:51-120 | the new data entries and the descriptors of the new error items are exactly the descriptors of the parts, each as often as it occurs among them |
| Upload.UploadStepOutcome | file.go:59-118 | an unreadable part, or a refused create, changes nothing and is an error; a failed or short write, or a failed record write, leaves the file and adds an error item naming that cause; otherwise the file holds the part, has the uploader's private record and is in the data |
| Upload.FailedUploadKeepsStaleRecord | file.go:86-113 | when the create succeeds but the write or the record write fails, the new file stays and is governed by the record already at its path, which is left unchanged |
| Upload.StepKeeps | file.go:77-113 | one part never overwrites an existing entry or its record, and adds only a file in the target directory |
| Upload.UploadOnlyAdds | file.go:53-120 | the whole upload never overwrites an entry or an existing entry's record; everything new is a file directly in the target directory, and every record the upload writes belongs to such a new file and is the uploader's private record |
| Upload.SameNameTwice | file.go:77-84 | a second part with the same name is refused by the exclusive create and changes nothing |
| Upload.UploadWellFormed | file.go:77 | the tree stays well formed through the upload |
| Handlers.FileServer.Delete | file.go:130-243 | anonymous requests are rejected with nothing changed; a missing path is not found; a file is removed only for its owner, a reader who does not own it is told so, and anyone else gets not-found; a directory leaves exactly DeleteDirectory and answers DirectoryResponse; records never change |
| Handlers.FileServer.DeleteDirectoryOf | file.go:184-242 | the directory branch leaves DeleteDirectory of the old tree and answers DirectoryResponse |
| Handlers.FileServer.RunPass | file.go:189-226 | the loop's removed and reported names, its abort flag and its lists equal DeletePass, and the tree equals RemoveChildren of the snapshot |
| Handlers.FileServer.RemoveOne | file.go:204 | the tree moves from RemoveChildren of the names so far to RemoveChildren with one more name |
| Handlers.FileServer.RemoveIfEmpty | file.go:234-242 | the directory is unlinked exactly when it lists nothing, and the tree stays well formed |
| Handlers.FileServer.UploadOne | file.go:59-118 | one turn of the loop leaves the tree, the records and the lists of UploadStep, and keeps the tree well formed |
| Handlers.FileServer.Post | file.go:29-128 | anonymous requests are rejected with nothing changed; otherwise the tree, the records and the response are those of UploadAll over the parts, and the tree stays well formed |

## Left out

- HTTP plumbing is represented by values, not behaviour:
  - `authenticate` is a `Requester` parameter, and its errors are not modelled;
  - `errHandled`, `four04`, `respondJsend` and the status code of
    `http.Redirect` are `Response` values;
  - JSend error items carry a cause instead of the error text.
- `serveFile`, `http.ServeContent` and the markdown rendering are left out. Serving
  is the `ServeFile(path)` response. The error of opening the index file
  (file.go:300-305) is not modelled.
- `os.Open`, `Stat` and `Readdir` failures other than a missing path are left
  out: the tree is always readable.
- `canRead`, `isOwner`, `permissions`, `setPermissions` and `urlPathToFile` are
  not part of this model. They are a record map with the read rule above. A
  lookup error is a missing record, and a resource path is its own file path.
- `path.Join` cleaning is left out. Child URLs are a plain join of the request
  path and the child name.
- Multipart parsing and its memory limit are left out. The parts come in as a
  sequence in the order the handler meets them. Go's map order over form fields
  is unspecified, so every order is covered by the sequence being arbitrary.
- Upload.CanCreate: part names are not cleaned by `path.Join`. A part is created
  only under a valid one-element name directly inside the target directory. In
  the source, "" and "." join to the request path itself and ".." joins to its
  parent. The `O_EXCL` create can succeed there when nothing exists at that path,
  and the file then gets the uploader's record. The model refuses such parts. So
  Upload.UploadOnlyAdds' "everything new is directly in the target directory"
  holds only for this choice.
- `fileErrorItem` is not part of this model. A failed item's status is assumed to
  be fail for a refused create (the error is made public there) and error
  otherwise.
- Concurrency is left out. The exclusive create is modelled sequentially as
  "refused if the path exists".
- `defer`-ed `Close` errors are left out.
- Store.Create: the created name is appended to the end of its parent's
  listing. The operating system may enumerate it at any position. Store.Unlink
  and Deletion.RemoveChildren likewise keep the rest of a listing in its old
  order. The order after a change is therefore one possible enumeration order,
  not every one. This affects which of several index files a later GET serves.
- GoText.TrimRight and GoText.Ext work on Dafny characters. Go's versions work
  on the UTF-8 bytes of a name, and `TrimRight` decodes runes, reading an
  invalid byte as U+FFFD when it matches the cutset. Names that are not valid
  UTF-8 are not modelled.
- Handlers.FileServer.Delete: the error `os.Remove` returns is ignored by the
  source. The model takes every removal of a file, and of an empty directory, to
  succeed.
- Upload.UploadStepOutcome: a short write is modelled as the part's first
  `accepted` bytes reaching the file. The exact bytes of a failed write are not
  modelled otherwise.
