/** The file handlers as operations on the server's state: the directory tree and
    the permission records, both changed in place by DELETE and POST requests.
    A GET (fileGet, and docsGet for an anonymous requester) changes nothing and
    answers Resolution.Resolve on the current state. */
module Handlers {
  import opened Store
  import opened Deletion
  import opened Upload

  class FileServer {
    var fs: FileSystem
    var perms: Records

    ghost predicate Valid()
      reads this
    {
      WellFormed(fs)
    }

    constructor (tree: FileSystem, records: Records)
      requires WellFormed(tree)
      ensures Valid() && fs == tree && perms == records
    {
      fs := tree;
      perms := records;
    }

    /** fileDelete on the path p, requested as url. An anonymous request is turned
        away. A missing path is not found. A file is removed only for its owner; a
        reader who does not own it is told so, anyone else gets not-found. A
        directory is put through the delete pass and removed afterwards if it
        lists nothing. Permission records are never touched. */
    method Delete(who: Requester, p: Path, url: string) returns (resp: Response)
      requires Valid()
      modifies this
      ensures Valid() && perms == old(perms)
      // the parent of an existing path is a directory, which the Unlink below needs
      ensures p in old(fs) ==> ListedByParent(old(fs), p)
      ensures who.Anonymous? ==> resp == Rejected(LOGIN_TO_DELETE) && fs == old(fs)
      ensures who.Authenticated? && p !in old(fs) ==> resp == NotFound && fs == old(fs)
      ensures who.Authenticated? && p in old(fs) && old(fs)[p].File? ==>
        if p !in perms then resp == InternalError && fs == old(fs)
        else if IsOwner(who.user, perms[p]) then resp == NoBody && fs == Unlink(old(fs), p)
        else if CanRead(who, perms[p]) then resp == JSend(Fail, NOT_OWNER_MESSAGE, [], []) && fs == old(fs)
        else resp == NotFound && fs == old(fs)
      ensures p in old(fs) && old(fs)[p].Dir? ==> Enclosing(old(fs), p)
      ensures who.Authenticated? && p in old(fs) && old(fs)[p].Dir? ==>
        resp == DirectoryResponse(old(fs), perms, who.user, p, url) &&
        fs == DeleteDirectory(old(fs), perms, who.user, p)
    {
      if p in fs {
        assert ListedByParent(fs, p);
        if fs[p].Dir? {
          WellFormedEnclosing(fs, p);
        }
      }
      if who.Anonymous? {
        return Rejected(LOGIN_TO_DELETE);
      }
      var u := who.user;
      if p !in fs {
        return NotFound;
      }
      if fs[p].File? {
        if p !in perms {
          return InternalError;
        }
        if !IsOwner(u, perms[p]) {
          if !CanRead(who, perms[p]) {
            return NotFound;
          }
          return JSend(Fail, NOT_OWNER_MESSAGE, [], []);
        }
        UnlinkWellFormed(fs, p);
        fs := Unlink(fs, p);
        return NoBody;
      }
      resp := DeleteDirectoryOf(u, p, url);
    }

    /** The directory branch of fileDelete: the pass over the listing, the
        response, and the removal of the directory if it is left empty. */
    method DeleteDirectoryOf(u: User, p: Path, url: string) returns (resp: Response)
      requires Valid() && Enclosing(fs, p)
      modifies this
      ensures Valid() && perms == old(perms)
      ensures resp == DirectoryResponse(old(fs), perms, u, p, url)
      ensures fs == DeleteDirectory(old(fs), perms, u, p)
    {
      var aborted, removed, denied, data, errors, status := RunPass(u, p, url);
      assert forall c :: c in removed ==> old(fs)[p + [c]].File?;
      RemoveChildrenWellFormed(old(fs), p, removed);
      if aborted {
        return InternalError;
      }
      resp := JSend(status, "", data, errors);
      assert p != [] ==> Parent(p) != p && fs[Parent(p)] == old(fs)[Parent(p)];
      RemoveIfEmpty(p);
    }

    /** The cleanup after the pass: os.Remove of the directory p, which succeeds
        only when p lists nothing. */
    method RemoveIfEmpty(p: Path)
      requires Valid() && p in fs && fs[p].Dir?
      requires p != [] ==> Parent(p) in fs && fs[Parent(p)].Dir?
      modifies this
      ensures Valid() && perms == old(perms)
      ensures fs == if old(fs)[p].children == [] then Unlink(old(fs), p) else old(fs)
    {
      if fs[p].children == [] {
        UnlinkWellFormed(fs, p);
        fs := Unlink(fs, p);
      }
    }

    /** The loop of fileDelete over the listing of p as it was before the loop. It
        stops at the first file without a record, with what it has removed so far
        left removed. */
    method RunPass(u: User, p: Path, url: string)
      returns (aborted: bool, removed: seq<Name>, denied: seq<Name>,
               data: seq<Properties>, errors: seq<ErrorItem>, status: Status)
      requires p in fs && fs[p].Dir? && Distinct(fs[p].children)
      requires forall c :: c in fs[p].children ==> p + [c] in fs
      modifies this
      ensures perms == old(perms)
      ensures Pass(removed, denied, aborted) == DeletePass(old(fs), perms, u, p, old(fs)[p].children)
      ensures fs == RemoveChildren(old(fs), p, removed)
      ensures data == Listed(url, removed) && errors == Denials(url, denied)
      ensures status == if denied == [] then Success else Fail
    {
      var snapshot := fs;
      var kids := snapshot[p].children;
      aborted, removed, denied, data, errors, status := false, [], [], [], [], Success;
      RemoveNoChildren(snapshot, p);
      var i := 0;
      while i < |kids|
        invariant 0 <= i <= |kids|
        invariant perms == old(perms)
        invariant Pass(removed, denied, false) == DeletePass(snapshot, perms, u, p, kids[..i])
        invariant fs == RemoveChildren(snapshot, p, removed)
        invariant data == Listed(url, removed) && errors == Denials(url, denied)
        invariant status == if denied == [] then Success else Fail
      {
        var c := kids[i];
        var q := p + [c];
        PassNext(snapshot, perms, u, p, kids, i);
        ListedNext(url, removed, c);
        ListedNext(url, denied, c);
        if snapshot[q].File? {
          if q !in perms {
            AbortStays(snapshot, perms, u, p, kids, i + 1);
            assert kids[..|kids|] == kids;
            return true, removed, denied, data, errors, status;
          }
          if IsOwner(u, perms[q]) {
            assert c !in removed by {
              assert forall j :: 0 <= j < i ==> kids[j] != c;
            }
            RemoveOne(snapshot, p, removed, c);
            removed := removed + [c];
            data := data + [Properties(c, JoinUrl(url, c))];
          } else if CanRead(Authenticated(u), perms[q]) {
            status := Fail;
            denied := denied + [c];
            errors := errors + [ErrorItem(NotOwner, Properties(c, JoinUrl(url, c)))];
          }
        }
        i := i + 1;
      }
      assert kids[..|kids|] == kids;
    }

    /** os.Remove of the file c of directory p, during the pass. */
    method RemoveOne(snapshot: FileSystem, p: Path, removed: seq<Name>, c: Name)
      requires p in snapshot && snapshot[p].Dir? && fs == RemoveChildren(snapshot, p, removed)
      requires p + [c] in snapshot && c !in removed
      modifies this
      ensures perms == old(perms)
      ensures fs == RemoveChildren(snapshot, p, removed + [c])
    {
      var q := p + [c];
      RemoveNextChild(snapshot, p, removed, c);
      assert Parent(q) == p;
      fs := Unlink(fs, q);
    }

    /** filePost of the parts into the directory dir, requested as url. An
        anonymous request is turned away; otherwise every part goes through one
        step of the upload, in order, and the response carries the status, data
        and errors the loop built. */
    method Post(who: Requester, dir: Path, url: string, parts: seq<Part>) returns (resp: Response)
      requires Valid()
      modifies this
      ensures Valid()
      ensures who.Anonymous? ==> resp == Rejected(LOGIN_TO_POST) && fs == old(fs) && perms == old(perms)
      ensures who.Authenticated? ==>
        var b := UploadAll(Batch(old(fs), old(perms), [], [], Success), who.user, dir, url, parts);
        fs == b.fs && perms == b.perms && resp == JSend(b.status, "", b.data, b.errors)
    {
      if who.Anonymous? {
        return Rejected(LOGIN_TO_POST);
      }
      var u := who.user;
      ghost var start := Batch(fs, perms, [], [], Success);
      var data: seq<Properties> := [];
      var errors: seq<ErrorItem> := [];
      var status := Success;
      var i := 0;
      while i < |parts|
        invariant 0 <= i <= |parts|
        invariant Batch(fs, perms, data, errors, status) == UploadAll(start, u, dir, url, parts[..i])
        invariant Valid()
      {
        UploadAllNext(start, u, dir, url, parts, i);
        data, errors, status := UploadOne(u, dir, url, parts[i], data, errors, status);
        i := i + 1;
      }
      assert parts[..|parts|] == parts;
      resp := JSend(status, "", data, errors);
    }

    /** One turn of the loop of filePost: read the part, create its file
        exclusively, write and close it, then store its record. */
    method UploadOne(u: User, dir: Path, url: string, part: Part,
                     data: seq<Properties>, errors: seq<ErrorItem>, status: Status)
      returns (data': seq<Properties>, errors': seq<ErrorItem>, status': Status)
      requires Valid()
      modifies this
      ensures Valid()
      ensures Batch(fs, perms, data', errors', status') ==
        UploadStep(Batch(old(fs), old(perms), data, errors, status), u, dir, url, part)
    {
      var q := dir + [part.name];
      var item := Describe(dir, url, part.name);
      data', errors', status' := data, errors, status;
      if !part.readOk {
        errors' := errors + [ErrorItem(PartUnreadable, item)];
        status' := ItemStatus(PartUnreadable);
        return;
      }
      if !CanCreate(fs, dir, part.name) {
        errors' := errors + [ErrorItem(CreateRefused, item)];
        status' := ItemStatus(CreateRefused);
        return;
      }
      assert q != [] && Parent(q) == dir && Base(q) == part.name;
      CreateWellFormed(fs, q, Written(part));
      fs := Create(fs, q, Written(part));
      if !WriteSucceeded(part) {
        errors' := errors + [ErrorItem(WriteFailed, item)];
        status' := ItemStatus(WriteFailed);
        return;
      }
      if !part.io.recordOk {
        errors' := errors + [ErrorItem(RecordFailed, item)];
        status' := ItemStatus(RecordFailed);
        return;
      }
      perms := perms[q := PrivateRecord(u)];
      data' := data + [item];
    }
  }
}
