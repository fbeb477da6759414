/** serveResource: what a GET of a resource path yields for a requester. A file is
    served when the requester can read it; a directory is scanned child by child
    for an index file. It yields not-found rather than permission-denied when the
    scan meets an unreadable file before any readable index file, or meets no
    readable file at all; a file without a record is a lookup error. */
module Resolution {
  import opened GoText
  import opened Store

  /** q is a file, it has a permission record, and the requester can read it. */
  ghost predicate ReadableFile(fs: FileSystem, perms: Records, who: Requester, q: Path)
  {
    q in fs && fs[q].File? && q in perms && CanRead(who, perms[q])
  }

  /** A child the directory scan goes past: a subdirectory, or a readable file whose
      name fails the index test. */
  ghost predicate Passable(fs: FileSystem, perms: Records, who: Requester, p: Path, c: Name)
    requires p + [c] in fs
  {
    fs[p + [c]].Dir? || (ReadableFile(fs, perms, who, p + [c]) && !IsIndexName(c))
  }

  /** Some child in kids is a file. */
  ghost predicate HasFileChild(fs: FileSystem, p: Path, kids: seq<Name>)
    requires forall c :: c in kids ==> p + [c] in fs
  {
    exists c :: c in kids && fs[p + [c]].File?
  }

  /** The loop of serveResource over the directory listing kids; readAny is its
      canReadDir flag. Subdirectories are skipped; a file without a record is a
      lookup error; an unreadable file ends the scan with not-found; a readable
      index file is served; after the last child the requester is redirected to
      the properties view if some file was readable, and gets not-found otherwise. */
  function ScanDir(fs: FileSystem, perms: Records, who: Requester, p: Path, kids: seq<Name>,
                   readAny: bool, url: string): (r: Response)
    requires forall c :: c in kids ==> p + [c] in fs
    ensures r.NotFound? || r.InternalError? || r.ServeFile? || r.Redirect?
    ensures r.ServeFile? ==>
      exists c :: c in kids && r.file == p + [c] && ReadableFile(fs, perms, who, p + [c]) && IsIndexName(c)
    ensures r.Redirect? ==>
      r.location == PropertiesUrl(url) &&
      (readAny || exists c :: c in kids && ReadableFile(fs, perms, who, p + [c]))
    decreases |kids|
  {
    if kids == [] then
      if readAny then Redirect(PropertiesUrl(url)) else NotFound
    else
      var c := kids[0];
      var q := p + [c];
      assert c in kids;
      assert forall d :: d in kids[1..] ==> d in kids;
      if fs[q].Dir? then ScanDir(fs, perms, who, p, kids[1..], readAny, url)
      else if q !in perms then InternalError
      else if !CanRead(who, perms[q]) then NotFound
      else if IsIndexName(c) then ServeFile(q)
      else ScanDir(fs, perms, who, p, kids[1..], true, url)
  }

  /** serveResource on the path p, requested as url. A missing path is not found; a
      file is served only to a requester who can read it; a directory is scanned. */
  function Resolve(fs: FileSystem, perms: Records, who: Requester, p: Path, url: string): (r: Response)
    requires WellFormed(fs)
    ensures r.NotFound? || r.InternalError? || r.ServeFile? || r.Redirect?
    ensures r.ServeFile? ==> ReadableFile(fs, perms, who, r.file)
    ensures r.Redirect? ==>
      p in fs && fs[p].Dir? && r.location == PropertiesUrl(url) &&
      exists c :: c in fs[p].children && ReadableFile(fs, perms, who, p + [c])
  {
    if p !in fs then NotFound
    else if fs[p].File? then
      if p !in perms then InternalError
      else if CanRead(who, perms[p]) then ServeFile(p)
      else NotFound
    else
      assert ChildrenPresent(fs, p);
      ScanDir(fs, perms, who, p, fs[p].children, false, url)
  }

  /** A path that names a file is served exactly when the requester can read it;
      otherwise it is not found, or a lookup error when it has no record. */
  lemma ResolveFile(fs: FileSystem, perms: Records, who: Requester, p: Path, url: string)
    requires WellFormed(fs) && p in fs && fs[p].File?
    ensures Resolve(fs, perms, who, p, url) == ServeFile(p) <==> ReadableFile(fs, perms, who, p)
    ensures Resolve(fs, perms, who, p, url) == InternalError <==> p !in perms
    ensures Resolve(fs, perms, who, p, url) == NotFound <==> HiddenFile(fs, perms, who, p)
  {
  }

  /** The position of the first child the scan does not go past, or |kids|. */
  ghost function FirstStop(fs: FileSystem, perms: Records, who: Requester, p: Path, kids: seq<Name>): (k: nat)
    requires forall c :: c in kids ==> p + [c] in fs
    ensures k <= |kids|
    ensures forall j :: 0 <= j < k ==> Passable(fs, perms, who, p, kids[j])
    ensures k < |kids| ==> !Passable(fs, perms, who, p, kids[k])
    decreases |kids|
  {
    if kids == [] then 0
    else
      assert kids[0] in kids;
      assert forall d :: d in kids[1..] ==> d in kids;
      if !Passable(fs, perms, who, p, kids[0]) then 0
      else 1 + FirstStop(fs, perms, who, p, kids[1..])
  }

  /** The outcome of a scan, read off the first child it stops at. */
  ghost function Decision(fs: FileSystem, perms: Records, who: Requester, p: Path, kids: seq<Name>,
                          readAny: bool, url: string): Response
    requires forall c :: c in kids ==> p + [c] in fs
  {
    var k := FirstStop(fs, perms, who, p, kids);
    if k == |kids| then
      if readAny || HasFileChild(fs, p, kids) then Redirect(PropertiesUrl(url)) else NotFound
    else
      var q := p + [kids[k]];
      if q !in perms then InternalError
      else if !CanRead(who, perms[q]) then NotFound
      else ServeFile(q)
  }

  /** The first stop of a listing that begins with a passable child is one past
      the first stop of the rest. */
  lemma FirstStopShift(fs: FileSystem, perms: Records, who: Requester, p: Path, kids: seq<Name>)
    requires forall c :: c in kids ==> p + [c] in fs
    requires kids != [] && Passable(fs, perms, who, p, kids[0])
    ensures forall c :: c in kids[1..] ==> p + [c] in fs
    ensures FirstStop(fs, perms, who, p, kids) == 1 + FirstStop(fs, perms, who, p, kids[1..])
    ensures FirstStop(fs, perms, who, p, kids) < |kids| ==>
      kids[FirstStop(fs, perms, who, p, kids)] == kids[1..][FirstStop(fs, perms, who, p, kids[1..])]
  {
    assert forall d :: d in kids[1..] ==> d in kids;
  }

  /** A leading subdirectory does not change the decision. */
  lemma DecisionSkipsDirectory(fs: FileSystem, perms: Records, who: Requester, p: Path, kids: seq<Name>,
                               readAny: bool, url: string)
    requires forall c :: c in kids ==> p + [c] in fs
    requires kids != [] && fs[p + [kids[0]]].Dir?
    ensures forall c :: c in kids[1..] ==> p + [c] in fs
    ensures Decision(fs, perms, who, p, kids, readAny, url) == Decision(fs, perms, who, p, kids[1..], readAny, url)
  {
    FirstStopShift(fs, perms, who, p, kids);
    assert HasFileChild(fs, p, kids) <==> HasFileChild(fs, p, kids[1..]) by {
      assert kids == [kids[0]] + kids[1..];
    }
  }

  /** A leading readable file that is not an index only sets the flag. */
  lemma DecisionSkipsReadable(fs: FileSystem, perms: Records, who: Requester, p: Path, kids: seq<Name>,
                              readAny: bool, url: string)
    requires forall c :: c in kids ==> p + [c] in fs
    requires kids != [] && fs[p + [kids[0]]].File? && Passable(fs, perms, who, p, kids[0])
    ensures forall c :: c in kids[1..] ==> p + [c] in fs
    ensures Decision(fs, perms, who, p, kids, readAny, url) == Decision(fs, perms, who, p, kids[1..], true, url)
  {
    FirstStopShift(fs, perms, who, p, kids);
    assert kids[0] in kids;
    assert HasFileChild(fs, p, kids);
  }

  /** The scan is decided by the first child it cannot go past: a file without a
      record gives a lookup error, an unreadable file not-found, a readable index
      file is served; if there is no such child, a readable file anywhere in the
      listing gives the redirect. */
  lemma {:induction false} ScanDecided(fs: FileSystem, perms: Records, who: Requester, p: Path,
                                       kids: seq<Name>, readAny: bool, url: string)
    requires forall c :: c in kids ==> p + [c] in fs
    ensures ScanDir(fs, perms, who, p, kids, readAny, url) == Decision(fs, perms, who, p, kids, readAny, url)
    decreases |kids|
  {
    if kids != [] {
      var c := kids[0];
      assert c in kids;
      assert forall d :: d in kids[1..] ==> d in kids;
      if !Passable(fs, perms, who, p, c) {
        assert FirstStop(fs, perms, who, p, kids) == 0;
      } else if fs[p + [c]].Dir? {
        ScanDecided(fs, perms, who, p, kids[1..], readAny, url);
        DecisionSkipsDirectory(fs, perms, who, p, kids, readAny, url);
      } else {
        ScanDecided(fs, perms, who, p, kids[1..], true, url);
        DecisionSkipsReadable(fs, perms, who, p, kids, readAny, url);
      }
    }
  }

  /** Two positions that are both the first stop of the same listing coincide. */
  lemma FirstStopAt(fs: FileSystem, perms: Records, who: Requester, p: Path, kids: seq<Name>, k: nat)
    requires forall c :: c in kids ==> p + [c] in fs
    requires k <= |kids|
    requires forall j :: 0 <= j < k ==> Passable(fs, perms, who, p, kids[j])
    requires k < |kids| ==> !Passable(fs, perms, who, p, kids[k])
    ensures FirstStop(fs, perms, who, p, kids) == k
  {
  }

  /** A served child of a listing of distinct names is its first stop. */
  lemma ServedAtFirstStop(fs: FileSystem, perms: Records, who: Requester, p: Path, kids: seq<Name>,
                          k: nat, url: string)
    requires forall c :: c in kids ==> p + [c] in fs
    requires Distinct(kids) && k < |kids|
    requires Decision(fs, perms, who, p, kids, false, url) == ServeFile(p + [kids[k]])
    ensures FirstStop(fs, perms, who, p, kids) == k
  {
    var f := FirstStop(fs, perms, who, p, kids);
    assert f < |kids| && p + [kids[f]] == p + [kids[k]];
    assert kids[f] == (p + [kids[f]])[|p|] == (p + [kids[k]])[|p|] == kids[k];
  }

  /** A directory serves the child at position k exactly when k is a readable file
      passing the index test and every child before it is a subdirectory or a
      readable file that fails the test: the first index file wins, and only if no
      unreadable file comes before it. */
  lemma ResolveServesIndex(fs: FileSystem, perms: Records, who: Requester, p: Path, url: string, k: nat)
    requires WellFormed(fs) && p in fs && fs[p].Dir? && k < |fs[p].children|
    ensures ChildrenPresent(fs, p)
    ensures Resolve(fs, perms, who, p, url) == ServeFile(p + [fs[p].children[k]]) <==>
      (forall j :: 0 <= j < k ==> Passable(fs, perms, who, p, fs[p].children[j])) &&
      ReadableFile(fs, perms, who, p + [fs[p].children[k]]) && IsIndexName(fs[p].children[k])
  {
    var kids := fs[p].children;
    assert ChildrenPresent(fs, p);
    ScanDecided(fs, perms, who, p, kids, false, url);
    if Resolve(fs, perms, who, p, url) == ServeFile(p + [kids[k]]) {
      ServedAtFirstStop(fs, perms, who, p, kids, k, url);
    }
    if (forall j :: 0 <= j < k ==> Passable(fs, perms, who, p, kids[j])) &&
       ReadableFile(fs, perms, who, p + [kids[k]]) && IsIndexName(kids[k]) {
      FirstStopAt(fs, perms, who, p, kids, k);
    }
  }

  /** A directory redirects to its properties view exactly when it holds at least
      one file and every child is a subdirectory or a readable file failing the
      index test. */
  lemma ResolveRedirects(fs: FileSystem, perms: Records, who: Requester, p: Path, url: string)
    requires WellFormed(fs) && p in fs && fs[p].Dir?
    ensures ChildrenPresent(fs, p)
    ensures Resolve(fs, perms, who, p, url) == Redirect(PropertiesUrl(url)) <==>
      (forall c :: c in fs[p].children ==> Passable(fs, perms, who, p, c)) &&
      HasFileChild(fs, p, fs[p].children)
  {
    var kids := fs[p].children;
    assert ChildrenPresent(fs, p);
    ScanDecided(fs, perms, who, p, kids, false, url);
    if forall c :: c in kids ==> Passable(fs, perms, who, p, c) {
      FirstStopAt(fs, perms, who, p, kids, |kids|);
    }
    var f := FirstStop(fs, perms, who, p, kids);
    assert f < |kids| ==> kids[f] in kids;
  }

  /** A directory answers not-found exactly when it holds no file the scan reaches
      before stopping (it is empty, or holds only subdirectories) or the scan stops
      at a file the requester cannot read, whatever follows that file. */
  lemma ResolveDirNotFound(fs: FileSystem, perms: Records, who: Requester, p: Path, url: string)
    requires WellFormed(fs) && p in fs && fs[p].Dir?
    ensures ChildrenPresent(fs, p)
    ensures Resolve(fs, perms, who, p, url) == NotFound <==>
      ((forall c :: c in fs[p].children ==> Passable(fs, perms, who, p, c)) &&
       !HasFileChild(fs, p, fs[p].children)) ||
      (exists k :: 0 <= k < |fs[p].children| &&
        (forall j :: 0 <= j < k ==> Passable(fs, perms, who, p, fs[p].children[j])) &&
        HiddenFile(fs, perms, who, p + [fs[p].children[k]]))
  {
    var kids := fs[p].children;
    assert ChildrenPresent(fs, p);
    ScanDecided(fs, perms, who, p, kids, false, url);
    var f := FirstStop(fs, perms, who, p, kids);
    if forall c :: c in kids ==> Passable(fs, perms, who, p, c) {
      FirstStopAt(fs, perms, who, p, kids, |kids|);
    }
    assert f < |kids| ==> kids[f] in kids;
    if Resolve(fs, perms, who, p, url) == NotFound && f < |kids| {
      assert HiddenFile(fs, perms, who, p + [kids[f]]);
    }
    forall k | 0 <= k < |kids| &&
        (forall j :: 0 <= j < k ==> Passable(fs, perms, who, p, kids[j])) &&
        HiddenFile(fs, perms, who, p + [kids[k]])
      ensures Resolve(fs, perms, who, p, url) == NotFound
    {
      FirstStopAt(fs, perms, who, p, kids, k);
    }
  }

  /** q is a file with a record that the requester cannot read. */
  ghost predicate HiddenFile(fs: FileSystem, perms: Records, who: Requester, q: Path)
  {
    q in fs && fs[q].File? && q in perms && !CanRead(who, perms[q])
  }

  /** The outward response is the same not-found for a missing path, for a file the
      requester cannot read, for an empty directory, for a directory holding only
      subdirectories, and for a directory whose first file the requester cannot
      read. */
  lemma UniformNotFound(fs: FileSystem, perms: Records, who: Requester, p: Path, url: string)
    requires WellFormed(fs)
    ensures p !in fs ==> Resolve(fs, perms, who, p, url) == NotFound
    ensures HiddenFile(fs, perms, who, p) ==> Resolve(fs, perms, who, p, url) == NotFound
    ensures p in fs && fs[p].Dir? && fs[p].children == [] ==> Resolve(fs, perms, who, p, url) == NotFound
    ensures (p in fs && fs[p].Dir? && ChildrenPresent(fs, p) &&
             forall c :: c in fs[p].children ==> fs[p + [c]].Dir?) ==>
            Resolve(fs, perms, who, p, url) == NotFound
    ensures (p in fs && fs[p].Dir? && ChildrenPresent(fs, p) && fs[p].children != [] &&
             HiddenFile(fs, perms, who, p + [fs[p].children[0]])) ==>
            Resolve(fs, perms, who, p, url) == NotFound
  {
    if p in fs && fs[p].Dir? {
      ResolveDirNotFound(fs, perms, who, p, url);
      var kids := fs[p].children;
      if forall c :: c in kids ==> fs[p + [c]].Dir? {
        assert forall c :: c in kids ==> Passable(fs, perms, who, p, c);
        assert !HasFileChild(fs, p, kids);
      }
      if kids != [] && HiddenFile(fs, perms, who, p + [kids[0]]) {
        FirstStopAt(fs, perms, who, p, kids, 0);
      }
    }
  }

  /** The scan does not hide every unreadable file: a directory holding one
      readable non-index file redirects, and the same directory with an unreadable
      file listed after it is not found, so the answer tells whether that file
      exists. */
  lemma HiddenFileChangesAnswer(fs: FileSystem, perms: Records, who: Requester, p: Path,
                                a: Name, b: Name, url: string)
    requires ReadableFile(fs, perms, who, p + [a]) && !IsIndexName(a)
    requires HiddenFile(fs, perms, who, p + [b])
    ensures ScanDir(fs, perms, who, p, [a], false, url) == Redirect(PropertiesUrl(url))
    ensures ScanDir(fs, perms, who, p, [a, b], false, url) == NotFound
  {
    assert [a][1..] == [] && [a, b][0] == a && [a, b][1..] == [b] && [b][1..] == [];
  }

  /** Subdirectories play no part in the scan: dropping one from the listing changes
      nothing. */
  lemma {:induction false} ScanSkipsSubdirectory(fs: FileSystem, perms: Records, who: Requester, p: Path,
                                                 a: seq<Name>, d: Name, b: seq<Name>, readAny: bool, url: string)
    requires forall c :: c in a + [d] + b ==> p + [c] in fs
    requires fs[p + [d]].Dir?
    ensures forall c :: c in a + b ==> p + [c] in fs
    ensures ScanDir(fs, perms, who, p, a + [d] + b, readAny, url) == ScanDir(fs, perms, who, p, a + b, readAny, url)
    decreases |a|
  {
    var ab := a + b;
    var adb := a + [d] + b;
    assert forall c :: c in ab ==> c in adb;
    if a == [] {
      assert adb[0] == d && adb[1..] == b && ab == b;
    } else {
      var c := a[0];
      assert adb[0] == c && adb[1..] == a[1..] + [d] + b;
      assert ab[0] == c && ab[1..] == a[1..] + b;
      assert forall e :: e in a[1..] + [d] + b ==> e in adb;
      var q := p + [c];
      if fs[q].Dir? {
        ScanSkipsSubdirectory(fs, perms, who, p, a[1..], d, b, readAny, url);
      } else if q in perms && CanRead(who, perms[q]) && !IsIndexName(c) {
        ScanSkipsSubdirectory(fs, perms, who, p, a[1..], d, b, true, url);
      }
    }
  }
}
