/** The directory pass of fileDelete: one walk over the directory's listing that
    removes the files the requester owns, reports the readable files it does not
    own, and passes silently over the rest. */
module Deletion {
  import opened Store

  /** How the pass treats one child of the directory. */
  datatype Verdict =
    | SubDir      // skipped: the pass looks at files only
    | NoRecord    // the permission lookup fails: the whole request ends in an error
    | Owned       // removed and listed in the data
    | ReadOnly    // kept and listed in the errors: the requester knows it exists
    | Hidden      // kept and listed nowhere: the requester may not learn it exists

  /** A file is removed exactly when the requester owns its record, and passed
      over in silence exactly when the requester cannot read it (an owner always
      can); a file without a record stops the pass. */
  function Classify(fs: FileSystem, perms: Records, u: User, q: Path): (v: Verdict)
    requires q in fs
    ensures v == SubDir <==> fs[q].Dir?
    ensures v == NoRecord <==> fs[q].File? && q !in perms
    ensures v == Owned <==> fs[q].File? && q in perms && perms[q].owner == u.name
    ensures v == Hidden <==> fs[q].File? && q in perms && !CanRead(Authenticated(u), perms[q])
    ensures v == ReadOnly ==> CanRead(Authenticated(u), perms[q]) && perms[q].owner != u.name
  {
    if fs[q].Dir? then SubDir
    else if q !in perms then NoRecord
    else if IsOwner(u, perms[q]) then Owned
    else if CanRead(Authenticated(u), perms[q]) then ReadOnly
    else Hidden
  }

  /** Where the pass stands: the names removed and the names reported so far, in
      listing order, and whether a lookup error cut it short. */
  datatype Pass = Pass(removed: seq<Name>, denied: seq<Name>, aborted: bool)

  /** The pass over the listing kids of p, taken before the pass begins. */
  function DeletePass(fs: FileSystem, perms: Records, u: User, p: Path, kids: seq<Name>): (s: Pass)
    requires forall c :: c in kids ==> p + [c] in fs
    ensures forall c :: c in s.removed ==> c in kids && Classify(fs, perms, u, p + [c]) == Owned
    ensures forall c :: c in s.denied ==> c in kids && Classify(fs, perms, u, p + [c]) == ReadOnly
    decreases |kids|
  {
    if kids == [] then Pass([], [], false)
    else
      var init := kids[..|kids| - 1];
      var c := kids[|kids| - 1];
      assert forall d :: d in init ==> d in kids;
      assert c in kids;
      var s := DeletePass(fs, perms, u, p, init);
      if s.aborted then s
      else
        match Classify(fs, perms, u, p + [c])
        case SubDir => s
        case NoRecord => s.(aborted := true)
        case Owned => s.(removed := s.removed + [c])
        case ReadOnly => s.(denied := s.denied + [c])
        case Hidden => s
  }

  /** A pass that runs to the end has removed every file the requester owns and
      reported every readable file it does not own; no child lacked a record. */
  lemma {:induction false} PassComplete(fs: FileSystem, perms: Records, u: User, p: Path, kids: seq<Name>)
    requires forall c :: c in kids ==> p + [c] in fs
    ensures !DeletePass(fs, perms, u, p, kids).aborted ==>
      forall c :: c in kids ==>
        Classify(fs, perms, u, p + [c]) != NoRecord &&
        (Classify(fs, perms, u, p + [c]) == Owned ==> c in DeletePass(fs, perms, u, p, kids).removed) &&
        (Classify(fs, perms, u, p + [c]) == ReadOnly ==> c in DeletePass(fs, perms, u, p, kids).denied)
    decreases |kids|
  {
    if kids != [] {
      var init := kids[..|kids| - 1];
      assert forall d :: d in init ==> d in kids;
      assert kids == init + [kids[|kids| - 1]];
      PassComplete(fs, perms, u, p, init);
    }
  }

  /** A pass over children that all have a record is never cut short. */
  lemma {:induction false} PassNotAborted(fs: FileSystem, perms: Records, u: User, p: Path, kids: seq<Name>)
    requires forall c :: c in kids ==> p + [c] in fs
    requires forall c :: c in kids ==> Classify(fs, perms, u, p + [c]) != NoRecord
    ensures !DeletePass(fs, perms, u, p, kids).aborted
    decreases |kids|
  {
    if kids != [] {
      var init := kids[..|kids| - 1];
      assert forall d :: d in init ==> d in kids;
      assert kids[|kids| - 1] in kids;
      PassNotAborted(fs, perms, u, p, init);
    }
  }

  /** A pass stops at the first child without a record: the result is that of the
      pass over the children before it, marked as cut short, so what was removed
      and reported by then stands and nothing after it is touched. */
  lemma PassAbortsAt(fs: FileSystem, perms: Records, u: User, p: Path, kids: seq<Name>, k: nat)
    requires forall c :: c in kids ==> p + [c] in fs
    requires k < |kids| && Classify(fs, perms, u, p + [kids[k]]) == NoRecord
    requires forall j :: 0 <= j < k ==> Classify(fs, perms, u, p + [kids[j]]) != NoRecord
    ensures DeletePass(fs, perms, u, p, kids) == DeletePass(fs, perms, u, p, kids[..k]).(aborted := true)
  {
    assert forall c :: c in kids[..k] ==> c in kids;
    assert forall c :: c in kids[..k + 1] ==> c in kids;
    PassNotAborted(fs, perms, u, p, kids[..k]);
    PassNext(fs, perms, u, p, kids, k);
    AbortStays(fs, perms, u, p, kids, k + 1);
  }

  /** The directory lists nothing after a completed pass exactly when every child
      was a file the requester owns. */
  lemma PassEmptiesDirectory(fs: FileSystem, perms: Records, u: User, p: Path, kids: seq<Name>)
    requires forall c :: c in kids ==> p + [c] in fs
    requires !DeletePass(fs, perms, u, p, kids).aborted
    ensures Without(kids, DeletePass(fs, perms, u, p, kids).removed) == [] <==>
      forall c :: c in kids ==> Classify(fs, perms, u, p + [c]) == Owned
  {
    var left := Without(kids, DeletePass(fs, perms, u, p, kids).removed);
    PassComplete(fs, perms, u, p, kids);
    if left != [] {
      assert left[0] in left;
    }
  }

  /** The tree after the pass removed the children named in gone from directory p:
      those entries are gone, p lists the rest in the same order, and nothing else
      changes. */
  function RemoveChildren(fs: FileSystem, p: Path, gone: seq<Name>): (r: FileSystem)
    requires p in fs && fs[p].Dir?
    ensures p in r && r[p] == Dir(Without(fs[p].children, gone))
    ensures forall q :: q in r <==> q in fs && !(q != [] && Parent(q) == p && Base(q) in gone)
    ensures forall q :: q in r && q != p ==> r[q] == fs[q]
  {
    var kept := map q | q in fs && !(q != [] && Parent(q) == p && Base(q) in gone) :: fs[q];
    kept[p := Dir(Without(fs[p].children, gone))]
  }

  /** Every directory still lists distinct names of existing entries after files
      of p are removed. */
  lemma RemoveKeepsChildren(fs: FileSystem, p: Path, gone: seq<Name>, x: Path)
    requires WellFormed(fs) && p in fs && fs[p].Dir?
    requires x in RemoveChildren(fs, p, gone)
    ensures ChildrenPresent(RemoveChildren(fs, p, gone), x)
  {
    var r := RemoveChildren(fs, p, gone);
    assert ChildrenPresent(fs, x);
    if r[x].Dir? {
      forall c | c in r[x].children
        ensures p + [c] != x + [c] ==> x + [c] in r
      {
        if p + [c] != x + [c] {
          assert Parent(x + [c]) == x;
        }
      }
      if x == p {
        forall c | c in r[x].children
          ensures x + [c] in r
        {
          assert Parent(x + [c]) == x && Base(x + [c]) == c;
        }
      }
    }
  }

  /** Every remaining entry is still listed by its parent, as long as what was
      removed were files. */
  lemma RemoveKeepsListing(fs: FileSystem, p: Path, gone: seq<Name>, x: Path)
    requires WellFormed(fs) && p in fs && fs[p].Dir?
    requires forall c :: c in gone && p + [c] in fs ==> fs[p + [c]].File?
    requires x in RemoveChildren(fs, p, gone)
    ensures ListedByParent(RemoveChildren(fs, p, gone), x)
  {
    var r := RemoveChildren(fs, p, gone);
    assert ListedByParent(fs, x);
    if x != [] {
      var y := Parent(x);
      assert fs[y].Dir?;
      assert y != [] ==> y == Parent(y) + [Base(y)];
    }
  }

  /** Removing files of p keeps the tree well formed. */
  lemma RemoveChildrenWellFormed(fs: FileSystem, p: Path, gone: seq<Name>)
    requires WellFormed(fs) && p in fs && fs[p].Dir?
    requires forall c :: c in gone && p + [c] in fs ==> fs[p + [c]].File?
    ensures WellFormed(RemoveChildren(fs, p, gone))
  {
    forall x | x in RemoveChildren(fs, p, gone)
      ensures ChildrenPresent(RemoveChildren(fs, p, gone), x) && ListedByParent(RemoveChildren(fs, p, gone), x)
    {
      RemoveKeepsChildren(fs, p, gone, x);
      RemoveKeepsListing(fs, p, gone, x);
    }
  }

  /** Before the pass removes anything, the tree is as it was. */
  lemma RemoveNoChildren(fs: FileSystem, p: Path)
    requires p in fs && fs[p].Dir?
    ensures RemoveChildren(fs, p, []) == fs
  {
    WithoutNothing(fs[p].children);
  }

  /** Removing one more file of p is one more unlink. */
  lemma RemoveNextChild(fs: FileSystem, p: Path, gone: seq<Name>, c: Name)
    requires p in fs && fs[p].Dir? && p + [c] in fs && c !in gone
    ensures p + [c] in RemoveChildren(fs, p, gone)
    ensures Unlink(RemoveChildren(fs, p, gone), p + [c]) == RemoveChildren(fs, p, gone + [c])
  {
    var q := p + [c];
    assert q != [] && Parent(q) == p && Base(q) == c;
    var r := RemoveChildren(fs, p, gone);
    var a := Unlink(r, q);
    var b := RemoveChildren(fs, p, gone + [c]);
    forall x | x != [] && Parent(x) == p && Base(x) == c
      ensures x == q
    {
      assert x == Parent(x) + [Base(x)];
    }
    forall x
      ensures x in a <==> x in b
    {
      assert x in a <==> x in r && x != q;
    }
    assert a.Keys == b.Keys;
    forall x | x in a
      ensures a[x] == b[x]
    {
      if x == p {
        WithoutMore(fs[p].children, gone, c);
      } else {
        assert a[x] == r[x] == fs[x];
      }
    }
  }

  /** Once the pass is cut short, the children after the cut change nothing. */
  lemma {:induction false} AbortStays(fs: FileSystem, perms: Records, u: User, p: Path, kids: seq<Name>, n: nat)
    requires forall c :: c in kids ==> p + [c] in fs
    requires n <= |kids|
    requires forall c :: c in kids[..n] ==> p + [c] in fs
    requires DeletePass(fs, perms, u, p, kids[..n]).aborted
    ensures DeletePass(fs, perms, u, p, kids) == DeletePass(fs, perms, u, p, kids[..n])
    decreases |kids|
  {
    if n < |kids| {
      var init := kids[..|kids| - 1];
      assert forall d :: d in init ==> d in kids;
      assert init[..n] == kids[..n];
      AbortStays(fs, perms, u, p, init, n);
    } else {
      assert kids[..n] == kids;
    }
  }

  /** What the handler relies on about the directory p of a well-formed tree: it
      exists, every name it lists is an entry, every entry just below it is listed,
      and its parent is a directory. */
  ghost predicate Enclosing(fs: FileSystem, p: Path)
  {
    p in fs && fs[p].Dir? && Distinct(fs[p].children) &&
    (forall c :: c in fs[p].children ==> p + [c] in fs) &&
    (forall q :: q in fs && q != [] && Parent(q) == p ==> Base(q) in fs[p].children) &&
    (p != [] ==> Parent(p) in fs && fs[Parent(p)].Dir?)
  }

  lemma WellFormedEnclosing(fs: FileSystem, p: Path)
    requires WellFormed(fs) && p in fs && fs[p].Dir?
    ensures Enclosing(fs, p)
  {
    assert ChildrenPresent(fs, p) && ListedByParent(fs, p);
    forall q | q in fs && q != [] && Parent(q) == p
      ensures Base(q) in fs[p].children
    {
      assert ListedByParent(fs, q);
    }
  }

  /** The data of the response: one descriptor per named child of the directory
      requested as url. */
  function Listed(url: string, names: seq<Name>): seq<Properties>
  {
    seq(|names|, i requires 0 <= i < |names| => Properties(names[i], JoinUrl(url, names[i])))
  }

  /** The errors of the response: one not-owner item per named child. */
  function Denials(url: string, names: seq<Name>): seq<ErrorItem>
  {
    seq(|names|, i requires 0 <= i < |names| => ErrorItem(NotOwner, Properties(names[i], JoinUrl(url, names[i]))))
  }

  lemma ListedNext(url: string, names: seq<Name>, c: Name)
    ensures Listed(url, names + [c]) == Listed(url, names) + [Properties(c, JoinUrl(url, c))]
    ensures Denials(url, names + [c]) == Denials(url, names) + [ErrorItem(NotOwner, Properties(c, JoinUrl(url, c)))]
  {
  }

  /** One more child of the pass, when the pass has not been cut short. */
  lemma PassNext(fs: FileSystem, perms: Records, u: User, p: Path, kids: seq<Name>, i: nat)
    requires forall c :: c in kids ==> p + [c] in fs
    requires i < |kids| && !DeletePass(fs, perms, u, p, kids[..i]).aborted
    ensures var s := DeletePass(fs, perms, u, p, kids[..i]);
      var c := kids[i];
      DeletePass(fs, perms, u, p, kids[..i + 1]) ==
        match Classify(fs, perms, u, p + [c])
        case SubDir => s
        case NoRecord => s.(aborted := true)
        case Owned => s.(removed := s.removed + [c])
        case ReadOnly => s.(denied := s.denied + [c])
        case Hidden => s
  {
    assert kids[..i + 1][..i] == kids[..i];
    assert forall d :: d in kids[..i + 1] ==> d in kids;
  }

  /** What fileDelete answers for the directory p, requested as url: an error if
      the pass was cut short, otherwise the removed files as data, the reported
      files as errors, and a failure status exactly when something was reported. */
  function DirectoryResponse(fs: FileSystem, perms: Records, u: User, p: Path, url: string): (r: Response)
    requires Enclosing(fs, p)
    ensures r.InternalError? || r.JSend?
    ensures r.JSend? ==>
      r.message == "" && |r.data| + |r.errors| <= |fs[p].children| &&
      (r.status == Success <==> r.errors == []) && (r.status == Success || r.status == Fail)
  {
    var s := DeletePass(fs, perms, u, p, fs[p].children);
    if s.aborted then InternalError
    else
      PassSplitsListing(fs, perms, u, p, fs[p].children);
      JSend(if s.denied == [] then Success else Fail, "", Listed(url, s.removed), Denials(url, s.denied))
  }

  /** A child is removed or reported at most once, and never both. */
  lemma {:induction false} PassSplitsListing(fs: FileSystem, perms: Records, u: User, p: Path, kids: seq<Name>)
    requires forall c :: c in kids ==> p + [c] in fs
    requires Distinct(kids)
    ensures var s := DeletePass(fs, perms, u, p, kids);
      Distinct(s.removed) && Distinct(s.denied) && (forall c :: c in s.removed ==> c !in s.denied) &&
      |s.removed| + |s.denied| <= |kids|
    decreases |kids|
  {
    if kids != [] {
      var init := kids[..|kids| - 1];
      var c := kids[|kids| - 1];
      assert forall d :: d in init ==> d in kids;
      assert c !in init by {
        assert forall j :: 0 <= j < |init| ==> init[j] == kids[j] && kids[j] != c;
      }
      PassSplitsListing(fs, perms, u, p, init);
    }
  }

  lemma EmptyWithoutMembers(s: seq<Name>)
    ensures (forall c :: c !in s) ==> s == []
  {
    if s != [] {
      assert s[0] in s;
    }
  }

  /** A DELETE of a directory whose children are all subdirectories or files
      the requester cannot read still answers success with empty lists, where a
      missing path is not found: the answer tells that the directory exists. */
  lemma HiddenDirectoryAnswers(fs: FileSystem, perms: Records, u: User, p: Path, url: string)
    requires Enclosing(fs, p)
    requires forall c :: c in fs[p].children ==>
      Classify(fs, perms, u, p + [c]) == SubDir || Classify(fs, perms, u, p + [c]) == Hidden
    ensures DirectoryResponse(fs, perms, u, p, url) == JSend(Success, "", [], [])
  {
    var s := DeletePass(fs, perms, u, p, fs[p].children);
    PassNotAborted(fs, perms, u, p, fs[p].children);
    EmptyWithoutMembers(s.removed);
    EmptyWithoutMembers(s.denied);
  }

  /** The tree fileDelete leaves behind for the directory p: the files the pass
      removed are gone and, if the pass ran to the end, the directory itself is
      removed when it lists nothing any more (os.Remove refuses a non-empty one),
      which also takes its name out of its parent's listing. */
  function DeleteDirectory(fs: FileSystem, perms: Records, u: User, p: Path): (r: FileSystem)
    requires Enclosing(fs, p)
    ensures var s := DeletePass(fs, perms, u, p, fs[p].children);
      var t := RemoveChildren(fs, p, s.removed);
      (forall q :: q != p ==> (q in r <==> q in t)) &&
      (p in r <==> s.aborted || t[p].children != []) &&
      (forall q :: q in r && q != p && (p == [] || q != Parent(p)) ==> r[q] == t[q]) &&
      (p != [] ==> Parent(p) in r && r[Parent(p)].Dir? &&
                   r[Parent(p)].children == if p in r then fs[Parent(p)].children
                                            else Without(fs[Parent(p)].children, [Base(p)]))
  {
    var s := DeletePass(fs, perms, u, p, fs[p].children);
    var t := RemoveChildren(fs, p, s.removed);
    assert p != [] ==> Parent(p) != p && Parent(p) in t && t[Parent(p)] == fs[Parent(p)];
    if s.aborted || t[p].children != [] then t
    else Unlink(t, p)
  }

  /** Deleting a directory removes nothing but files of that directory that the
      requester owns, and the directory itself; every entry that stays is kept as
      it was, except that the parent no longer lists a removed directory. */
  lemma DeleteDirectoryOnlyOwned(fs: FileSystem, perms: Records, u: User, p: Path)
    requires Enclosing(fs, p)
    ensures var r := DeleteDirectory(fs, perms, u, p);
      (forall q :: q in r ==> q in fs) &&
      (forall q :: q in fs && q != p && q !in r ==>
         q != [] && Parent(q) == p && Classify(fs, perms, u, q) == Owned) &&
      (forall q :: q in r && q != p && (p == [] || q != Parent(p)) ==> r[q] == fs[q])
  {
    var s := DeletePass(fs, perms, u, p, fs[p].children);
    var t := RemoveChildren(fs, p, s.removed);
    var r := DeleteDirectory(fs, perms, u, p);
    forall q | q in fs && q != p && q !in r
      ensures q != [] && Parent(q) == p && Classify(fs, perms, u, q) == Owned
    {
      assert q !in t;
      RemovedWasOwned(fs, perms, u, p, s, q);
    }
    forall q | q in r && q != p && (p == [] || q != Parent(p))
      ensures r[q] == fs[q]
    {
      assert r[q] == t[q];
    }
  }

  /** A child the pass removed was a file the requester owns. */
  lemma RemovedWasOwned(fs: FileSystem, perms: Records, u: User, p: Path, s: Pass, q: Path)
    requires Enclosing(fs, p) && s == DeletePass(fs, perms, u, p, fs[p].children)
    requires q in fs && q != [] && Parent(q) == p && Base(q) in s.removed
    ensures Classify(fs, perms, u, q) == Owned
  {
    assert q == p + [Base(q)];
  }

  /** A pass that runs to the end removes every file of the directory that the
      requester owns. */
  lemma DeleteDirectoryAllOwned(fs: FileSystem, perms: Records, u: User, p: Path)
    requires Enclosing(fs, p)
    requires !DeletePass(fs, perms, u, p, fs[p].children).aborted
    ensures forall q :: q in fs && q != [] && Parent(q) == p && Classify(fs, perms, u, q) == Owned ==>
      q !in DeleteDirectory(fs, perms, u, p)
  {
    var s := DeletePass(fs, perms, u, p, fs[p].children);
    forall q | q in fs && q != [] && Parent(q) == p && Classify(fs, perms, u, q) == Owned
      ensures q !in DeleteDirectory(fs, perms, u, p)
    {
      OwnedWasRemoved(fs, perms, u, p, s, q);
      assert q !in RemoveChildren(fs, p, s.removed);
    }
  }

  /** After a pass that ran to the end, every owned file of the directory is
      among the removed names. */
  lemma OwnedWasRemoved(fs: FileSystem, perms: Records, u: User, p: Path, s: Pass, q: Path)
    requires Enclosing(fs, p) && s == DeletePass(fs, perms, u, p, fs[p].children) && !s.aborted
    requires q in fs && q != [] && Parent(q) == p && Classify(fs, perms, u, q) == Owned
    ensures Base(q) in s.removed
  {
    PassComplete(fs, perms, u, p, fs[p].children);
    assert Base(q) in fs[p].children && q == p + [Base(q)];
  }

  /** The directory itself goes exactly when the pass ran to the end and every
      child was a file the requester owns; a subdirectory, or any file the
      requester does not own, keeps it. */
  lemma DeleteDirectoryRemovesSelf(fs: FileSystem, perms: Records, u: User, p: Path)
    requires Enclosing(fs, p)
    ensures p !in DeleteDirectory(fs, perms, u, p) <==>
      !DeletePass(fs, perms, u, p, fs[p].children).aborted &&
      forall c :: c in fs[p].children ==> Classify(fs, perms, u, p + [c]) == Owned
  {
    var kids := fs[p].children;
    if !DeletePass(fs, perms, u, p, kids).aborted {
      PassEmptiesDirectory(fs, perms, u, p, kids);
    }
  }
}
