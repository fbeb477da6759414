/** The state the file handlers work on: the directory tree under the served root,
    the permission record of each resource, the requester, and the responses a
    handler can write. */
module Store {

  type Name = string

  /** A resource path, as the sequence of its components below the served root;
      the root itself is []. */
  type Path = seq<Name>

  type Byte = bv8

  /** A file with its bytes, or a directory with its children in the order the
      operating system enumerates them. */
  datatype Entry = File(content: seq<Byte>) | Dir(children: seq<Name>)

  type FileSystem = map<Path, Entry>

  function Parent(p: Path): Path
    requires p != []
  {
    p[..|p| - 1]
  }

  function Base(p: Path): Name
    requires p != []
  {
    p[|p| - 1]
  }

  predicate Distinct<T(==)>(s: seq<T>)
  {
    forall i, j :: 0 <= i < j < |s| ==> s[i] != s[j]
  }

  /** A name a directory listing can hold: one path element, neither "." nor "..". */
  predicate ValidName(n: Name)
  {
    n != "" && n != "." && n != ".." && '/' !in n
  }

  /** A directory lists distinct, valid names, and each names an entry. */
  ghost predicate ChildrenPresent(fs: FileSystem, p: Path)
    requires p in fs
  {
    fs[p].Dir? ==>
      Distinct(fs[p].children) &&
      forall c :: c in fs[p].children ==> ValidName(c) && p + [c] in fs
  }

  /** Every entry but the root is listed by its parent, which is a directory. */
  ghost predicate ListedByParent(fs: FileSystem, p: Path)
    requires p in fs
  {
    p != [] ==> Parent(p) in fs && fs[Parent(p)].Dir? && Base(p) in fs[Parent(p)].children
  }

  /** The map is a tree: what every directory lists exists, and everything that
      exists is listed. */
  ghost predicate WellFormed(fs: FileSystem)
  {
    forall p {:trigger ChildrenPresent(fs, p)} {:trigger ListedByParent(fs, p)} ::
      p in fs ==> ChildrenPresent(fs, p) && ListedByParent(fs, p)
  }

  /** s without the elements that occur in gone, in the same order. */
  function Without(s: seq<Name>, gone: seq<Name>): (r: seq<Name>)
    ensures forall x :: x in r <==> x in s && x !in gone
    ensures Distinct(s) ==> Distinct(r)
  {
    if s == [] then []
    else
      var rest := Without(s[1..], gone);
      assert forall k :: 0 <= k < |s| - 1 ==> s[1..][k] == s[k + 1];
      if s[0] in gone then rest else [s[0]] + rest
  }

  lemma {:induction false} WithoutNothing(s: seq<Name>)
    ensures Without(s, []) == s
  {
    if s != [] {
      WithoutNothing(s[1..]);
    }
  }

  lemma {:induction false} WithoutMore(s: seq<Name>, gone: seq<Name>, c: Name)
    ensures Without(Without(s, gone), [c]) == Without(s, gone + [c])
  {
    if s != [] {
      WithoutMore(s[1..], gone, c);
    }
  }

  /** os.Remove of a file or of an empty directory: the entry goes, and so does its
      name from its parent's listing; nothing else changes. */
  function Unlink(fs: FileSystem, q: Path): (r: FileSystem)
    requires q in fs
    requires q != [] ==> Parent(q) in fs && fs[Parent(q)].Dir?
    ensures r.Keys == fs.Keys - {q}
    ensures forall x :: x in r && (q == [] || x != Parent(q)) ==> r[x] == fs[x]
    ensures q != [] ==> r[Parent(q)] == Dir(Without(fs[Parent(q)].children, [Base(q)]))
  {
    if q == [] then fs - {q}
    else (fs - {q})[Parent(q) := Dir(Without(fs[Parent(q)].children, [Base(q)]))]
  }

  /** An exclusive create: a new file q with the given bytes, appended to the
      listing of its parent. */
  function Create(fs: FileSystem, q: Path, content: seq<Byte>): (r: FileSystem)
    requires q != [] && Parent(q) in fs && fs[Parent(q)].Dir?
    ensures r.Keys == fs.Keys + {q}
    ensures r[q] == File(content)
    ensures r[Parent(q)] == Dir(fs[Parent(q)].children + [Base(q)])
    ensures forall x :: x in fs && x != q && x != Parent(q) ==> r[x] == fs[x]
  {
    fs[Parent(q) := Dir(fs[Parent(q)].children + [Base(q)])][q := File(content)]
  }

  /** Every entry of a well-formed tree has its first component listed by the root. */
  lemma {:induction false} TopListed(fs: FileSystem, q: Path)
    requires WellFormed(fs) && q in fs && q != []
    ensures [] in fs && fs[[]].Dir? && q[0] in fs[[]].children
  {
    assert ListedByParent(fs, q);
    if |q| > 1 {
      TopListed(fs, Parent(q));
    } else {
      assert Parent(q) == [];
    }
  }

  lemma ChildPath(x: Path, c: Name)
    ensures x + [c] != [] && Parent(x + [c]) == x && Base(x + [c]) == c
  {
  }

  /** After an unlink, every remaining directory still lists only what exists. */
  lemma UnlinkKeepsChildren(fs: FileSystem, q: Path, x: Path)
    requires WellFormed(fs) && q in fs && q != []
    requires fs[q].File? || fs[q].children == []
    requires Parent(q) in fs && fs[Parent(q)].Dir?
    requires x in Unlink(fs, q)
    ensures ChildrenPresent(Unlink(fs, q), x)
  {
    var r := Unlink(fs, q);
    assert ChildrenPresent(fs, x);
    if r[x].Dir? {
      forall c | c in r[x].children
        ensures ValidName(c) && x + [c] in r
      {
        ChildPath(x, c);
        assert c in fs[x].children;
        assert x + [c] in fs;
        assert x == Parent(q) ==> c != Base(q);
      }
    }
  }

  /** After an unlink, every remaining entry is still listed by its parent. */
  lemma UnlinkKeepsListing(fs: FileSystem, q: Path, x: Path)
    requires WellFormed(fs) && q in fs && q != []
    requires fs[q].File? || fs[q].children == []
    requires Parent(q) in fs && fs[Parent(q)].Dir?
    requires x in Unlink(fs, q)
    ensures ListedByParent(Unlink(fs, q), x)
  {
    var r := Unlink(fs, q);
    assert ListedByParent(fs, x);
    if x != [] {
      assert x == Parent(x) + [Base(x)];
      assert q == Parent(q) + [Base(q)];
      assert Base(x) in fs[Parent(x)].children;
      assert Parent(x) != q;
      assert Parent(x) == Parent(q) ==> Base(x) != Base(q);
    }
  }

  /** Removing the root, when it lists nothing, leaves nothing else behind. */
  lemma UnlinkRootWellFormed(fs: FileSystem)
    requires WellFormed(fs) && [] in fs && fs[[]].Dir? && fs[[]].children == []
    ensures WellFormed(Unlink(fs, []))
  {
    forall x | x in fs
      ensures x == []
    {
      if x != [] {
        TopListed(fs, x);
      }
    }
  }

  /** Removing a file, or a directory that lists nothing, keeps the tree well formed. */
  lemma UnlinkWellFormed(fs: FileSystem, q: Path)
    requires WellFormed(fs) && q in fs
    requires fs[q].File? || fs[q].children == []
    requires q != [] ==> Parent(q) in fs && fs[Parent(q)].Dir?
    ensures WellFormed(Unlink(fs, q))
  {
    if q == [] {
      if fs[q].Dir? {
        UnlinkRootWellFormed(fs);
      } else {
        assert fs.Keys == {[]} by {
          forall x | x in fs
            ensures x == []
          {
            if x != [] {
              TopListed(fs, x);
            }
          }
        }
      }
    } else {
      forall x | x in Unlink(fs, q)
        ensures ChildrenPresent(Unlink(fs, q), x) && ListedByParent(Unlink(fs, q), x)
      {
        UnlinkKeepsChildren(fs, q, x);
        UnlinkKeepsListing(fs, q, x);
      }
    }
  }

  /** After a create, every directory still lists distinct names of existing entries. */
  lemma CreateKeepsChildren(fs: FileSystem, q: Path, content: seq<Byte>, x: Path)
    requires WellFormed(fs)
    requires q != [] && Parent(q) in fs && fs[Parent(q)].Dir? && q !in fs && ValidName(Base(q))
    requires x in Create(fs, q, content)
    ensures ChildrenPresent(Create(fs, q, content), x)
  {
    var r := Create(fs, q, content);
    if x != q {
      assert ChildrenPresent(fs, x);
      if x == Parent(q) {
        assert q == x + [Base(q)];
        assert Base(q) !in fs[x].children;
        var ch := r[x].children;
        assert forall i :: 0 <= i < |ch| - 1 ==> ch[i] in fs[x].children;
      }
    }
  }

  /** After a create, every entry is still listed by its parent. */
  lemma CreateKeepsListing(fs: FileSystem, q: Path, content: seq<Byte>, x: Path)
    requires WellFormed(fs)
    requires q != [] && Parent(q) in fs && fs[Parent(q)].Dir? && q !in fs && ValidName(Base(q))
    requires x in Create(fs, q, content)
    ensures ListedByParent(Create(fs, q, content), x)
  {
    if x != q {
      assert ListedByParent(fs, x);
      assert x != [] ==> Parent(x) in fs;
    }
  }

  /** An exclusive create of a new, validly named file keeps the tree well formed. */
  lemma CreateWellFormed(fs: FileSystem, q: Path, content: seq<Byte>)
    requires WellFormed(fs)
    requires q != [] && Parent(q) in fs && fs[Parent(q)].Dir? && q !in fs && ValidName(Base(q))
    ensures WellFormed(Create(fs, q, content))
  {
    forall x | x in Create(fs, q, content)
      ensures ChildrenPresent(Create(fs, q, content), x) && ListedByParent(Create(fs, q, content), x)
    {
      CreateKeepsChildren(fs, q, content, x);
      CreateKeepsListing(fs, q, content, x);
    }
  }

  /** A permission record: the owner's name and the flag strings ("", "r", "rw")
      of the public, friend and private tiers. */
  datatype Permission = Permission(owner: string, public: string, friend: string, private: string)

  type Records = map<Path, Permission>

  /** A logged-in user and the owners who count that user as a friend. */
  datatype User = User(name: string, friendOf: set<string>)

  /** The identity authenticate yields: nil, or a logged-in user. */
  datatype Requester = Anonymous | Authenticated(user: User)

  /** Ownership goes by the user name alone, and an owner can always read. */
  predicate IsOwner(u: User, prm: Permission): (b: bool)
    ensures b ==> CanRead(Authenticated(u), prm)
  {
    prm.owner == u.name
  }

  /** The read check: the owner always reads, a friend of the owner reads when the
      friend tier grants 'r', anyone reads when the public tier grants 'r'. An
      anonymous requester reads exactly what the public tier grants, and a logged-in
      user reads everything an anonymous one can. */
  predicate CanRead(who: Requester, prm: Permission): (b: bool)
    ensures who.Anonymous? ==> (b <==> 'r' in prm.public)
    ensures 'r' in prm.public ==> b
    ensures b && !('r' in prm.public) ==> who.Authenticated? && (prm.owner == who.user.name || prm.owner in who.user.friendOf)
  {
    'r' in prm.public ||
    (who.Authenticated? &&
     (prm.owner == who.user.name || (prm.owner in who.user.friendOf && 'r' in prm.friend)))
  }

  /** The record an upload writes: owned by the uploader, private "rw", nothing
      for the friend and public tiers. */
  function PrivateRecord(u: User): Permission
  {
    Permission(u.name, "", "", "rw")
  }

  /** A freshly uploaded file is readable by its uploader and by nobody else. */
  lemma PrivateRecordReaders(u: User, who: Requester)
    ensures IsOwner(u, PrivateRecord(u))
    ensures CanRead(who, PrivateRecord(u)) <==> who.Authenticated? && who.user.name == u.name
  {
  }

  /** path.Join of a request path and one child name, for clean paths. */
  function JoinUrl(url: string, n: Name): string
  {
    if url == "" then n
    else if url[|url| - 1] == '/' then url + n
    else url + "/" + n
  }

  /** The file-system path of a resource, as its components joined by '/'. */
  function PathString(p: Path): string
  {
    if p == [] then "" else PathString(Parent(p)) + "/" + Base(p)
  }

  datatype Status = Success | Fail | Error

  /** A resource descriptor of a JSend payload. */
  datatype Properties = Properties(name: string, url: string)

  /** Why an item of a bulk operation failed. */
  datatype Cause = NotOwner | PartUnreadable | CreateRefused | WriteFailed | RecordFailed

  datatype ErrorItem = ErrorItem(cause: Cause, data: Properties)

  const NOT_OWNER_MESSAGE := "You do not have owner permissions on this resource."
  const LOGIN_TO_POST := "You must log in before posting a file."
  const LOGIN_TO_DELETE := "You must log in before deleting a file."

  /** What a handler writes back. */
  datatype Response =
    | NotFound                          // four04
    | ServeFile(file: Path)             // serveFile on a readable file
    | Redirect(location: string)        // http.Redirect with 302 Found
    | Rejected(message: string)         // errHandled(pubFail(...))
    | InternalError                     // errHandled(err) for a failed lookup
    | JSend(status: Status, message: string, data: seq<Properties>, errors: seq<ErrorItem>)
    | NoBody                            // the handler returns without writing
}
