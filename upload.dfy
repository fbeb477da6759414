/** The item loop of filePost: each uploaded part is written to a new file in the
    target directory through an exclusive create; a part whose write and record
    write both succeed gets a private permission record. Every part is reported
    in the data or in the errors, and a failing part never stops the ones after
    it. */
module Upload {
  import opened Store

  /** What the operating system and the record store do with one part once its
      file is created: how many bytes Write accepted, whether Write and Close
      reported an error, and whether setPermissions succeeded. */
  datatype WriteIO = WriteIO(accepted: nat, writeOk: bool, closeOk: bool, recordOk: bool)

  /** One uploaded part: its file name, its bytes, whether opening and reading the
      part succeeded, and what happens when it is written. */
  datatype Part = Part(name: Name, body: seq<Byte>, readOk: bool, io: WriteIO)

  /** The handler's state part way through the loop. */
  datatype Batch = Batch(fs: FileSystem, perms: Records, data: seq<Properties>,
                         errors: seq<ErrorItem>, status: Status)

  /** The status fileErrorItem gives a failed part: a refused create is a public
      failure, anything else an error. */
  function ItemStatus(c: Cause): (s: Status)
    ensures s != Success
  {
    if c == CreateRefused then Fail else Error
  }

  /** os.OpenFile with O_CREATE|O_EXCL in dir succeeds: dir is a directory, the name
      is one path element, and nothing exists at the target yet. */
  predicate CanCreate(fs: FileSystem, dir: Path, n: Name): (b: bool)
    ensures b ==> dir + [n] != [] && Parent(dir + [n]) == dir && Base(dir + [n]) == n
    ensures b ==> dir + [n] !in fs && dir + [n] != dir
  {
    dir in fs && fs[dir].Dir? && ValidName(n) && dir + [n] !in fs
  }

  /** The bytes that reach the new file. */
  function Written(part: Part): (r: seq<Byte>)
    ensures r <= part.body && |r| == if part.io.accepted < |part.body| then part.io.accepted else |part.body|
  {
    if part.io.accepted < |part.body| then part.body[..part.io.accepted] else part.body
  }

  /** Write accepted every byte and neither Write nor Close reported an error. */
  predicate WriteSucceeded(part: Part): (b: bool)
    ensures b ==> Written(part) == part.body
  {
    part.io.writeOk && part.io.accepted >= |part.body| && part.io.closeOk
  }

  function Describe(dir: Path, url: string, n: Name): Properties
  {
    Properties(PathString(dir + [n]), JoinUrl(url, n))
  }

  function Failed(b: Batch, c: Cause, item: Properties): Batch
  {
    b.(errors := b.errors + [ErrorItem(c, item)], status := ItemStatus(c))
  }

  /** One turn of the loop for the part, uploaded by u into dir (requested as url).
      The part is reported exactly once: either its descriptor joins the data and
      the status stays, or an error item carrying its descriptor joins the errors
      and the status stops being success. */
  function UploadStep(b: Batch, u: User, dir: Path, url: string, part: Part): (r: Batch)
    ensures var item := Describe(dir, url, part.name);
      (r.data == b.data + [item] && r.errors == b.errors && r.status == b.status) ||
      (r.data == b.data && |r.errors| == |b.errors| + 1 &&
       r.errors == b.errors + [ErrorItem(r.errors[|b.errors|].cause, item)] && r.status != Success)
  {
    var q := dir + [part.name];
    var item := Describe(dir, url, part.name);
    if !part.readOk then Failed(b, PartUnreadable, item)
    else if !CanCreate(b.fs, dir, part.name) then Failed(b, CreateRefused, item)
    else
      assert q != [] && Parent(q) == dir && Base(q) == part.name;
      var fs := Create(b.fs, q, Written(part));
      if !WriteSucceeded(part) then Failed(b.(fs := fs), WriteFailed, item)
      else if !part.io.recordOk then Failed(b.(fs := fs), RecordFailed, item)
      else b.(fs := fs, perms := b.perms[q := PrivateRecord(u)], data := b.data + [item])
  }

  /** The loop over parts, in the order the handler meets them. Every part ends up
      in exactly one of the two lists, the lists only grow, and the status reads
      success exactly while the error list is empty. */
  function UploadAll(b: Batch, u: User, dir: Path, url: string, parts: seq<Part>): (r: Batch)
    ensures |r.data| + |r.errors| == |b.data| + |b.errors| + |parts|
    ensures b.data <= r.data && b.errors <= r.errors
    ensures (b.status == Success <==> b.errors == []) ==> (r.status == Success <==> r.errors == [])
    decreases |parts|
  {
    if parts == [] then b
    else UploadStep(UploadAll(b, u, dir, url, parts[..|parts| - 1]), u, dir, url, parts[|parts| - 1])
  }

  /** The loop after one more part is one more step. */
  lemma UploadAllNext(b: Batch, u: User, dir: Path, url: string, parts: seq<Part>, i: nat)
    requires i < |parts|
    ensures UploadAll(b, u, dir, url, parts[..i + 1]) == UploadStep(UploadAll(b, u, dir, url, parts[..i]), u, dir, url, parts[i])
  {
    assert parts[..i + 1][..i] == parts[..i];
  }

  /** The descriptors the error items carry, in order. */
  function Items(es: seq<ErrorItem>): (r: seq<Properties>)
    ensures |r| == |es| && forall k :: 0 <= k < |es| ==> r[k] == es[k].data
  {
    if es == [] then [] else Items(es[..|es| - 1]) + [es[|es| - 1].data]
  }

  /** The descriptor of every part, in the order of the parts. */
  function Descriptors(dir: Path, url: string, parts: seq<Part>): (r: seq<Properties>)
    ensures |r| == |parts| && forall i :: 0 <= i < |parts| ==> r[i] == Describe(dir, url, parts[i].name)
  {
    if parts == [] then [] else Descriptors(dir, url, parts[..|parts| - 1]) + [Describe(dir, url, parts[|parts| - 1].name)]
  }

  /** Every part is reported exactly once: the entries the loop adds to the data,
      together with the descriptors of the error items it adds, are the
      descriptors of the parts, each as often as it occurs among them. */
  lemma {:induction false} UploadReportsEachPart(b: Batch, u: User, dir: Path, url: string, parts: seq<Part>)
    ensures var r := UploadAll(b, u, dir, url, parts);
      multiset(r.data[|b.data|..]) + multiset(Items(r.errors[|b.errors|..])) ==
      multiset(Descriptors(dir, url, parts))
    decreases |parts|
  {
    var r := UploadAll(b, u, dir, url, parts);
    if parts == [] {
      assert r.data[|b.data|..] == [] && r.errors[|b.errors|..] == [];
    } else {
      var init := parts[..|parts| - 1];
      var m := UploadAll(b, u, dir, url, init);
      var d := Describe(dir, url, parts[|parts| - 1].name);
      UploadReportsEachPart(b, u, dir, url, init);
      assert Descriptors(dir, url, parts) == Descriptors(dir, url, init) + [d];
      assert r == UploadStep(m, u, dir, url, parts[|parts| - 1]);
      ReportOnce(|b.data|, |b.errors|, m.data, m.errors, r.data, r.errors, d);
    }
  }

  /** One more report, in the data or in the errors, adds its descriptor once. */
  lemma ReportOnce(bd: nat, be: nat, md: seq<Properties>, me: seq<ErrorItem>,
                   rd: seq<Properties>, re: seq<ErrorItem>, d: Properties)
    requires bd <= |md| && be <= |me|
    requires (rd == md + [d] && re == me) ||
             (rd == md && |re| == |me| + 1 && re == me + [ErrorItem(re[|me|].cause, d)])
    ensures multiset(rd[bd..]) + multiset(Items(re[be..])) ==
      multiset(md[bd..]) + multiset(Items(me[be..])) + multiset{d}
  {
    if rd == md + [d] && re == me {
      assert rd[bd..] == md[bd..] + [d];
    } else {
      ErrorReported(be, me, re, d);
    }
  }

  /** One more error item adds its descriptor to the descriptors of the errors. */
  lemma ErrorReported(be: nat, me: seq<ErrorItem>, re: seq<ErrorItem>, d: Properties)
    requires be <= |me| && |re| == |me| + 1 && re == me + [ErrorItem(re[|me|].cause, d)]
    ensures Items(re[be..]) == Items(me[be..]) + [d]
  {
    var e := re[|me|];
    assert re[be..] == me[be..] + [e];
    ItemsAppend(me[be..], e);
  }

  lemma ItemsAppend(es: seq<ErrorItem>, e: ErrorItem)
    ensures Items(es + [e]) == Items(es) + [e.data]
  {
    assert (es + [e])[..|es|] == es;
  }

  /** No rollback and no record for a failed part: when the create succeeds but
      the write or the record write fails, the new file is governed by whatever
      record an earlier resource at the same path left behind (deletion keeps
      records), which may belong to another user and grant others access. */
  lemma FailedUploadKeepsStaleRecord(b: Batch, u: User, dir: Path, url: string, part: Part)
    requires part.readOk && CanCreate(b.fs, dir, part.name)
    requires !(WriteSucceeded(part) && part.io.recordOk)
    requires dir + [part.name] in b.perms
    ensures var r := UploadStep(b, u, dir, url, part);
      var q := dir + [part.name];
      q !in b.fs && q in r.fs && r.fs[q].File? &&
      q in r.perms && r.perms[q] == b.perms[q] &&
      (forall who :: CanRead(who, r.perms[q]) <==> CanRead(who, b.perms[q]))
  {
  }

  /** The three ways a part can end. If the part cannot be read or the exclusive
      create is refused (something already exists there), tree and records are
      untouched and the part is reported as failed. If the create succeeds but
      writing fails or falls short, or the record cannot be stored, the new file
      stays (nothing is rolled back) with the bytes that were written, and the part
      is reported as failed. Otherwise the file holds the whole part, its record is
      owned by the uploader and readable by nobody else, and it is listed in the
      data. */
  lemma UploadStepOutcome(b: Batch, u: User, dir: Path, url: string, part: Part)
    ensures var r := UploadStep(b, u, dir, url, part);
      var q := dir + [part.name];
      (!part.readOk || !CanCreate(b.fs, dir, part.name) ==>
        r.fs == b.fs && r.perms == b.perms && r.data == b.data &&
        r.errors == b.errors + [ErrorItem(if part.readOk then CreateRefused else PartUnreadable,
                                          Describe(dir, url, part.name))]) &&
      (part.readOk && CanCreate(b.fs, dir, part.name) && !(WriteSucceeded(part) && part.io.recordOk) ==>
        q in r.fs && r.fs[q] == File(Written(part)) && r.perms == b.perms && r.data == b.data &&
        r.errors == b.errors + [ErrorItem(if WriteSucceeded(part) then RecordFailed else WriteFailed,
                                          Describe(dir, url, part.name))] &&
        r.status != Success) &&
      (part.readOk && CanCreate(b.fs, dir, part.name) && WriteSucceeded(part) && part.io.recordOk ==>
        q in r.fs && r.fs[q] == File(part.body) && q in r.perms && r.perms[q] == PrivateRecord(u) &&
        (forall who :: CanRead(who, r.perms[q]) <==> who.Authenticated? && who.user.name == u.name) &&
        r.data == b.data + [Describe(dir, url, part.name)] && r.errors == b.errors && r.status == b.status)
  {
    var q := dir + [part.name];
    assert q != [] && Parent(q) == dir && Base(q) == part.name;
    forall who
      ensures CanRead(who, PrivateRecord(u)) <==> who.Authenticated? && who.user.name == u.name
    {
      PrivateRecordReaders(u, who);
    }
  }

  /** What a later batch keeps of an earlier one: every entry that existed still
      exists with the same content, except that dir may have gained names at the
      end of its listing, and the record of every existing entry is unchanged (a
      record left behind for a path that no longer exists may be replaced). */
  ghost predicate Keeps(a: FileSystem, ra: Records, b: FileSystem, rb: Records, dir: Path)
  {
    (forall q :: q in a ==> q in b && (q != dir ==> b[q] == a[q])) &&
    (dir in a && a[dir].Dir? ==> b[dir].Dir? && a[dir].children <= b[dir].children) &&
    (forall q :: q in ra && q in a ==> q in rb && rb[q] == ra[q])
  }

  /** Everything b has that a did not is a file directly inside dir, and every
      record b holds that a did not hold (or held with another value) belongs to
      such a new file and is the uploader's private record. A new file may also
      have no new record: then any record left at its path stays in force. */
  ghost predicate AddsOnlyPrivateFiles(a: FileSystem, ra: Records, b: FileSystem, rb: Records,
                                       u: User, dir: Path)
  {
    (forall q :: q in b && q !in a ==> q != [] && Parent(q) == dir && b[q].File?) &&
    (forall q :: q in rb && !(q in ra && rb[q] == ra[q]) ==> q !in a && q in b && rb[q] == PrivateRecord(u))
  }

  lemma StepKeeps(b: Batch, u: User, dir: Path, url: string, part: Part)
    ensures var r := UploadStep(b, u, dir, url, part);
      Keeps(b.fs, b.perms, r.fs, r.perms, dir) && AddsOnlyPrivateFiles(b.fs, b.perms, r.fs, r.perms, u, dir)
  {
    var q := dir + [part.name];
    assert q != [] && Parent(q) == dir && Base(q) == part.name;
  }

  lemma KeepsTransitive(a: FileSystem, ra: Records, m: FileSystem, rm: Records, b: FileSystem, rb: Records,
                        u: User, dir: Path)
    requires Keeps(a, ra, m, rm, dir) && AddsOnlyPrivateFiles(a, ra, m, rm, u, dir)
    requires Keeps(m, rm, b, rb, dir) && AddsOnlyPrivateFiles(m, rm, b, rb, u, dir)
    ensures Keeps(a, ra, b, rb, dir) && AddsOnlyPrivateFiles(a, ra, b, rb, u, dir)
  {
  }

  /** No upload overwrites: every entry that existed before keeps its content (the
      target directory can only gain names at the end of its listing) and so does
      its record. Everything it adds is a file directly inside the
      target directory, and every record it writes belongs to such a new file and
      is the uploader's private record. */
  lemma {:induction false} UploadOnlyAdds(b: Batch, u: User, dir: Path, url: string, parts: seq<Part>)
    ensures var r := UploadAll(b, u, dir, url, parts);
      Keeps(b.fs, b.perms, r.fs, r.perms, dir) && AddsOnlyPrivateFiles(b.fs, b.perms, r.fs, r.perms, u, dir)
    decreases |parts|
  {
    if parts != [] {
      var init := parts[..|parts| - 1];
      var m := UploadAll(b, u, dir, url, init);
      UploadOnlyAdds(b, u, dir, url, init);
      StepKeeps(m, u, dir, url, parts[|parts| - 1]);
      var r := UploadAll(b, u, dir, url, parts);
      KeepsTransitive(b.fs, b.perms, m.fs, m.perms, r.fs, r.perms, u, dir);
    }
  }

  /** Two parts with the same name: once the first has created its file, the second
      is refused by the exclusive create and changes nothing. */
  lemma SameNameTwice(b: Batch, u: User, dir: Path, url: string, first: Part, second: Part)
    requires first.name == second.name && second.readOk
    requires first.readOk && CanCreate(b.fs, dir, first.name)
    ensures var m := UploadStep(b, u, dir, url, first);
      var r := UploadStep(m, u, dir, url, second);
      r.fs == m.fs && r.perms == m.perms && r.data == m.data &&
      r.errors == m.errors + [ErrorItem(CreateRefused, Describe(dir, url, second.name))]
  {
    var q := dir + [first.name];
    assert q != [] && Parent(q) == dir && Base(q) == first.name;
    var m := UploadStep(b, u, dir, url, first);
    assert q in m.fs && !CanCreate(m.fs, dir, second.name);
  }

  /** The tree stays well formed through the loop. */
  lemma {:induction false} UploadWellFormed(b: Batch, u: User, dir: Path, url: string, parts: seq<Part>)
    requires WellFormed(b.fs)
    ensures WellFormed(UploadAll(b, u, dir, url, parts).fs)
    decreases |parts|
  {
    if parts != [] {
      var init := parts[..|parts| - 1];
      UploadWellFormed(b, u, dir, url, init);
      var m := UploadAll(b, u, dir, url, init);
      var part := parts[|parts| - 1];
      var q := dir + [part.name];
      assert q != [] && Parent(q) == dir && Base(q) == part.name;
      if part.readOk && CanCreate(m.fs, dir, part.name) {
        CreateWellFormed(m.fs, q, Written(part));
      }
    }
  }
}
