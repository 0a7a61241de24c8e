/**
 The tables of shares and open files (src/smb_fd.c) over whole runs: what the linked lists hold is a
 function of the calls made and of their results.
 */
module FileRuns {
  import opened Bytes
  import opened FileTable
  import opened HandleList
  import opened Sequences

  // --- the tables as values -----------------------------------------------------------------------

  /** A share and the files open in it, in list order. */
  datatype Entry = Entry(share: Share, files: seq<OpenFile>)

  type Table = seq<Entry>

  function Tids(t: Table): (r: seq<nat>)
    ensures |r| == |t| && forall i :: 0 <= i < |r| ==> r[i] == t[i].share.tid
  {
    seq(|t|, i requires 0 <= i < |t| => t[i].share.tid)
  }

  function Fids(files: seq<OpenFile>): (r: seq<nat>)
    ensures |r| == |files| && forall i :: 0 <= i < |r| ==> r[i] == files[i].fid
  {
    seq(|files|, i requires 0 <= i < |files| => files[i].fid)
  }

  /** The share that answers for a tree identifier, or the number of shares. */
  function ShareIndex(t: Table, tid: nat): (k: nat)
    ensures k <= |t| && (k < |t| ==> t[k].share.tid == tid)
    ensures forall i :: 0 <= i < k ==> t[i].share.tid != tid
  {
    First(Tids(t), tid, 0)
  }

  function FindShare(t: Table, tid: nat): Share?
  {
    if ShareIndex(t, tid) < |t| then t[ShareIndex(t, tid)].share else null
  }

  function FilesOf(t: Table, tid: nat): seq<OpenFile>
  {
    if ShareIndex(t, tid) < |t| then t[ShareIndex(t, tid)].files else []
  }

  function WithFiles(t: Table, tid: nat, files: seq<OpenFile>): Table
  {
    var k := ShareIndex(t, tid);
    if k < |t| then t[k := t[k].(files := files)] else t
  }

  function FileAt(files: seq<OpenFile>, k: nat): OpenFile?
  {
    if k < |files| then files[k] else null
  }

  /** The file a descriptor designates: the first with its identifier in the first share with its tree. */
  function Found(t: Table, fd: nat): OpenFile?
  {
    var files := FilesOf(t, TidOf(fd));
    FileAt(files, First(Fids(files), FidOf(fd), 0))
  }

  /** The file `smb_session_file_remove` unlinks for a descriptor. */
  function Unlinked(t: Table, fd: nat): OpenFile?
  {
    var files := FilesOf(t, TidOf(fd));
    FileAt(files, Removed(Fids(files), FidOf(fd), TidOf(fd)))
  }

  function WithoutFile(t: Table, fd: nat): Table
  {
    var files := FilesOf(t, TidOf(fd));
    var k := Removed(Fids(files), FidOf(fd), TidOf(fd));
    if k < |files| then WithFiles(t, TidOf(fd), Without(files, k)) else t
  }

  function WithoutShare(t: Table, tid: nat): Table
  {
    if ShareIndex(t, tid) < |t| then Without(t, ShareIndex(t, tid)) else t
  }

  // --- calls and their results ----------------------------------------------------------------------

  datatype Op =
    | AddShare(tid: nat)
    | GetShare(tid: nat)
    | RemoveShare(tid: nat)
    | AddFile(tid: nat, fid: nat)
    | GetFile(fd: nat)
    | RemoveFile(fd: nat)

  /** What a call returns; for an addition, what was added. */
  datatype Result = OfShare(share: Share?) | OfFile(file: OpenFile?)

  predicate Holds(t: Table, f: OpenFile)
  {
    exists i :: 0 <= i < |t| && f in t[i].files
  }

  /** The result a call must have on a table. */
  predicate Proper(t: Table, op: Op, r: Result)
  {
    match op
    case AddShare(tid) => r.OfShare? && r.share != null && r.share.tid == tid
    case GetShare(tid) => r == OfShare(FindShare(t, tid))
    case RemoveShare(tid) => r == OfShare(FindShare(t, tid))
    case AddFile(tid, fid) =>
      && r.OfFile? && (r.file != null <==> ShareIndex(t, tid) < |t|)
      && (r.file != null ==> r.file.tid == tid && r.file.fid == fid && !Holds(t, r.file))
    case GetFile(fd) => r == OfFile(Found(t, fd))
    case RemoveFile(fd) => r == OfFile(Unlinked(t, fd))
  }

  function Step(t: Table, op: Op, r: Result): Table
    requires Proper(t, op, r)
  {
    match op
    case AddShare(tid) => t + [Entry(r.share, [])]
    case RemoveShare(tid) => WithoutShare(t, tid)
    case AddFile(tid, fid) => if r.file == null then t else WithFiles(t, tid, FilesOf(t, tid) + [r.file])
    case RemoveFile(fd) => WithoutFile(t, fd)
    case _ => t
  }

  /** Every call of a run has its proper result, and the tables after it. */
  predicate ProperRun(t: Table, ops: seq<Op>, rs: seq<Result>)
    requires |ops| == |rs|
    decreases |ops|
  {
    ops == [] || (Proper(t, ops[0], rs[0]) && ProperRun(Step(t, ops[0], rs[0]), ops[1..], rs[1..]))
  }

  function Run(t: Table, ops: seq<Op>, rs: seq<Result>): Table
    requires |ops| == |rs| && ProperRun(t, ops, rs)
    decreases |ops|
  {
    if ops == [] then t else Run(Step(t, ops[0], rs[0]), ops[1..], rs[1..])
  }

  // --- what follows -----------------------------------------------------------------------------------

  lemma FilesOfWith(t: Table, tid: nat, files: seq<OpenFile>, other: nat)
    ensures FilesOf(WithFiles(t, tid, files), other)
         == if other == tid && ShareIndex(t, tid) < |t| then files else FilesOf(t, other)
    ensures ShareIndex(WithFiles(t, tid, files), other) == ShareIndex(t, other)
  {
    assert Tids(WithFiles(t, tid, files)) == Tids(t);
  }

  /** A file just added is the one its descriptor designates exactly if its share exists and its identifier was free. */
  lemma FoundThroughDescriptor(t: Table, tid: nat, f: OpenFile)
    requires tid < TWO16 && f.fid < TWO16 && !Holds(t, f)
    ensures Found(WithFiles(t, tid, FilesOf(t, tid) + [f]), Pack(tid, f.fid)) == f
            <==> ShareIndex(t, tid) < |t| && f.fid !in Fids(FilesOf(t, tid))
  {
    hide First;
    var files := FilesOf(t, tid);
    PackUnpack(tid, f.fid, 0);
    FilesOfWith(t, tid, files + [f], tid);
    assert Fids(files + [f]) == Fids(files) + [f.fid];
    FoundAfterAppend(Fids(files), f.fid);
    assert f !in files;
  }

  /** It is the one unlinked through it again exactly if it is alone in its share or its identifiers coincide. */
  lemma UnlinkedThroughDescriptor(t: Table, tid: nat, f: OpenFile)
    requires tid < TWO16 && f.fid < TWO16 && !Holds(t, f)
    requires ShareIndex(t, tid) < |t| && f.fid !in Fids(FilesOf(t, tid))
    ensures Unlinked(WithFiles(t, tid, FilesOf(t, tid) + [f]), Pack(tid, f.fid)) == f
            <==> FilesOf(t, tid) == [] || f.fid == tid
  {
    hide First, Removed;
    var files := FilesOf(t, tid);
    PackUnpack(tid, f.fid, 0);
    FilesOfWith(t, tid, files + [f], tid);
    assert Fids(files + [f]) == Fids(files) + [f.fid];
    RemovedAfterAppend(Fids(files), f.fid, tid);
    assert f !in files;
  }

  /** No file is in a share twice. */
  ghost predicate Distinct(t: Table)
  {
    forall i, p, q :: 0 <= i < |t| && 0 <= p < q < |t[i].files| ==> t[i].files[p] != t[i].files[q]
  }

  lemma StepKeepsDistinct(t: Table, op: Op, r: Result)
    requires Distinct(t) && Proper(t, op, r)
    ensures Distinct(Step(t, op, r))
  {
    hide First, Removed;
  }

  /** With one file taken out, another one is still the first with its identifier. */
  lemma FirstWithout(files: seq<OpenFile>, fid: nat, k: nat, m: nat)
    requires k < |files| && m < |files| && m == First(Fids(files), fid, 0) && k != m
    ensures FileAt(Without(files, k), First(Fids(Without(files, k)), fid, 0)) == files[m]
  {
    var rest := Without(files, k);
    FirstUnique(Fids(rest), fid, 0, if k < m then m - 1 else m);
  }

  lemma FirstAppended(files: seq<OpenFile>, fid: nat, f: OpenFile)
    requires First(Fids(files), fid, 0) < |files|
    ensures FileAt(files + [f], First(Fids(files + [f]), fid, 0)) == files[First(Fids(files), fid, 0)]
  {
    FirstUnique(Fids(files + [f]), fid, 0, First(Fids(files), fid, 0));
  }

  lemma FirstGone(files: seq<OpenFile>, fid: nat, k: nat)
    requires k < |files| && k == First(Fids(files), fid, 0)
    requires forall p, q :: 0 <= p < q < |files| ==> files[p] != files[q]
    ensures FileAt(Without(files, k), First(Fids(Without(files, k)), fid, 0)) != files[k]
  {
    var rest := Without(files, k);
    assert files[k] !in rest;
  }

  lemma ShareIndexAppended(t: Table, e: Entry, tid: nat)
    requires ShareIndex(t, tid) < |t|
    ensures ShareIndex(t + [e], tid) == ShareIndex(t, tid)
  {
    FirstUnique(Tids(t + [e]), tid, 0, ShareIndex(t, tid));
  }

  lemma FilesOfWithoutShare(t: Table, other: nat, tid: nat)
    requires other != tid
    ensures FilesOf(WithoutShare(t, other), tid) == FilesOf(t, tid)
  {
    var k, m, t' := ShareIndex(t, other), ShareIndex(t, tid), WithoutShare(t, other);
    if k < |t| {
      FirstUnique(Tids(t'), tid, 0, if k < m then m - 1 else m);
    }
  }

  /**
   As long as its share is not removed, a file that a descriptor designates stays the one it
   designates through any call, except exactly the removal that unlinks it.
   */
  lemma StepKeepsFound(t: Table, op: Op, r: Result, fd: nat)
    requires Distinct(t) && Proper(t, op, r) && Found(t, fd) != null && op != RemoveShare(TidOf(fd))
    ensures Found(Step(t, op, r), fd) == Found(t, fd)
            <==> !(op.RemoveFile? && TidOf(op.fd) == TidOf(fd) && r.file == Found(t, fd))
  {
    hide First, Removed;
    var tid, files := TidOf(fd), FilesOf(t, TidOf(fd));
    var m := First(Fids(files), FidOf(fd), 0);
    match op
    case AddShare(_) => ShareIndexAppended(t, Entry(r.share, []), tid);
    case RemoveShare(other) => FilesOfWithoutShare(t, other, tid);
    case AddFile(other, fid) =>
      if r.file != null {
        FilesOfWith(t, other, FilesOf(t, other) + [r.file], tid);
        FirstAppended(files, FidOf(fd), r.file);
      }
    case RemoveFile(other) =>
      var theirs := FilesOf(t, TidOf(other));
      var k := Removed(Fids(theirs), FidOf(other), TidOf(other));
      if k < |theirs| {
        FilesOfWith(t, TidOf(other), Without(theirs, k), tid);
        if TidOf(other) == tid {
          if k == m { FirstGone(files, FidOf(fd), k); } else { FirstWithout(files, FidOf(fd), k, m); }
        }
      }
    case _ =>
  }

  /** A call that removes the share of a descriptor, or unlinks its file. */
  predicate Ends(op: Op, r: Result, fd: nat, f: OpenFile)
  {
    op == RemoveShare(TidOf(fd)) || (op.RemoveFile? && TidOf(op.fd) == TidOf(fd) && r == OfFile(f))
  }

  /** Over any run without such a call, the file stays the one the descriptor designates. */
  lemma {:induction false} StaysFound(t: Table, ops: seq<Op>, rs: seq<Result>, fd: nat, f: OpenFile)
    requires |ops| == |rs| && ProperRun(t, ops, rs) && Distinct(t) && Found(t, fd) == f
    requires forall i :: 0 <= i < |ops| ==> !Ends(ops[i], rs[i], fd, f)
    ensures Found(Run(t, ops, rs), fd) == f
    decreases |ops|
  {
    hide Step, Proper, Found;
    if ops != [] {
      assert !Ends(ops[0], rs[0], fd, f);
      StepKeepsDistinct(t, ops[0], rs[0]);
      ResultKind(t, ops[0], rs[0]);
      StepKeepsFound(t, ops[0], rs[0], fd);
      assert forall i :: 0 <= i < |ops[1..]| ==> ops[1..][i] == ops[i + 1] && rs[1..][i] == rs[i + 1];
      StaysFound(Step(t, ops[0], rs[0]), ops[1..], rs[1..], fd, f);
    }
  }

  lemma ResultKind(t: Table, op: Op, r: Result)
    requires Proper(t, op, r)
    ensures op.RemoveFile? ==> r.OfFile?
  {
  }

  // --- the linked lists ---------------------------------------------------------------------------------

  function Values<T>(cells: seq<Cell<T>>): (r: seq<T>)
    ensures |r| == |cells| && forall i :: 0 <= i < |r| ==> r[i] == cells[i].value
  {
    seq(|cells|, i requires 0 <= i < |cells| => cells[i].value)
  }

  ghost function Entries(cells: seq<Cell<Share>>): (t: Table)
    reads set c <- cells :: c.value.files
    ensures |t| == |cells|
    ensures forall i :: 0 <= i < |t| ==> t[i] == Entry(cells[i].value, Values(cells[i].value.files.cells))
  {
    if cells == [] then []
    else Entries(cells[..|cells| - 1]) + [Entry(cells[|cells| - 1].value, Values(cells[|cells| - 1].value.files.cells))]
  }

  /** The tables a session holds. */
  ghost function Contents(s: Session): Table
    requires s.Valid()
    reads s, s.repr
  {
    Entries(s.shares.cells)
  }

  lemma ContentsMatch(s: Session, tid: nat)
    requires s.Valid()
    ensures Tids(Contents(s)) == Keys(s.shares.cells)
    ensures ShareIndex(Contents(s), tid) == s.Index(tid)
    ensures FilesOf(Contents(s), tid) == Values(s.Files(tid))
    ensures Fids(FilesOf(Contents(s), tid)) == Keys(s.Files(tid))
  {
    assert Tids(Contents(s)) == Keys(s.shares.cells);
  }

  /** A change to the files of one share only. */
  lemma OneShareChanged(s: Session, was: Table, tid: nat)
    requires s.Valid() && |was| == |s.shares.cells|
    requires forall i :: 0 <= i < |was| ==> was[i].share == s.shares.cells[i].value
    requires forall i :: 0 <= i < |was| && i != s.Index(tid) ==> was[i].files == Values(s.shares.cells[i].value.files.cells)
    ensures Contents(s) == WithFiles(was, tid, Values(s.Files(tid)))
  {
    hide First, List.Valid;
    ContentsMatch(s, tid);
    var now := Contents(s);
    assert Tids(was) == Tids(now);
    forall i | 0 <= i < |now|
      ensures now[i] == WithFiles(was, tid, Values(s.Files(tid)))[i]
    {
    }
  }

  lemma SameFiles(t: Table, tid: nat)
    ensures WithFiles(t, tid, FilesOf(t, tid)) == t
  {
  }

  method PerformAddShare(s: Session, tid: nat) returns (r: Result)
    requires s.Valid()
    modifies s.repr
    ensures s.Valid() && fresh(s.repr - old(s.repr))
    ensures Proper(old(Contents(s)), AddShare(tid), r) && Contents(s) == Step(old(Contents(s)), AddShare(tid), r)
  {
    hide List.Valid;
    var share := new Share(tid);
    s.ShareAdd(share);
    r := OfShare(share);
  }

  method PerformRemoveShare(s: Session, tid: nat) returns (r: Result)
    requires s.Valid()
    modifies s.repr
    ensures s.Valid() && fresh(s.repr - old(s.repr))
    ensures Proper(old(Contents(s)), RemoveShare(tid), r) && Contents(s) == Step(old(Contents(s)), RemoveShare(tid), r)
  {
    hide List.Valid, First;
    ContentsMatch(s, tid);
    var share := s.ShareRemove(tid);
    r := OfShare(share);
  }

  /** A file created later is not in the tables. */
  twostate lemma NewFileIsUnknown(s: Session, new file: OpenFile)
    requires old(s.Valid()) && fresh(file)
    ensures !Holds(old(Contents(s)), file)
  {
    hide First;
    var t := old(Contents(s));
    forall i | 0 <= i < |t| ensures file !in t[i].files {
    }
  }

  /** The link made for a file not yet in the tables. */
  method Link(s: Session, tid: nat, file: OpenFile) returns (r: Result)
    requires s.Valid() && !Holds(Contents(s), file) && file.tid == tid
    modifies s.repr
    ensures s.Valid() && fresh(s.repr - old(s.repr))
    ensures Proper(old(Contents(s)), AddFile(tid, file.fid), r)
    ensures Contents(s) == Step(old(Contents(s)), AddFile(tid, file.fid), r)
  {
    hide List.Valid, First, Holds, ShareIndex, WithFiles, FilesOf;
    ContentsMatch(s, tid);
    ghost var was, t := s.Files(tid), Contents(s);
    var ok := s.FileAdd(tid, file);
    OneShareChanged(s, t, tid);
    ContentsMatch(s, tid);
    assert ok ==> Values(s.Files(tid)) == Values(was) + [file];
    r := OfFile(if ok then file else null);
  }

  method PerformAddFile(s: Session, tid: nat, fid: nat) returns (r: Result)
    requires s.Valid()
    modifies s.repr
    ensures s.Valid() && fresh(s.repr - old(s.repr))
    ensures Proper(old(Contents(s)), AddFile(tid, fid), r) && Contents(s) == Step(old(Contents(s)), AddFile(tid, fid), r)
  {
    hide Session.Valid, List.Valid, First, Holds, Contents, Proper, Step;
    var file := new OpenFile(tid, fid);
    NewFileIsUnknown(s, file);
    r := Link(s, tid, file);
  }

  method PerformRemoveFile(s: Session, fd: nat) returns (r: Result)
    requires s.Valid()
    modifies s.repr
    ensures s.Valid() && fresh(s.repr - old(s.repr))
    ensures Proper(old(Contents(s)), RemoveFile(fd), r) && Contents(s) == Step(old(Contents(s)), RemoveFile(fd), r)
  {
    hide List.Valid, First, Removed;
    ContentsMatch(s, TidOf(fd));
    ghost var t, was := Contents(s), s.Files(TidOf(fd));
    ghost var k := Removed(Keys(was), FidOf(fd), TidOf(fd));
    var file := s.FileRemove(fd);
    OneShareChanged(s, t, TidOf(fd));
    assert k < |was| ==> Values(Without(was, k)) == Without(Values(was), k);
    SameFiles(t, TidOf(fd));
    r := OfFile(file);
  }

  method Perform(s: Session, op: Op) returns (r: Result)
    requires s.Valid()
    modifies s.repr
    ensures s.Valid() && fresh(s.repr - old(s.repr))
    ensures Proper(old(Contents(s)), op, r) && Contents(s) == Step(old(Contents(s)), op, r)
  {
    hide Session.Valid, List.Valid, First, Removed;
    match op {
      case AddShare(tid) => r := PerformAddShare(s, tid);
      case GetShare(tid) =>
        ContentsMatch(s, tid);
        var share := s.ShareGet(tid);
        r := OfShare(share);
      case RemoveShare(tid) => r := PerformRemoveShare(s, tid);
      case AddFile(tid, fid) => r := PerformAddFile(s, tid, fid);
      case GetFile(fd) =>
        ContentsMatch(s, TidOf(fd));
        var file := s.FileGet(fd);
        r := OfFile(file);
      case RemoveFile(fd) => r := PerformRemoveFile(s, fd);
    }
  }

  lemma {:induction false} RunSnoc(t: Table, ops: seq<Op>, rs: seq<Result>, op: Op, r: Result)
    requires |ops| == |rs| && ProperRun(t, ops, rs) && Proper(Run(t, ops, rs), op, r)
    ensures ProperRun(t, ops + [op], rs + [r])
    ensures Run(t, ops + [op], rs + [r]) == Step(Run(t, ops, rs), op, r)
    decreases |ops|
  {
    hide Proper, Step;
    if ops != [] {
      assert (ops + [op])[1..] == ops[1..] + [op] && (rs + [r])[1..] == rs[1..] + [r];
      RunSnoc(Step(t, ops[0], rs[0]), ops[1..], rs[1..], op, r);
    } else {
      assert (ops + [op])[1..] == [] && (rs + [r])[1..] == [];
    }
  }

  /** Any run of calls: the lists stay well formed and apart, and hold what the calls and results say. */
  method RunTable(s: Session, ops: seq<Op>) returns (rs: seq<Result>)
    requires s.Valid()
    modifies s.repr
    ensures s.Valid() && fresh(s.repr - old(s.repr)) && |rs| == |ops|
    ensures ProperRun(old(Contents(s)), ops, rs) && Contents(s) == Run(old(Contents(s)), ops, rs)
  {
    hide Session.Valid, Proper, Step, ProperRun, Run, Contents;
    rs := [];
    ghost var t := Contents(s);
    RunNone(t);
    for i := 0 to |ops|
      invariant s.Valid() && fresh(s.repr - old(s.repr)) && |rs| == i
      invariant ProperRun(t, ops[..i], rs) && Contents(s) == Run(t, ops[..i], rs)
    {
      var r := Perform(s, ops[i]);
      RunSnoc(t, ops[..i], rs, ops[i], r);
      assert ops[..i + 1] == ops[..i] + [ops[i]];
      rs := rs + [r];
    }
    assert ops[..|ops|] == ops;
  }

  lemma RunNone(t: Table)
    ensures ProperRun(t, [], []) && Run(t, [], []) == t
  {
  }

  lemma RunOfThree(t: Table, ops: seq<Op>, rs: seq<Result>)
    requires |ops| == |rs| == 3 && ProperRun(t, ops, rs)
    ensures Proper(t, ops[0], rs[0])
    ensures var t1 := Step(t, ops[0], rs[0]);
            Proper(t1, ops[1], rs[1]) && Proper(Step(t1, ops[1], rs[1]), ops[2], rs[2])
  {
    hide Proper, Step;
    var t1 := Step(t, ops[0], rs[0]);
    assert ProperRun(t1, ops[1..], rs[1..]);
    assert ops[1..][0] == ops[1] && rs[1..][0] == rs[1] && ops[1..][1..] == ops[2..] && rs[1..][1..] == rs[2..];
    assert ProperRun(Step(t1, ops[1], rs[1]), ops[2..], rs[2..]);
  }

  /** Opening a file, looking it up through its packed descriptor, and closing it again. */
  method OpenLookUpClose(s: Session, tid: nat, fid: nat) returns (added: OpenFile?, found: OpenFile?, closed: OpenFile?)
    requires s.Valid() && tid < TWO16 && fid < TWO16
    modifies s.repr
    ensures s.Valid()
    ensures added != null <==> ShareIndex(old(Contents(s)), tid) < |old(Contents(s))|
    ensures added != null ==> added.tid == tid && added.fid == fid
    ensures added != null ==> (found == added <==> fid !in Fids(FilesOf(old(Contents(s)), tid)))
    ensures added != null && found == added ==> (closed == added <==> FilesOf(old(Contents(s)), tid) == [] || fid == tid)
  {
    hide Session.Valid, Run, ProperRun, Contents, First, Removed;
    ghost var t := Contents(s);
    var fd := Pack(tid, fid);
    var ops := [AddFile(tid, fid), GetFile(fd), RemoveFile(fd)];
    var rs := RunTable(s, ops);
    RunOfThree(t, ops, rs);
    added, found, closed := rs[0].file, rs[1].file, rs[2].file;
    if added != null {
      FoundThroughDescriptor(t, tid, added);
      if found == added { UnlinkedThroughDescriptor(t, tid, added); }
    }
  }
}
