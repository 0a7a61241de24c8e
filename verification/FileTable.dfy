/** Shares and open files of a session (src/smb_fd.c) under packed file descriptors (src/smb_session.h). */
module FileTable {
  import opened Bytes
  import opened HandleList
  import opened Sequences

  // --- descriptors ------------------------------------------------------------------------------

  function Pack(tid: nat, fid: nat): nat { tid * TWO16 + fid }
  function TidOf(fd: nat): nat { fd / TWO16 % TWO16 }
  function FidOf(fd: nat): nat { fd % TWO16 }

  /** Packing loses nothing: both halves come back, and every 32-bit descriptor is a packed pair. */
  lemma PackUnpack(tid: nat, fid: nat, fd: nat)
    requires tid < TWO16 && fid < TWO16 && fd < TWO16 * TWO16
    ensures TidOf(Pack(tid, fid)) == tid && FidOf(Pack(tid, fid)) == fid
    ensures Pack(TidOf(fd), FidOf(fd)) == fd
  {
    assert (tid * TWO16 + fid) / TWO16 == tid;
    assert fd / TWO16 < TWO16;
  }

  lemma PackIsShift(tid: bv16, fid: bv16)
    ensures ((tid as bv32 << 16) | fid as bv32) as int == Pack(tid as int, fid as int)
  {
  }

  // --- the session ------------------------------------------------------------------------------

  class OpenFile {
    const tid: nat
    const fid: nat
    var offset: int

    constructor (tid: nat, fid: nat)
      ensures this.tid == tid && this.fid == fid && offset == 0
    {
      this.tid, this.fid, offset := tid, fid, 0;
    }
  }

  class Share {
    const tid: nat
    const files: List<OpenFile>

    constructor (tid: nat)
      ensures this.tid == tid && fresh(files) && files.Valid() && files.cells == [] && files.repr == {files}
    {
      this.tid := tid;
      files := new List<OpenFile>();
    }
  }

  /** The key of a file in a list is its file identifier. */
  ghost predicate KeyedByFid(files: List<OpenFile>)
    reads files
  {
    forall i :: 0 <= i < |files.cells| ==> files.cells[i].key == files.cells[i].value.fid
  }

  class Session {
    const shares: List<Share>
    ghost var repr: set<object>

    /** Every list is well formed, and no two of them have anything in common. */
    ghost predicate Valid()
      reads this, repr
      ensures Valid() ==> this in repr
    {
      && this in repr && shares in repr && shares.repr <= repr && this !in shares.repr && shares.Valid()
      && (forall i :: 0 <= i < |shares.cells| ==> Holds(shares.cells[i]))
      && (forall i, j :: 0 <= i < j < |shares.cells| ==>
            shares.cells[i].value.files.repr !! shares.cells[j].value.files.repr)
    }

    ghost predicate Holds(c: Cell<Share>)
      reads this, repr
    {
      var files := c.value.files;
      && c.key == c.value.tid
      && shares in repr && files in repr && files.repr <= repr && this !in files.repr
      && files.repr !! shares.repr && files.Valid() && KeyedByFid(files)
    }

    constructor ()
      ensures Valid() && fresh(repr) && shares.cells == []
    {
      shares := new List<Share>();
      new;
      repr := {this} + shares.repr;
    }

    /** The index of the share that answers for a tree identifier. */
    ghost function Index(tid: nat): (k: nat)
      reads shares
      ensures k <= |shares.cells|
    {
      First(Keys(shares.cells), tid, 0)
    }

    method ShareAdd(share: Share)
      requires Valid() && share.files.Valid() && KeyedByFid(share.files) && share.files.repr !! repr
      modifies shares.repr, this`repr
      ensures Valid() && fresh(repr - old(repr) - share.files.repr)
      ensures |shares.cells| == |old(shares.cells)| + 1 && shares.cells[..|old(shares.cells)|] == old(shares.cells)
      ensures shares.cells[|old(shares.cells)|].value == share
    {
      hide List.Valid;
      var cell := new Cell<Share>(share.tid, share);
      shares.Append(cell);
      repr := repr + {cell} + share.files.repr;
    }

    method ShareGet(tid: nat) returns (share: Share?)
      requires Valid()
      ensures share == if Index(tid) < |shares.cells| then shares.cells[Index(tid)].value else null
    {
      var cell := shares.Get(tid);
      share := if cell == null then null else cell.value;
    }

    method ShareRemove(tid: nat) returns (share: Share?)
      requires Valid()
      modifies shares.repr
      ensures Valid()
      ensures var k := old(Index(tid));
              if k == |old(shares.cells)| then share == null && shares.cells == old(shares.cells)
              else share == old(shares.cells)[k].value && shares.cells == Without(old(shares.cells), k)
    {
      RemovedIsFirst(Keys(shares.cells), tid);
      var cell := shares.Remove(tid, tid);
      share := if cell == null then null else cell.value;
    }

    /** The files open under a tree identifier, in list order; none if there is no such share. */
    ghost function Files(tid: nat): seq<Cell<OpenFile>>
      requires Valid()
      reads this, repr
    {
      if Index(tid) < |shares.cells| then shares.cells[Index(tid)].value.files.cells else []
    }

    /** The share list and the files of every other share are untouched. */
    twostate predicate OnlyFilesOf(tid: nat)
      requires old(Valid()) && Valid()
      reads this, repr
    {
      && shares.cells == old(shares.cells)
      && forall i :: 0 <= i < |shares.cells| && i != Index(tid) ==>
           shares.cells[i].value.files.cells == old(shares.cells[i].value.files.cells)
    }

    method FileAdd(tid: nat, file: OpenFile) returns (ok: bool)
      requires Valid()
      modifies repr
      ensures Valid() && fresh(repr - old(repr)) && OnlyFilesOf(tid)
      ensures ok <==> Index(tid) < |shares.cells|
      ensures !ok ==> Files(tid) == []
      ensures ok ==> var was := old(Files(tid));
                     && |Files(tid)| == |was| + 1 && Files(tid)[..|was|] == was
                     && Files(tid)[|was|].value == file && Files(tid)[|was|].key == file.fid
    {
      hide List.Valid, First;
      var share := ShareGet(tid);
      if share == null { return false; }
      var cell := new Cell<OpenFile>(file.fid, file);
      share.files.Append(cell);
      repr := repr + {cell};
      ok := true;
    }

    method FileGet(fd: nat) returns (file: OpenFile?)
      requires Valid()
      ensures var files := Files(TidOf(fd));
              var k := First(Keys(files), FidOf(fd), 0);
              file == if k < |files| then files[k].value else null
    {
      hide List.Valid;
      var share := ShareGet(TidOf(fd));
      if share == null { return null; }
      var cell := share.files.Get(FidOf(fd));
      file := if cell == null then null else cell.value;
    }

    /**
     As written: the first file is compared with the file identifier, the others with the tree
     identifier of the descriptor.
     */
    method FileRemove(fd: nat) returns (file: OpenFile?)
      requires Valid()
      modifies repr
      ensures Valid() && repr == old(repr) && OnlyFilesOf(TidOf(fd))
      ensures var was := old(Files(TidOf(fd)));
              var k := Removed(Keys(was), FidOf(fd), TidOf(fd));
              if k < |was| then file == was[k].value && Files(TidOf(fd)) == Without(was, k)
              else file == null && Files(TidOf(fd)) == was
    {
      hide List.Valid;
      var share := ShareGet(TidOf(fd));
      if share == null { return null; }
      var cell := share.files.Remove(FidOf(fd), TidOf(fd));
      file := if cell == null then null else cell.value;
    }
  }
}
