/** Directory listing: the entry parser and the paging loop of `smb_find` in src/smb_trans2.c. */
module FindFiles {
  import opened Bytes
  import opened Trans2

  const FIRST_PARAMS: nat := 12       // sizeof(smb_tr2_findfirst2_params)
  const NEXT_PARAMS: nat := 8         // sizeof(smb_tr2_findnext2_params)
  const ENTRY_SIZE: nat := 94         // sizeof(smb_tr2_find2_entry)

  /** An `smb_file` as listing fills it. */
  datatype FileStat = FileStat(name: seq<byte>, created: nat, accessed: nat, written: nat, changed: nat,
                               size: nat, allocSize: nat, attr: nat)

  /** `smb_from_utf16`, which may fail with an empty result. */
  type Decoder = seq<byte> -> seq<byte>

  /** What a listing yields; the code does not check its reads against the end of the message. */
  datatype Parsed = Listed(files: seq<FileStat>) | ReadPastEnd

  // --- the parser -------------------------------------------------------------------------------

  predicate EntryInside(s: seq<byte>, at: nat)
  {
    at + ENTRY_SIZE <= |s| && at + ENTRY_SIZE + Field(s, at + 60, 4) <= |s|
  }

  function RawName(s: seq<byte>, at: nat): seq<byte>
    requires EntryInside(s, at)
  {
    s[at + ENTRY_SIZE..at + ENTRY_SIZE + Field(s, at + 60, 4)]
  }

  function StatAt(s: seq<byte>, at: nat, name: seq<byte>): FileStat
    requires EntryInside(s, at)
  {
    FileStat(name, Field(s, at + 8, 8), Field(s, at + 16, 8), Field(s, at + 24, 8), Field(s, at + 32, 8),
             Field(s, at + 40, 8), Field(s, at + 48, 8), Field(s, at + 56, 4))
  }

  /** Entries are pushed on the front of the list as they are read. */
  function Parse(s: seq<byte>, at: nat, count: nat, files: seq<FileStat>, decode: Decoder): Parsed
    decreases count
  {
    if count == 0 || at >= |s| then Listed(files)
    else if !EntryInside(s, at) then ReadPastEnd
    else
      var name := decode(RawName(s, at));
      if name == [] then Listed(files)
      else Parse(s, at + Field(s, at, 4), count - 1, [StatAt(s, at, name)] + files, decode)
  }

  /** `smb_tr2_find2_parse_entries`. */
  method ParseEntries(s: seq<byte>, start: nat, count: nat, before: seq<FileStat>, decode: Decoder)
      returns (result: Parsed)
    ensures result == Parse(s, start, count, before, decode)
  {
    var files, at: nat, i: nat := before, start, 0;
    while i < count && at < |s|
      invariant i <= count
      invariant Parse(s, at, count - i, files, decode) == Parse(s, start, count, before, decode)
    {
      if !EntryInside(s, at) { return ReadPastEnd; }
      var name := decode(RawName(s, at));
      if name == [] { return Listed(files); }
      files := [StatAt(s, at, name)] + files;
      at := at + Field(s, at, 4);
      i := i + 1;
    }
    result := Listed(files);
  }

  // --- entries as a server lays them out ----------------------------------------------------------

  type Rest = s: seq<byte> | |s| == 30 witness Fill(0, 30)

  /** A directory entry; `rest` is the extended-attribute size and the short name, `pad` aligns the next entry. */
  datatype DirEntry = DirEntry(index: nat, created: nat, accessed: nat, written: nat, changed: nat,
                               size: nat, allocSize: nat, attr: nat, rest: Rest, rawName: seq<byte>, pad: seq<byte>)

  predicate WellFormed(e: DirEntry, decode: Decoder)
  {
    && e.created < TWO64 && e.accessed < TWO64 && e.written < TWO64 && e.changed < TWO64
    && e.size < TWO64 && e.allocSize < TWO64 && e.attr < TWO32
    && EntryLength(e) < TWO32 && decode(e.rawName) != []
  }

  function EntryLength(e: DirEntry): nat { ENTRY_SIZE + |e.rawName| + |e.pad| }

  function Times(e: DirEntry): (r: seq<byte>)
    ensures |r| == 32
  {
    Le64(e.created) + Le64(e.accessed) + Le64(e.written) + Le64(e.changed)
  }

  function Fixed(e: DirEntry, next: nat): (r: seq<byte>)
    ensures |r| == ENTRY_SIZE
  {
    (Le32(next) + Le32(e.index)) + Times(e) + (Le64(e.size) + Le64(e.allocSize))
    + (Le32(e.attr) + Le32(|e.rawName|) + e.rest)
  }

  function EntryBytes(e: DirEntry, next: nat): (r: seq<byte>)
    ensures |r| == EntryLength(e)
  {
    Fixed(e, next) + e.rawName + e.pad
  }

  /** Each entry's first word is the distance to the next one, and zero in the last. */
  function Chain(es: seq<DirEntry>): seq<byte>
  {
    if es == [] then []
    else if |es| == 1 then EntryBytes(es[0], 0)
    else EntryBytes(es[0], EntryLength(es[0])) + Chain(es[1..])
  }

  function StatOf(e: DirEntry, decode: Decoder): FileStat
  {
    FileStat(decode(e.rawName), e.created, e.accessed, e.written, e.changed, e.size, e.allocSize, e.attr)
  }

  /** The files of a list of entries, last entry first. */
  function Reversed(es: seq<DirEntry>, decode: Decoder): seq<FileStat>
  {
    if es == [] then [] else Reversed(es[1..], decode) + [StatOf(es[0], decode)]
  }

  // --- reading back what was laid out -------------------------------------------------------------

  lemma FieldInside(s: seq<byte>, at: nat, part: seq<byte>, off: nat, n: nat, k: nat)
    requires at + |part| <= |s| && s[at..at + |part|] == part
    requires off + k <= |part| && part[off..off + k] == LittleEndian(n, k) && n < Pow256(k)
    ensures Field(s, at + off, k) == n
  {
    hide LittleEndian, FromLittleEndian, Pow256;
    SliceOfSlice(s, at, |part|, off, k);
    LittleEndianRoundTrip(n, k);
    SmallModulus(n, Pow256(k));
  }

  lemma SmallModulus(n: nat, m: nat)
    requires n < m
    ensures n % m == n
  {
  }

  lemma TimesLayout(e: DirEntry)
    ensures Times(e)[0..8] == Le64(e.created) && Times(e)[8..16] == Le64(e.accessed)
    ensures Times(e)[16..24] == Le64(e.written) && Times(e)[24..32] == Le64(e.changed)
  {
    hide Le64;
  }

  lemma FixedLayout(e: DirEntry, next: nat)
    ensures var f := Fixed(e, next);
            && f[0..4] == Le32(next) && f[8..40] == Times(e)
            && f[40..48] == Le64(e.size) && f[48..56] == Le64(e.allocSize)
            && f[56..60] == Le32(e.attr) && f[60..64] == Le32(|e.rawName|)
  {
    hide Le64, Le32, Times;
  }

  lemma Widths()
    ensures Pow256(4) == TWO32 && Pow256(8) == TWO64
  {
  }

  lemma ReadName(s: seq<byte>, at: nat, e: DirEntry, next: nat)
    requires EntryLength(e) < TWO32
    requires at + EntryLength(e) <= |s| && s[at..at + EntryLength(e)] == EntryBytes(e, next)
    ensures EntryInside(s, at) && RawName(s, at) == e.rawName
  {
    hide Fixed, Times, Field;
    var f, b, n := Fixed(e, next), EntryBytes(e, next), ENTRY_SIZE + |e.rawName|;
    assert b[0..ENTRY_SIZE] == f && b[ENTRY_SIZE..n] == e.rawName;
    SliceOfSlice(s, at, |b|, 0, ENTRY_SIZE);
    SliceOfSlice(s, at, |b|, ENTRY_SIZE, |e.rawName|);
    Widths();
    FixedLayout(e, next);
    FieldInside(s, at, f, 60, |e.rawName|, 4);
  }

  lemma ReadEntry(s: seq<byte>, at: nat, e: DirEntry, next: nat, decode: Decoder)
    requires WellFormed(e, decode) && next < TWO32
    requires at + EntryLength(e) <= |s| && s[at..at + EntryLength(e)] == EntryBytes(e, next)
    ensures EntryInside(s, at) && RawName(s, at) == e.rawName && Field(s, at, 4) == next
    ensures StatAt(s, at, decode(e.rawName)) == StatOf(e, decode)
  {
    hide Fixed, Times, Le32, Le64, Field;
    var f := Fixed(e, next);
    var b := EntryBytes(e, next);
    var n := ENTRY_SIZE + |e.rawName|;
    assert b[0..ENTRY_SIZE] == f && b[ENTRY_SIZE..n] == e.rawName;
    SliceOfSlice(s, at, |b|, 0, ENTRY_SIZE);
    SliceOfSlice(s, at, |b|, ENTRY_SIZE, |e.rawName|);
    ReadFixed(s, at, e, next, decode);
  }

  lemma ReadFixed(s: seq<byte>, at: nat, e: DirEntry, next: nat, decode: Decoder)
    requires WellFormed(e, decode) && next < TWO32
    requires at + ENTRY_SIZE <= |s| && s[at..at + ENTRY_SIZE] == Fixed(e, next)
    ensures Field(s, at, 4) == next && Field(s, at + 60, 4) == |e.rawName| && Field(s, at + 56, 4) == e.attr
    ensures Field(s, at + 40, 8) == e.size && Field(s, at + 48, 8) == e.allocSize
    ensures Field(s, at + 8, 8) == e.created && Field(s, at + 16, 8) == e.accessed
    ensures Field(s, at + 24, 8) == e.written && Field(s, at + 32, 8) == e.changed
  {
    hide Fixed, Times, Field;
    Widths();
    FixedLayout(e, next);
    TimesLayout(e);
    var f, t := Fixed(e, next), Times(e);
    FieldInside(s, at, f, 0, next, 4);
    FieldInside(s, at, f, 60, |e.rawName|, 4);
    FieldInside(s, at, f, 56, e.attr, 4);
    FieldInside(s, at, f, 40, e.size, 8);
    FieldInside(s, at, f, 48, e.allocSize, 8);
    assert s[at + 8..at + 8 + |t|] == f[8..40];
    FieldInside(s, at + 8, t, 0, e.created, 8);
    FieldInside(s, at + 8, t, 8, e.accessed, 8);
    FieldInside(s, at + 8, t, 16, e.written, 8);
    FieldInside(s, at + 8, t, 24, e.changed, 8);
  }

  /** Parsing a chain recovers every entry's fields, in reverse order, in front of what was there. */
  lemma {:induction false} ParseChain(s: seq<byte>, at: nat, es: seq<DirEntry>, trailing: seq<byte>,
                                      files: seq<FileStat>, decode: Decoder)
    requires forall e :: e in es ==> WellFormed(e, decode)
    requires at <= |s| && s[at..] == Chain(es) + trailing
    ensures Parse(s, at, |es|, files, decode) == Listed(Reversed(es, decode) + files)
    decreases |es|
  {
    hide Parse, EntryBytes, EntryLength, WellFormed, StatOf, Chain;
    if es == [] {
      assert [] + files == files;
      ParseNone(s, at, files, decode);
    } else {
      var e, next := es[0], if |es| == 1 then 0 else EntryLength(es[0]);
      var n := EntryLength(e);
      ChainHead(s, at, es, trailing);
      ParseOne(s, at, e, next, |es|, files, decode);
      var pushed := [StatOf(e, decode)] + files;
      if |es| == 1 {
        ParseNone(s, at, pushed, decode);
        assert es[1..] == [];
        assert Reversed(es, decode) + files == pushed;
      } else {
        ParseChain(s, at + n, es[1..], trailing, pushed, decode);
        assert Reversed(es[1..], decode) + pushed == Reversed(es, decode) + files;
      }
    }
  }

  lemma ChainHead(s: seq<byte>, at: nat, es: seq<DirEntry>, trailing: seq<byte>)
    requires es != [] && at <= |s| && s[at..] == Chain(es) + trailing
    ensures at + EntryLength(es[0]) <= |s|
    ensures var n := EntryLength(es[0]);
            && s[at..at + n] == EntryBytes(es[0], if |es| == 1 then 0 else n)
            && s[at + n..] == Chain(es[1..]) + trailing
  {
    hide EntryBytes, EntryLength, Chain;
    var n := EntryLength(es[0]);
    var head := EntryBytes(es[0], if |es| == 1 then 0 else n);
    ChainUnfolds(es);
    assert (head + Chain(es[1..])) + trailing == head + (Chain(es[1..]) + trailing);
    SplitAt(s, at, head, Chain(es[1..]) + trailing);
  }

  lemma ChainUnfolds(es: seq<DirEntry>)
    requires es != []
    ensures Chain(es) == EntryBytes(es[0], if |es| == 1 then 0 else EntryLength(es[0])) + Chain(es[1..])
  {
    hide EntryBytes, EntryLength;
  }

  lemma SplitAt(s: seq<byte>, at: nat, head: seq<byte>, tail: seq<byte>)
    requires at <= |s| && s[at..] == head + tail
    ensures at + |head| <= |s| && s[at..at + |head|] == head && s[at + |head|..] == tail
  {
    var t := s[at..];
    assert t[..|head|] == head && t[|head|..] == tail;
    assert s[at..at + |head|] == t[..|head|] && s[at + |head|..] == t[|head|..];
  }

  lemma ParseNone(s: seq<byte>, at: nat, files: seq<FileStat>, decode: Decoder)
    ensures Parse(s, at, 0, files, decode) == Listed(files)
  {
  }

  lemma ParseOne(s: seq<byte>, at: nat, e: DirEntry, next: nat, count: nat, files: seq<FileStat>, decode: Decoder)
    requires WellFormed(e, decode) && (next == 0 || next == EntryLength(e)) && count > 0
    requires at + EntryLength(e) <= |s| && s[at..at + EntryLength(e)] == EntryBytes(e, next)
    ensures Parse(s, at, count, files, decode)
         == Parse(s, at + next, count - 1, [StatOf(e, decode)] + files, decode)
  {
    hide EntryBytes, StatAt, StatOf, RawName, Field;
    ReadEntry(s, at, e, next, decode);
  }

  /** The entries a count makes the parser go through: past the end of the chain, the last one again and again. */
  function Counted(es: seq<DirEntry>, count: nat): (r: seq<DirEntry>)
    requires es != []
    ensures |r| == count
  {
    if count <= |es| then es[..count] else es + seq(count - |es|, _ => es[|es| - 1])
  }

  lemma CountedTail(es: seq<DirEntry>, count: nat)
    requires es != [] && count > 0
    ensures Counted(es, count)[0] == es[0]
    ensures |es| > 1 ==> Counted(es, count)[1..] == Counted(es[1..], count - 1)
    ensures |es| == 1 ==> Counted(es, count)[1..] == Counted(es, count - 1)
  {
  }

  /**
   A chain under any announced count, below or above its length. No entry is repeated exactly if the
   count is at most the number of entries: the last one links to itself.
   */
  lemma {:induction false} ParseCounted(s: seq<byte>, at: nat, es: seq<DirEntry>, trailing: seq<byte>, count: nat,
                                        files: seq<FileStat>, decode: Decoder)
    requires es != [] && forall e :: e in es ==> WellFormed(e, decode)
    requires at <= |s| && s[at..] == Chain(es) + trailing
    ensures Parse(s, at, count, files, decode) == Listed(Reversed(Counted(es, count), decode) + files)
    decreases count
  {
    hide Parse, EntryBytes, EntryLength, WellFormed, StatOf, Chain, Counted;
    if count == 0 {
      ParseNone(s, at, files, decode);
      assert Counted(es, 0) == [] && [] + files == files;
    } else {
      var e, n := es[0], EntryLength(es[0]);
      var next := if |es| == 1 then 0 else n;
      ChainHead(s, at, es, trailing);
      ParseOne(s, at, e, next, count, files, decode);
      CountedTail(es, count);
      var pushed, rest := [StatOf(e, decode)] + files, Counted(es, count)[1..];
      if |es| == 1 {
        ParseCounted(s, at, es, trailing, count - 1, pushed, decode);
      } else {
        ParseCounted(s, at + n, es[1..], trailing, count - 1, pushed, decode);
      }
      assert Reversed(rest, decode) + pushed == Reversed(Counted(es, count), decode) + files;
    }
  }

  /** One entry under a count of two is listed twice. */
  lemma ParseCountedExample(e: DirEntry, decode: Decoder)
    requires WellFormed(e, decode)
    ensures Parse(Chain([e]), 0, 2, [], decode) == Listed([StatOf(e, decode), StatOf(e, decode)])
  {
    hide Parse, Chain, WellFormed, StatOf;
    var s := Chain([e]);
    assert s[0..] == s + [];
    ParseCounted(s, 0, [e], [], 2, [], decode);
    assert Counted([e], 2) == [e, e] && [e, e][1..] == [e] && [e][1..] == [];
    assert Reversed([], decode) == [] && Reversed([e], decode) == [StatOf(e, decode)];
    assert Reversed([e, e], decode) == [StatOf(e, decode), StatOf(e, decode)];
  }

  /** An entry whose name cannot be converted ends the page; the entries before it stay. */
  lemma {:induction false} ParseStopsAtBadName(s: seq<byte>, at: nat, es: seq<DirEntry>, bad: DirEntry, behind: seq<DirEntry>,
                                               trailing: seq<byte>, count: nat, files: seq<FileStat>, decode: Decoder)
    requires forall e :: e in es ==> WellFormed(e, decode)
    requires EntryLength(bad) < TWO32 && decode(bad.rawName) == [] && count > |es|
    requires at <= |s| && s[at..] == Chain(es + [bad] + behind) + trailing
    ensures Parse(s, at, count, files, decode) == Listed(Reversed(es, decode) + files)
    decreases |es|
  {
    hide Parse, EntryBytes, EntryLength, WellFormed, StatOf, Chain;
    var all := es + [bad] + behind;
    ChainHead(s, at, all, trailing);
    var next := if |all| == 1 then 0 else EntryLength(all[0]);
    if es == [] {
      assert [] + files == files && all[0] == bad;
      ParseBad(s, at, bad, next, count, files, decode);
    } else {
      var e, n := es[0], EntryLength(es[0]);
      assert all[0] == e && all[1..] == es[1..] + [bad] + behind;
      ParseOne(s, at, e, next, count, files, decode);
      var pushed := [StatOf(e, decode)] + files;
      ParseStopsAtBadName(s, at + n, es[1..], bad, behind, trailing, count - 1, pushed, decode);
      assert Reversed(es[1..], decode) + pushed == Reversed(es, decode) + files;
    }
  }

  lemma ParseBad(s: seq<byte>, at: nat, e: DirEntry, next: nat, count: nat, files: seq<FileStat>, decode: Decoder)
    requires EntryLength(e) < TWO32 && decode(e.rawName) == [] && count > 0 && next < TWO32
    requires at + EntryLength(e) <= |s| && s[at..at + EntryLength(e)] == EntryBytes(e, next)
    ensures Parse(s, at, count, files, decode) == Listed(files)
  {
    hide Fixed, StatAt, Field, RawName, EntryBytes;
    ReadName(s, at, e, next);
  }

  // --- paging -------------------------------------------------------------------------------------

  /** `NoList` is the null pointer: a request failed, or the first page held no entry. */
  datatype FindResult = NoList | List(files: seq<FileStat>) | PastEnd

  /** The FIND_NEXT loop, for the replies still to come; an empty reply is a failed request. */
  function FindMore(pages: seq<seq<byte>>, done: bool, files: seq<FileStat>, decode: Decoder): FindResult
    decreases |pages|
  {
    if done then List(files)
    else if pages == [] || pages[0] == [] then NoList
    else
      var p := pages[0];
      if |p| < RESP_SIZE + NEXT_PARAMS then PastEnd
      else
        var done' := Field(p, RESP_SIZE + 2, 2) != 0 || Field(p, RESP_SIZE + 4, 2) != 0;
        match Parse(p, RESP_SIZE + NEXT_PARAMS, Field(p, RESP_SIZE, 2), files, decode)
        case ReadPastEnd => PastEnd
        case Listed(files') => FindMore(pages[1..], done', files', decode)
  }

  /** The whole search, for the reassembled replies to FIND_FIRST and to each FIND_NEXT. */
  function FindPages(pages: seq<seq<byte>>, decode: Decoder): FindResult
  {
    if pages == [] || pages[0] == [] then NoList
    else if |pages[0]| < RESP_SIZE + FIRST_PARAMS then PastEnd
    else
      var p := pages[0];
      var done := Field(p, RESP_SIZE + 4, 2) != 0 || Field(p, RESP_SIZE + 6, 2) != 0;
      match Parse(p, RESP_SIZE + FIRST_PARAMS, Field(p, RESP_SIZE + 2, 2), [], decode)
      case ReadPastEnd => PastEnd
      case Listed(files) => if files == [] then NoList else FindMore(pages[1..], done, files, decode)
  }

  type RespHeader = s: seq<byte> | |s| == RESP_SIZE witness Fill(0, 24)

  /** One page of a listing, as the server sends it without error. */
  datatype Page = Page(header: RespHeader, sid: nat, lastName: nat, entries: seq<DirEntry>, trailing: seq<byte>)

  predicate WellFormedPage(pg: Page, decode: Decoder)
  {
    |pg.entries| < 0x1_0000 && forall e :: e in pg.entries ==> WellFormed(e, decode)
  }

  function FirstParams(pg: Page, last: bool): (r: seq<byte>)
    ensures |r| == FIRST_PARAMS
  {
    Le16(pg.sid) + Le16(|pg.entries|) + Le16(if last then 1 else 0) + Le16(0) + Le16(pg.lastName) + Le16(0)
  }

  function NextParams(pg: Page, last: bool): (r: seq<byte>)
    ensures |r| == NEXT_PARAMS
  {
    Le16(|pg.entries|) + Le16(if last then 1 else 0) + Le16(0) + Le16(pg.lastName)
  }

  function PageBytes(pg: Page, params: seq<byte>): seq<byte>
  {
    pg.header + params + (Chain(pg.entries) + pg.trailing)
  }

  /** The replies to FIND_NEXT; only the last one says that the search has ended. */
  function NextPages(pages: seq<Page>): seq<seq<byte>>
  {
    if pages == [] then []
    else [PageBytes(pages[0], NextParams(pages[0], |pages| == 1))] + NextPages(pages[1..])
  }

  function AllEntries(pages: seq<Page>): seq<DirEntry>
  {
    if pages == [] then [] else pages[0].entries + AllEntries(pages[1..])
  }

  lemma {:induction false} ReversedConcat(a: seq<DirEntry>, b: seq<DirEntry>, decode: Decoder)
    ensures Reversed(a + b, decode) == Reversed(b, decode) + Reversed(a, decode)
  {
    hide StatOf;
    if a == [] {
      assert a + b == b;
    } else {
      ReversedConcat(a[1..], b, decode);
      assert (a + b)[1..] == a[1..] + b;
    }
  }

  lemma ParamField(pg: Page, params: seq<byte>, off: nat, n: nat)
    requires off + 2 <= |params| && params[off..off + 2] == Le16(n) && n < 0x1_0000
    ensures var p := PageBytes(pg, params);
            RESP_SIZE + |params| <= |p| && Field(p, RESP_SIZE + off, 2) == n
            && p[RESP_SIZE + |params|..] == Chain(pg.entries) + pg.trailing
  {
    hide Chain;
    var p := PageBytes(pg, params);
    assert Pow256(2) == 0x1_0000;
    assert p[RESP_SIZE..RESP_SIZE + |params|] == params;
    FieldInside(p, RESP_SIZE, params, off, n, 2);
  }

  lemma NextParamsLayout(pg: Page, last: bool)
    ensures var p := NextParams(pg, last);
            p[0..2] == Le16(|pg.entries|) && p[2..4] == Le16(if last then 1 else 0) && p[4..6] == Le16(0)
  {
    hide Le16;
  }

  lemma FirstParamsLayout(pg: Page, last: bool)
    ensures var p := FirstParams(pg, last);
            p[2..4] == Le16(|pg.entries|) && p[4..6] == Le16(if last then 1 else 0) && p[6..8] == Le16(0)
  {
    hide Le16;
  }

  lemma NextPageReads(pg: Page, last: bool, files: seq<FileStat>, decode: Decoder)
    requires WellFormedPage(pg, decode)
    ensures var p := PageBytes(pg, NextParams(pg, last));
            && |p| >= RESP_SIZE + NEXT_PARAMS
            && Field(p, RESP_SIZE + 2, 2) == (if last then 1 else 0) && Field(p, RESP_SIZE + 4, 2) == 0
            && Parse(p, RESP_SIZE + NEXT_PARAMS, Field(p, RESP_SIZE, 2), files, decode)
               == Listed(Reversed(pg.entries, decode) + files)
  {
    hide Parse, PageBytes, Le16, Chain, Field, NextParams;
    var params := NextParams(pg, last);
    NextParamsLayout(pg, last);
    ParamField(pg, params, 0, |pg.entries|);
    ParamField(pg, params, 2, if last then 1 else 0);
    ParamField(pg, params, 4, 0);
    ParseChain(PageBytes(pg, params), RESP_SIZE + NEXT_PARAMS, pg.entries, pg.trailing, files, decode);
  }

  lemma FirstPageReads(pg: Page, last: bool, decode: Decoder)
    requires WellFormedPage(pg, decode)
    ensures var p := PageBytes(pg, FirstParams(pg, last));
            && |p| >= RESP_SIZE + FIRST_PARAMS
            && Field(p, RESP_SIZE + 4, 2) == (if last then 1 else 0) && Field(p, RESP_SIZE + 6, 2) == 0
            && Parse(p, RESP_SIZE + FIRST_PARAMS, Field(p, RESP_SIZE + 2, 2), [], decode)
               == Listed(Reversed(pg.entries, decode))
  {
    hide Parse, PageBytes, Le16, Chain, Field, FirstParams;
    var params := FirstParams(pg, last);
    FirstParamsLayout(pg, last);
    ParamField(pg, params, 2, |pg.entries|);
    ParamField(pg, params, 4, if last then 1 else 0);
    ParamField(pg, params, 6, 0);
    ParseChain(PageBytes(pg, params), RESP_SIZE + FIRST_PARAMS, pg.entries, pg.trailing, [], decode);
    assert Reversed(pg.entries, decode) + [] == Reversed(pg.entries, decode);
  }

  /** The loop goes through all pages and stops at the last; nothing is lost or repeated. */
  lemma {:induction false} FindMoreListsAll(pages: seq<Page>, files: seq<FileStat>, decode: Decoder)
    requires forall pg :: pg in pages ==> WellFormedPage(pg, decode)
    ensures FindMore(NextPages(pages), pages == [], files, decode)
         == List(Reversed(AllEntries(pages), decode) + files)
    decreases |pages|
  {
    hide FindMore, NextPages, WellFormedPage, StatOf;
    if pages == [] {
      assert [] + files == files;
      FindMoreDone(NextPages(pages), files, decode);
    } else {
      var pg, rest := pages[0], pages[1..];
      var files' := Reversed(pg.entries, decode) + files;
      FindMoreStep(pages, files, decode);
      FindMoreListsAll(rest, files', decode);
      ReversedConcat(pg.entries, AllEntries(rest), decode);
      assert Reversed(AllEntries(rest), decode) + files' == Reversed(AllEntries(pages), decode) + files;
    }
  }

  lemma FindMoreDone(pages: seq<seq<byte>>, files: seq<FileStat>, decode: Decoder)
    ensures FindMore(pages, true, files, decode) == List(files)
  {
  }

  lemma FindMoreStep(pages: seq<Page>, files: seq<FileStat>, decode: Decoder)
    requires pages != [] && WellFormedPage(pages[0], decode)
    ensures FindMore(NextPages(pages), false, files, decode)
         == FindMore(NextPages(pages[1..]), pages[1..] == [], Reversed(pages[0].entries, decode) + files, decode)
  {
    hide PageBytes, NextParams, Field, Parse, Reversed;
    NextPageReads(pages[0], |pages| == 1, files, decode);
    assert NextPages(pages)[1..] == NextPages(pages[1..]);
  }

  /** The replies to FIND_NEXT while more are to come. */
  function OpenPages(pages: seq<Page>): seq<seq<byte>>
  {
    if pages == [] then [] else [PageBytes(pages[0], NextParams(pages[0], false))] + OpenPages(pages[1..])
  }

  /** A request that fails, or is never answered, before the server has ended the search loses the whole listing. */
  lemma {:induction false} FailureLosesListing(pages: seq<Page>, more: seq<seq<byte>>, files: seq<FileStat>, decode: Decoder)
    requires forall pg :: pg in pages ==> WellFormedPage(pg, decode)
    requires more == [] || more[0] == []
    ensures FindMore(OpenPages(pages) + more, false, files, decode) == NoList
    decreases |pages|
  {
    hide Reversed, WellFormedPage, FindMore;
    if pages == [] {
      assert OpenPages(pages) + more == more;
      FindMoreFails(more, files, decode);
    } else {
      OpenPageStep(pages, more, files, decode);
      FailureLosesListing(pages[1..], more, Reversed(pages[0].entries, decode) + files, decode);
    }
  }

  lemma FindMoreFails(more: seq<seq<byte>>, files: seq<FileStat>, decode: Decoder)
    requires more == [] || more[0] == []
    ensures FindMore(more, false, files, decode) == NoList
  {
  }

  lemma OpenPageStep(pages: seq<Page>, more: seq<seq<byte>>, files: seq<FileStat>, decode: Decoder)
    requires pages != [] && WellFormedPage(pages[0], decode)
    ensures FindMore(OpenPages(pages) + more, false, files, decode)
         == FindMore(OpenPages(pages[1..]) + more, false, Reversed(pages[0].entries, decode) + files, decode)
  {
    hide PageBytes, NextParams, Field, Parse, Reversed;
    NextPageReads(pages[0], false, files, decode);
    assert (OpenPages(pages) + more)[1..] == OpenPages(pages[1..]) + more;
  }

  /**
   The search over any number of well-formed pages: the complete listing, last entry first, exactly
   if the first page holds an entry; otherwise no listing at all, whatever the later pages hold.
   */
  lemma FindPagesListsAll(first: Page, pages: seq<Page>, decode: Decoder)
    requires WellFormedPage(first, decode) && forall pg :: pg in pages ==> WellFormedPage(pg, decode)
    ensures FindPages([PageBytes(first, FirstParams(first, pages == []))] + NextPages(pages), decode)
         == if first.entries == [] then NoList else List(Reversed(first.entries + AllEntries(pages), decode))
  {
    hide PageBytes, FirstParams, Field, Parse, FindMore, WellFormedPage;
    var p := PageBytes(first, FirstParams(first, pages == []));
    FirstPageReads(first, pages == [], decode);
    assert ([p] + NextPages(pages))[1..] == NextPages(pages);
    FindMoreListsAll(pages, Reversed(first.entries, decode), decode);
    ReversedConcat(first.entries, AllEntries(pages), decode);
    ReversedEmpty(first.entries, decode);
  }

  /** An empty first page and an entry on the second: no listing, where there should be one file. */
  lemma FindPagesExample(first: Page, second: Page, decode: Decoder)
    requires WellFormedPage(first, decode) && WellFormedPage(second, decode)
    requires first.entries == [] && |second.entries| == 1
    ensures FindPages([PageBytes(first, FirstParams(first, false))] + NextPages([second]), decode) == NoList
    ensures Reversed(first.entries + AllEntries([second]), decode) == [StatOf(second.entries[0], decode)]
  {
    hide FindPages, PageBytes, FirstParams, NextPages, WellFormedPage, StatOf;
    FindPagesListsAll(first, [second], decode);
    assert [second][1..] == [] && AllEntries([]) == [];
    assert first.entries + AllEntries([second]) == second.entries;
    assert second.entries[1..] == [] && Reversed([], decode) == [];
  }

  /** Such pages exist: one entry named by a single octet that stands for itself. */
  lemma FindPagesExampleExists()
    ensures var decode: Decoder := s => s;
            var e := DirEntry(0, 0, 0, 0, 0, 0, 0, 0, Fill(0, 30), [65], []);
            && WellFormedPage(Page(Fill(0, 24), 0, 0, [], []), decode)
            && WellFormedPage(Page(Fill(0, 24), 0, 0, [e], []), decode)
  {
  }

  lemma ReversedEmpty(es: seq<DirEntry>, decode: Decoder)
    ensures Reversed(es, decode) == [] <==> es == []
  {
  }

  // --- over the wire --------------------------------------------------------------------------------

  /** The replies of one request are taken in whole: the buffer never grew and was filled exactly. */
  predicate Exact(c: Collected)
  {
    !c.grew && |c.written| == c.payloadSize
  }

  /** The messages still to be taken once the request whose reply begins here has been answered. */
  function AfterPage(pending: seq<seq<byte>>): (rest: seq<seq<byte>>)
    requires pending != []
    ensures |rest| < |pending|
  {
    if !HasHeader(pending[0]) then pending[1..]
    else pending[1..][Taken(Remaining(pending[0]), pending[1..])..]
  }

  /** Messages that make up a sequence of complete replies; an empty message is a failed request. */
  predicate Complete(pending: seq<seq<byte>>)
    decreases |pending|
  {
    || pending == []
    || (Receivable(pending)
        && (pending[0] != [] ==> Started(pending) && Exact(Reassemble(pending))
                                 && !ReadsBehind(Remaining(pending[0]), pending[1..]))
        && Complete(AfterPage(pending)))
  }

  /** The replies they make up. */
  function PagesOf(pending: seq<seq<byte>>): seq<seq<byte>>
    requires Complete(pending)
    decreases |pending|
  {
    if pending == [] then []
    else [if pending[0] == [] then [] else Reassemble(pending).written] + PagesOf(AfterPage(pending))
  }

  /** One request: its reply as a reassembled payload, or nothing; `past` as in `Tr2Recv`. */
  method ReceivePage(s: Replies) returns (p: seq<byte>, past: bool)
    requires Receivable(s.pending)
    modifies s
    ensures Receivable(s.pending) && (|s.pending| < |old(s.pending)| || (s.pending == old(s.pending) == [] && p == []))
    ensures Complete(old(s.pending)) ==> !past && Complete(s.pending)
    ensures Complete(old(s.pending)) && old(s.pending) != [] ==> [p] + PagesOf(s.pending) == PagesOf(old(s.pending))
  {
    hide Reassemble, Taken, ReadsBehind, Count16;
    if s.pending == [] { return [], false; }
    ghost var pending := s.pending;
    var msg, dropped;
    msg, dropped, past := Tr2Recv(s);
    assert forall q :: q in s.pending ==> q in pending;
    if msg == null { return [], past; }
    p := msg.payload[..msg.payloadSize];
  }

  /**
   `smb_find`: FIND_FIRST, then FIND_NEXT until the server ends the search or reports an error. For
   a reply cut off in the middle the code goes on with memory it has not filled.
   */
  method Find(s: Replies, decode: Decoder) returns (r: FindResult)
    requires Receivable(s.pending)
    modifies s
    ensures Complete(old(s.pending)) ==> r == FindPages(PagesOf(old(s.pending)), decode)
  {
    hide Field, Parse, Complete, PagesOf;
    ghost var complete := Complete(s.pending);
    ghost var goal := if complete then FindPages(PagesOf(s.pending), decode) else NoList;
    PagesOfNone();
    var p, past := ReceivePage(s);
    if past { return PastEnd; }
    if p == [] { return NoList; }
    if |p| < RESP_SIZE + FIRST_PARAMS { return PastEnd; }
    var parsed := ParseEntries(p, RESP_SIZE + FIRST_PARAMS, Field(p, RESP_SIZE + 2, 2), [], decode);
    if parsed.ReadPastEnd? { return PastEnd; }
    var files := parsed.files;
    if files == [] { return NoList; }
    var endOfSearch, error := Field(p, RESP_SIZE + 4, 2), Field(p, RESP_SIZE + 6, 2);
    while endOfSearch == 0 && error == 0
      invariant Receivable(s.pending) && (complete ==> Complete(s.pending))
      invariant complete ==> FindMore(PagesOf(s.pending), endOfSearch != 0 || error != 0, files, decode) == goal
      decreases |s.pending|, endOfSearch == 0
    {
      ghost var before := s.pending;
      p, past := ReceivePage(s);
      if past { return PastEnd; }
      if p == [] { return NoList; }
      if |p| < RESP_SIZE + NEXT_PARAMS { return PastEnd; }
      endOfSearch, error := Field(p, RESP_SIZE + 2, 2), Field(p, RESP_SIZE + 4, 2);
      parsed := ParseEntries(p, RESP_SIZE + NEXT_PARAMS, Field(p, RESP_SIZE, 2), files, decode);
      assert complete ==> PagesOf(before)[0] == p && PagesOf(before)[1..] == PagesOf(s.pending);
      if parsed.ReadPastEnd? { return PastEnd; }
      files := parsed.files;
    }
    r := List(files);
  }

  lemma PagesOfNone()
    ensures Complete([]) && PagesOf([]) == []
  {
  }

  /** One reply cut into messages: a first one, and fragments that continue its data. */
  datatype Split = Split(first: seq<byte>, fragments: seq<seq<byte>>)

  predicate WellSplit(sp: Split)
  {
    && |sp.first| < 0x2_0000 && HasHeader(sp.first) && Receivable(sp.fragments)
    && Displacement(sp.first) == 0 && InOrder(sp.fragments, DataCount(sp.first), TotalCount(sp.first))
  }

  function Joined(sp: Split): seq<byte>
    requires WellSplit(sp)
  {
    sp.first + AllData(sp.fragments)
  }

  function Messages(splits: seq<Split>): seq<seq<byte>>
  {
    if splits == [] then [] else [splits[0].first] + (splits[0].fragments + Messages(splits[1..]))
  }

  function AllJoined(splits: seq<Split>): seq<seq<byte>>
    requires forall sp :: sp in splits ==> WellSplit(sp)
  {
    if splits == [] then [] else [Joined(splits[0])] + AllJoined(splits[1..])
  }

  lemma {:induction false} MessagesReceivable(splits: seq<Split>)
    requires forall sp :: sp in splits ==> WellSplit(sp)
    ensures Receivable(Messages(splits))
    decreases |splits|
  {
    hide WellSized;
    if splits != [] {
      var sp := splits[0];
      MessagesReceivable(splits[1..]);
      assert WellSplit(sp);
      ReceivableJoin(sp.fragments, Messages(splits[1..]));
      ReceivableJoin([sp.first], sp.fragments + Messages(splits[1..]));
    }
  }

  lemma ReceivableJoin(a: seq<seq<byte>>, b: seq<seq<byte>>)
    requires Receivable(a) && Receivable(b)
    ensures Receivable(a + b)
  {
  }

  /** However each reply was cut, the messages make up the replies again. */
  lemma {:induction false} SplitsComplete(splits: seq<Split>)
    requires forall sp :: sp in splits ==> WellSplit(sp)
    ensures Complete(Messages(splits)) && PagesOf(Messages(splits)) == AllJoined(splits)
    decreases |splits|
  {
    hide Reassemble, InOrder, Taken, Started, Receivable, AllData, ReadsBehind;
    if splits != [] {
      var sp, rest := splits[0], Messages(splits[1..]);
      SplitsComplete(splits[1..]);
      MessagesReceivable(splits);
      assert WellSplit(sp);
      ReassemblyIsExact(sp.first, sp.fragments, rest);
      var pending := Messages(splits);
      assert pending[0] == sp.first && pending[1..] == sp.fragments + rest;
      assert AfterPage(pending) == rest;
    }
  }

  /** Messages that make up the pages of a listing, however they were cut. */
  method FindOverSplits(s: Replies, first: Page, pages: seq<Page>, splits: seq<Split>, decode: Decoder) returns (r: FindResult)
    requires WellFormedPage(first, decode) && forall pg :: pg in pages ==> WellFormedPage(pg, decode)
    requires forall sp :: sp in splits ==> WellSplit(sp)
    requires AllJoined(splits) == [PageBytes(first, FirstParams(first, pages == []))] + NextPages(pages)
    requires s.pending == Messages(splits)
    modifies s
    ensures r == if first.entries == [] then NoList else List(Reversed(first.entries + AllEntries(pages), decode))
  {
    hide FindPages, PageBytes, FirstParams, NextPages, WellFormedPage, Messages, AllJoined, WellSplit;
    SplitsComplete(splits);
    FindPagesListsAll(first, pages, decode);
    r := Find(s, decode);
  }

  // --- pages laid out in messages -------------------------------------------------------------------

  /** A page cut into a first message and fragments: which part of its data each of them carries. */
  datatype Cut = Cut(fields: Fields, data: seq<byte>, later: seq<Fragment>)

  function SplitOf(c: Cut, params: seq<byte>): Split
  {
    Split(OpeningBytes(Opening(c.fields, params, c.data)), AllBytes(c.later))
  }

  /** The page of entries whose messages begin with the given fields. */
  predicate CutsPage(c: Cut, pg: Page, params: seq<byte>)
  {
    && pg.header == FieldsBytes(c.fields) && c.data + JoinedData(c.later) == Chain(pg.entries) + pg.trailing
    && Opens(Opening(c.fields, params, c.data), c.later) && Receivable(AllBytes(c.later))
  }

  lemma CutIsSplit(c: Cut, pg: Page, params: seq<byte>)
    requires CutsPage(c, pg, params)
    ensures WellSplit(SplitOf(c, params)) && Joined(SplitOf(c, params)) == PageBytes(pg, params)
  {
    hide FieldsBytes, Chain, InOrder, AllData, DataCount, TotalCount, Displacement, Receivable, Follow;
    FollowIsInOrder(c.later, |c.data|, c.fields.totalData);
    FieldsRead(c.fields, params + c.data);
    assert (FieldsBytes(c.fields) + (params + c.data)) + JoinedData(c.later)
        == FieldsBytes(c.fields) + params + (c.data + JoinedData(c.later));
  }

  predicate CutsPages(cuts: seq<Cut>, pages: seq<Page>)
  {
    if pages == [] then cuts == []
    else cuts != [] && CutsPage(cuts[0], pages[0], NextParams(pages[0], |pages| == 1)) && CutsPages(cuts[1..], pages[1..])
  }

  function NextSplits(cuts: seq<Cut>, pages: seq<Page>): seq<Split>
    requires CutsPages(cuts, pages)
    decreases |pages|
  {
    if pages == [] then []
    else [SplitOf(cuts[0], NextParams(pages[0], |pages| == 1))] + NextSplits(cuts[1..], pages[1..])
  }

  lemma {:induction false} CutsAreSplits(cuts: seq<Cut>, pages: seq<Page>)
    requires CutsPages(cuts, pages)
    ensures forall sp :: sp in NextSplits(cuts, pages) ==> WellSplit(sp)
    ensures AllJoined(NextSplits(cuts, pages)) == NextPages(pages)
    decreases |pages|
  {
    hide CutsPage, SplitOf, WellSplit, PageBytes, NextParams, Joined;
    if pages != [] {
      CutsAreSplits(cuts[1..], pages[1..]);
      CutIsSplit(cuts[0], pages[0], NextParams(pages[0], |pages| == 1));
      assert NextSplits(cuts, pages)[1..] == NextSplits(cuts[1..], pages[1..]);
    }
  }

  /**
   From the messages on the wire to the list of files. Any number of pages, each laid out in a first
   message and any number of fragments displaced by the data before them, yields every entry of
   every page once, last entry first.
   */
  method FindLists(s: Replies, first: Page, firstCut: Cut, pages: seq<Page>, cuts: seq<Cut>, decode: Decoder)
      returns (r: FindResult)
    requires WellFormedPage(first, decode) && forall pg :: pg in pages ==> WellFormedPage(pg, decode)
    requires CutsPage(firstCut, first, FirstParams(first, pages == [])) && CutsPages(cuts, pages)
    requires s.pending == Messages([SplitOf(firstCut, FirstParams(first, pages == []))] + NextSplits(cuts, pages))
    modifies s
    ensures r == if first.entries == [] then NoList else List(Reversed(first.entries + AllEntries(pages), decode))
  {
    hide PageBytes, FirstParams, NextPages, WellFormedPage, Messages, WellSplit, SplitOf, CutsPage, CutsPages, NextSplits, Joined;
    var params, splits := FirstParams(first, pages == []), NextSplits(cuts, pages);
    CutIsSplit(firstCut, first, params);
    CutsAreSplits(cuts, pages);
    assert ([SplitOf(firstCut, params)] + splits)[1..] == splits;
    r := FindOverSplits(s, first, pages, [SplitOf(firstCut, params)] + splits, decode);
  }
}
