/** Host writes that touch two pages: unlike one-page writes, they can fill a flash cache with any
    number of blocks. */
module WideWrites {
  import opened FlashCache
  import opened Cleaning

  datatype HostWrite = HostWrite(lba: nat, sectors: nat)

  predicate NotEmpty(writes: seq<HostWrite>)
  {
    forall i :: 0 <= i < |writes| ==> writes[i].sectors >= 1
  }

  /** A run of host writes, up to the first that fails. */
  function RunWrites(s: State, sectorPerPage: nat, writes: seq<HostWrite>): Outcome
    requires Ready(s) == true && sectorPerPage > 0 && NotEmpty(writes)
    decreases |writes|
  {
    if writes == [] then Done(s)
    else
      SectorWriteKeeps(s, sectorPerPage, writes[0].lba, writes[0].sectors);
      var o := SectorWrite(s, sectorPerPage, writes[0].lba, writes[0].sectors);
      if o.Done? then RunWrites(o.state, sectorPerPage, writes[1..]) else o
  }

  // ---------- live pages ----------

  /** The number of home pages in the cache. */
  ghost function Live(s: State): nat
  {
    Count(s.link)
  }

  lemma {:induction false} SumAtMost(blocks: seq<Block>, size: nat)
    requires forall b {:trigger blocks[b]} | 0 <= b < |blocks| :: blocks[b].valid <= size
    ensures SumValid(blocks) <= size * |blocks|
  {
    if blocks != [] {
      SumAtMost(blocks[..|blocks| - 1], size);
      TimesNext(size, |blocks| - 1);
    }
  }

  /** There is one cache page for each. */
  lemma LiveFits(s: State)
    requires Core(s)
    ensures Live(s) <= s.pageCount * |s.blocks|
  {
    forall b | 0 <= b < |s.blocks| ensures s.blocks[b].valid <= s.pageCount {
      CountZero(s.blocks[b].pages);
    }
    SumAtMost(s.blocks, s.pageCount);
  }

  /** Nothing that was not live before is live after. */
  ghost predicate NoMoreLive(before: seq<int>, after: seq<int>)
  {
    |after| == |before| && forall h :: 0 <= h < |before| && before[h] == INVALID_HPAGE ==> after[h] == INVALID_HPAGE
  }

  /** At most one page of a range is in the cache. */
  ghost predicate OneAtMost(link: seq<int>, at: int, count: int)
    requires 0 <= at && at + count <= |link|
  {
    forall g, h :: at <= g < at + count && at <= h < at + count && link[g] != INVALID_HPAGE && link[h] != INVALID_HPAGE
      ==> g == h
  }

  lemma {:induction false} CleanNothing(s: State, at: int, count: nat)
    requires Good(s) == true && 0 <= at && at + count <= |s.link|
    requires forall h :: at <= h < at + count ==> s.link[h] == INVALID_HPAGE
    ensures CleanPages(s, at, count).link == s.link
    decreases count
  {
    hide CleanPage, Inverse, Counted, Lists, Fills;
    if count > 0 {
      CleanPageLink(s, at);
      CleanNothing(CleanPage(s, at), at + 1, count - 1);
    }
  }

  lemma {:induction false} CleanAtMostOne(s: State, at: int, count: nat)
    requires Good(s) == true && 0 <= at && at + count <= |s.link| && OneAtMost(s.link, at, count)
    ensures NoMoreLive(s.link, CleanPages(s, at, count).link) && Live(CleanPages(s, at, count)) >= Live(s) - 1
    decreases count
  {
    hide Good, CleanPage;
    if count > 0 {
      CleanPageLink(s, at);
      var s1 := CleanPage(s, at);
      assert CleanPages(s, at, count) == CleanPages(s1, at + 1, count - 1);
      if s.link[at] == INVALID_HPAGE {
        assert s1.link == s.link;
        CleanAtMostOne(s1, at + 1, count - 1);
      } else {
        CountUpdate(s.link, at, INVALID_HPAGE);
        CleanNothing(s1, at + 1, count - 1);
      }
    }
  }

  // ---------- one write on either side of a border ----------

  /** No home block has two pages in the cache, and from home block `blocks` on none has any. */
  ghost predicate Sparse(s: State, blocks: nat)
  {
    && s.pageCount > 0
    && (forall h | 0 <= h < |s.link| && s.link[h] != INVALID_HPAGE :: h / s.pageCount < blocks)
    && (forall g, h | 0 <= g < |s.link| && 0 <= h < |s.link| && s.link[g] != INVALID_HPAGE
          && s.link[h] != INVALID_HPAGE && g / s.pageCount == h / s.pageCount :: g == h)
  }

  lemma SparseStays(s: State, s': State, blocks: nat)
    requires s.pageCount == s'.pageCount && NoMoreLive(s.link, s'.link) && Sparse(s, blocks)
    ensures Sparse(s', blocks)
  {
  }

  lemma SameHomeBlock(at: int, size: int, h: int)
    requires size > 0 && at <= h < at - at % size + size
    ensures h / size == at / size
  {
    DivModUnique(h, at / size, h - at + at % size, size);
  }

  /** Cleaning takes away at most one live page. */
  lemma CleanedSparse(s: State, blocks: nat)
    requires Good(s) && CleaningOk(s) && Fresh(s) && Sparse(s, blocks)
    ensures Sparse(Cleaned(s), blocks) && Live(Cleaned(s)) >= Live(s) - 1
  {
    hide CleanPages, FindHblockToClean, Inverse, Counted, Lists, Fills;
    CleanInRange(s);
    if TaskFor(s) != CleanNon {
      var at, count := CleanStart(s), CleanCount(s);
      forall h | at <= h < at + count ensures h / s.pageCount == at / s.pageCount {
        SameHomeBlock(at, s.pageCount, h);
      }
      CleanAtMostOne(s, at, count);
      CleanPagesKeep(s, at, count);
      SparseStays(s, CleanPages(s, at, count), blocks);
    }
  }

  /** A page that is written first counts. */
  lemma WritePageLive(s: State, h: int, blocks: nat)
    requires Good(s) == true && 0 <= h < |s.link| && WritePage(s, h).Done?
    requires Sparse(s, blocks) && h / s.pageCount == blocks
    ensures Alike(s, WritePage(s, h).state) == true
    ensures Sparse(WritePage(s, h).state, blocks + 1) && Live(WritePage(s, h).state) == Live(s) + 1
  {
    hide WritePage, Core;
    WritePageLink(s, h);
    var link := WritePage(s, h).state.link;
    assert s.link[h] == INVALID_HPAGE;
    CountUpdate(s.link, h, link[h]);
    forall g | 0 <= g < |link| && g != h ensures link[g] == s.link[g] {
    }
  }

  lemma WriteTwo(s: State, h: int)
    requires Good(s) == true && 0 <= h && h + 1 < |s.link|
    ensures WritePage(s, h).Done? ==> Good(WritePage(s, h).state) && |WritePage(s, h).state.link| == |s.link|
    ensures WritePages(s, h, 2) ==
      if WritePage(s, h).Done? then WritePage(WritePage(s, h).state, h + 1) else WritePage(s, h)
  {
    hide WritePage;
    WritePageKeeps(s, h);
    if WritePage(s, h).Done? {
      WritePagesOne(WritePage(s, h).state, h + 1);
    }
  }

  /** The border between an even home block and the next one. */
  function Border(pageCount: nat, pair: nat): nat
  {
    pageCount * (2 * pair + 1)
  }

  lemma BorderBlocks(pageCount: nat, pair: nat, homeBlocks: nat)
    requires pageCount > 0 && 2 * pair + 1 < homeBlocks
    ensures 0 <= Border(pageCount, pair) - 1 && Border(pageCount, pair) < pageCount * homeBlocks
    ensures (Border(pageCount, pair) - 1) / pageCount == 2 * pair
    ensures Border(pageCount, pair) / pageCount == 2 * pair + 1
  {
    TimesNext(pageCount, 2 * pair);
    TimesAtLeast(pageCount, homeBlocks, 2 * pair + 2);
    TimesNext(pageCount, 2 * pair + 1);
    DivModUnique(Border(pageCount, pair) - 1, 2 * pair, pageCount - 1, pageCount);
    DivModUnique(Border(pageCount, pair), 2 * pair + 1, 0, pageCount);
  }

  /** The two sectors next to that border. */
  function AcrossBorder(pageCount: nat, sectorPerPage: nat, pair: nat): HostWrite
    requires pageCount > 0 && sectorPerPage > 0
  {
    TimesAtLeast(sectorPerPage, Border(pageCount, pair), 1);
    HostWrite(sectorPerPage * Border(pageCount, pair) - 1, 2)
  }

  lemma AcrossPages(pageCount: nat, sectorPerPage: nat, pair: nat)
    requires pageCount > 0 && sectorPerPage > 0
    ensures var w := AcrossBorder(pageCount, sectorPerPage, pair);
      && w.lba / sectorPerPage == Border(pageCount, pair) - 1
      && (w.lba + w.sectors - 1) / sectorPerPage == Border(pageCount, pair)
  {
    var border := Border(pageCount, pair);
    TimesNext(sectorPerPage, border - 1);
    DivModUnique(sectorPerPage * border - 1, border - 1, sectorPerPage - 1, sectorPerPage);
    DivModUnique(sectorPerPage * border, border, 0, sectorPerPage);
  }

  ghost predicate StepMade(s: State, s': State, pair: nat)
  {
    Ready(s') && SameGeometry(s, s') && Sparse(s', 2 * (pair + 1)) && Live(s') >= Live(s) + 1
  }

  lemma AcrossIs(s: State, sectorPerPage: nat, pair: nat)
    requires Ready(s) == true && sectorPerPage > 0 && 2 * pair + 1 < |s.flags|
    ensures 0 < s.pageCount && 0 <= Border(s.pageCount, pair) - 1 && Border(s.pageCount, pair) < |s.link|
    ensures var w := AcrossBorder(s.pageCount, sectorPerPage, pair);
      var o := WritePages(s, Border(s.pageCount, pair) - 1, 2);
      && WroteWell(s, o, true) == true && (o.Done? ==> CleaningOk(o.state))
      && SectorWrite(s, sectorPerPage, w.lba, w.sectors) == if o.Done? then Done(Cleaned(o.state)) else o
  {
    hide WritePages, Cleaned, Border, Fresh, Inverse, Counted, Lists, Fills;
    AcrossPages(s.pageCount, sectorPerPage, pair);
    BorderBlocks(s.pageCount, pair, |s.flags|);
    WritePagesKeep(s, Border(s.pageCount, pair) - 1, 2);
  }

  lemma WriteTwoSparse(s: State, h: int, pair: nat)
    requires Good(s) == true && 0 <= h && h + 1 < |s.link| && WritePages(s, h, 2).Done?
    requires h / s.pageCount == 2 * pair && (h + 1) / s.pageCount == 2 * pair + 1 && Sparse(s, 2 * pair)
    ensures var s' := WritePages(s, h, 2).state; Sparse(s', 2 * (pair + 1)) && Live(s') == Live(s) + 2
  {
    hide WritePage, WritePages, Inverse, Counted, Lists, Fills, Sparse, Live;
    WriteTwo(s, h);
    WritePageLive(s, h, 2 * pair);
    WritePageLive(WritePage(s, h).state, h + 1, 2 * pair + 1);
  }

  /** Such a write puts two pages into the cache, and its cleaning takes at most one out. */
  lemma AcrossStep(s: State, sectorPerPage: nat, pair: nat)
    requires Ready(s) == true && sectorPerPage > 0 && Sparse(s, 2 * pair) && 2 * pair + 1 < |s.flags|
    ensures var w := AcrossBorder(s.pageCount, sectorPerPage, pair);
      var o := SectorWrite(s, sectorPerPage, w.lba, w.sectors);
      && !o.OutOfRange?
      && (o.Done? ==> StepMade(s, o.state, pair) == true)
  {
    hide WritePages, Cleaned, Border, Inverse, Counted, Lists, Fills, Sparse, Live;
    var h := Border(s.pageCount, pair) - 1;
    AcrossIs(s, sectorPerPage, pair);
    BorderBlocks(s.pageCount, pair, |s.flags|);
    if WritePages(s, h, 2).Done? {
      WriteTwoSparse(s, h, pair);
      CleanedSparse(WritePages(s, h, 2).state, 2 * (pair + 1));
      CleanedKeeps(WritePages(s, h, 2).state);
    }
  }

  // ---------- the run ----------

  /** One write across each of the borders from `pair` on. */
  function AcrossBorders(pageCount: nat, sectorPerPage: nat, pair: nat, n: nat): (writes: seq<HostWrite>)
    requires pageCount > 0 && sectorPerPage > 0
    ensures NotEmpty(writes) && forall i :: 0 <= i < |writes| ==> writes[i].sectors == 2
    decreases n
  {
    if n == 0 then []
    else [AcrossBorder(pageCount, sectorPerPage, pair)] + AcrossBorders(pageCount, sectorPerPage, pair + 1, n - 1)
  }

  /** There are more writes than the cache has room for live pages. */
  lemma {:induction false} BordersFill(s: State, sectorPerPage: nat, pair: nat, n: nat)
    requires Ready(s) == true && sectorPerPage > 0 && Sparse(s, 2 * pair) && 2 * (pair + n) <= |s.flags|
    requires Live(s) + n > s.pageCount * |s.blocks|
    ensures RunWrites(s, sectorPerPage, AcrossBorders(s.pageCount, sectorPerPage, pair, n)) == CacheFull
    decreases n
  {
    hide SectorWrite, Sparse, Live, AcrossBorder, Inverse, Counted, Lists, Fills;
    if n == 0 {
      LiveFits(s);
    } else {
      var writes := AcrossBorders(s.pageCount, sectorPerPage, pair, n);
      AcrossStep(s, sectorPerPage, pair);
      var o := SectorWrite(s, sectorPerPage, writes[0].lba, writes[0].sectors);
      assert writes[1..] == AcrossBorders(s.pageCount, sectorPerPage, pair + 1, n - 1);
      if o.Done? {
        BordersFill(o.state, sectorPerPage, pair + 1, n - 1);
      }
    }
  }

  /** However many blocks the cache has: given enough home blocks, writes of two sectors each
      find it full. */
  lemma AnyCacheFills(pageCount: nat, blockCount: nat, homeBlocks: nat, sectorPerPage: nat)
    returns (writes: seq<HostWrite>)
    requires Proper(pageCount, blockCount, homeBlocks) && sectorPerPage > 0
    requires homeBlocks >= 2 * (pageCount * blockCount + 1)
    ensures Ready(Prepared(pageCount, blockCount, homeBlocks)) == true && NotEmpty(writes)
    ensures forall i :: 0 <= i < |writes| ==> writes[i].sectors == 2
    ensures RunWrites(Prepared(pageCount, blockCount, homeBlocks), sectorPerPage, writes) == CacheFull
  {
    hide RunWrites, Ready;
    var s := Prepared(pageCount, blockCount, homeBlocks);
    PreparedReady(pageCount, blockCount, homeBlocks);
    writes := AcrossBorders(pageCount, sectorPerPage, 0, pageCount * blockCount + 1);
    BordersFill(s, sectorPerPage, 0, pageCount * blockCount + 1);
  }
}
