/** The objects of the flash simulator. Each method is tied to the step on values that it
    carries out; the properties of the steps are those of module FlashCache. */
module FlashSimulator {
  import opened FlashCache

  class CacheBlock {
    const pages: array<int>
    var valid: int
    var last: int

    ghost function Now(): Block
      reads this, pages
    {
      Block(pages[..], valid, last)
    }

    constructor (pageCount: nat)
      ensures Now() == ErasedBlock(pageCount) && fresh(pages)
    {
      pages := new int[pageCount](_ => INVALID_HPAGE);
      valid, last := 0, 0;
      new;
      assert pages[..] == Repeat(pageCount, INVALID_HPAGE);
    }

    method Erase()
      modifies this, pages
      ensures Now() == ErasedBlock(pages.Length)
    {
      for i := 0 to pages.Length
        invariant forall j :: 0 <= j < i ==> pages[j] == INVALID_HPAGE
      {
        pages[i] := INVALID_HPAGE;
      }
      valid, last := 0, 0;
      assert pages[..] == Repeat(pages.Length, INVALID_HPAGE);
    }

    method Program(h: int) returns (count: int)
      requires 0 <= last < pages.Length
      modifies this, pages
      ensures Now() == ProgramBlock(old(Now()), h) && count == last
    {
      pages[last] := h;
      last := last + 1;
      valid := valid + 1;
      return last;
    }

    method InvalidPage(page: int) returns (count: int)
      requires 0 <= page < pages.Length
      modifies this, pages
      ensures Now() == InvalidBlock(old(Now()), page) && count == valid
    {
      pages[page] := INVALID_HPAGE;
      valid := valid - 1;
      return valid;
    }

    /** The home page of the first live page; the caller knows there is one. */
    method FirstValidPage() returns (h: int)
      requires 0 <= last <= pages.Length && 0 <= FirstValid(pages[..], 0, last) < last
      ensures h == pages[FirstValid(pages[..], 0, last)] != INVALID_HPAGE
    {
      var page := 0;
      FirstValidIs(pages[..], 0, last);
      while page < last && pages[page] == INVALID_HPAGE
        invariant 0 <= page <= FirstValid(pages[..], 0, last)
      {
        page := page + 1;
      }
      return pages[page];
    }
  }

  class LinkTable {
    const pageCount: int
    const link: array<int>
    const flags: array<bool>
    var range: int

    ghost predicate Sound()
    {
      pageCount >= 4 && link.Length == pageCount * flags.Length
    }

    constructor (pageCount: nat, homeBlocks: nat)
      requires pageCount >= 4
      ensures Sound() && this.pageCount == pageCount && flags.Length == homeBlocks && fresh(link) && fresh(flags)
      ensures link[..] == Repeat(pageCount * homeBlocks, INVALID_HPAGE) && flags[..] == Repeat(homeBlocks, false)
      ensures range == 0
    {
      this.pageCount := pageCount;
      link := new int[pageCount * homeBlocks](_ => INVALID_HPAGE);
      flags := new bool[homeBlocks](_ => false);
      range := 0;
      new;
      assert link[..] == Repeat(pageCount * homeBlocks, INVALID_HPAGE);
      assert flags[..] == Repeat(homeBlocks, false);
    }

    method SetCacheData(h: int, block: int, page: int)
      requires Sound() && 0 <= h < link.Length && 0 <= h / pageCount < flags.Length
      modifies this, link, flags
      ensures link[..] == old(link[..])[h := MakeLong(page, block)]
      ensures flags[..] == old(flags[..])[h / pageCount := true]
      ensures range == if old(flags[h / pageCount]) then old(range) else old(range) + 1
    {
      link[h] := MakeLong(page, block);
      var hbk := h / pageCount;
      if !flags[hbk] {
        flags[hbk] := true;
        range := range + 1;
      }
    }

    method GetCacheData(h: int) returns (block: int, page: int)
      requires 0 <= h < link.Length
      ensures block == HiWord(link[h]) && page == LoWord(link[h])
    {
      block := HiWord(link[h]);
      page := LoWord(link[h]);
    }

    method Clean(h: int)
      requires Sound() && 0 <= h < link.Length && 0 <= h / pageCount < flags.Length
      modifies this, link, flags
      ensures link[..] == old(link[..])[h := INVALID_HPAGE]
      ensures var last := h % pageCount == pageCount - 1 && old(flags[h / pageCount]);
        && flags[..] == (if last then old(flags[..])[h / pageCount := false] else old(flags[..]))
        && range == if last then old(range) - 1 else old(range)
    {
      link[h] := INVALID_HPAGE;
      if pageCount - 1 == h % pageCount {
        var hbk := h / pageCount;
        if flags[hbk] {
          flags[hbk] := false;
          range := range - 1;
        }
      }
    }
  }

  datatype Result = Ok | CacheIsFull | LbaOverRange

  class SimCacheMode {
    const pageCount: int
    const sectorPerPage: int
    const table: LinkTable
    const blocks: seq<CacheBlock>
    var caches: seq<int>
    var spares: seq<int>
    var lastBlock: int
    var cleanAt: int
    var task: Task
    var erases: int

    ghost function Pages(): set<array<int>>
    {
      set i | 0 <= i < |blocks| :: blocks[i].pages
    }

    /** The objects are set up and share nothing. */
    ghost predicate Built()
    {
      && table.Sound() && table.pageCount == pageCount && sectorPerPage > 0
      && (forall i, j :: 0 <= i < j < |blocks| ==> blocks[i] != blocks[j] && blocks[i].pages != blocks[j].pages)
      && table.link !in Pages()
    }

    ghost function Blocks(): (s: seq<Block>)
      reads blocks, Pages()
      ensures |s| == |blocks| && forall i :: 0 <= i < |blocks| ==> s[i] == blocks[i].Now()
    {
      seq(|blocks|, i requires 0 <= i < |blocks| reads blocks,
        Pages() => assert blocks[i] in blocks && blocks[i].pages in Pages(); blocks[i].Now())
    }

    ghost function Now(): State
      reads this, table, table.link, table.flags, blocks, Pages()
    {
      State(pageCount, Blocks(), caches, spares, lastBlock, table.link[..], table.flags[..], table.range, cleanAt,
        task, erases)
    }

    /** Sets the simulator up: all blocks erased, the first one open. */
    constructor (pageCount: nat, blockCount: nat, homeBlocks: nat, sectorPerPage: nat)
      requires Proper(pageCount, blockCount, homeBlocks) && sectorPerPage > 0
      ensures Built() == true && Now() == Prepared(pageCount, blockCount, homeBlocks)
      ensures this.sectorPerPage == sectorPerPage
      ensures fresh(table) && fresh(table.link) && fresh(table.flags) && fresh(blocks) && fresh(Pages())
    {
      this.pageCount, this.sectorPerPage := pageCount, sectorPerPage;
      var made: seq<CacheBlock> := [];
      while |made| < blockCount
        invariant |made| <= blockCount && fresh(made)
        invariant forall i :: 0 <= i < |made| ==> fresh(made[i].pages) && made[i].Now() == ErasedBlock(pageCount)
        invariant forall i, j :: 0 <= i < j < |made| ==> made[i] != made[j] && made[i].pages != made[j].pages
      {
        var block := new CacheBlock(pageCount);
        made := made + [block];
      }
      blocks := made;
      table := new LinkTable(pageCount, homeBlocks);
      caches, spares := [0], seq(blockCount - 1, i => i + 1);
      lastBlock, cleanAt, task, erases := 0, INVALID_HPAGE, CleanNon, 0;
      new;
      assert Blocks() == Repeat(blockCount, ErasedBlock(pageCount));
    }

    /** One block changes, and no other. */
    twostate lemma OneBlock(b: int)
      requires Built() == true && 0 <= b < |blocks|
      requires forall i | 0 <= i < |blocks| && i != b :: unchanged(blocks[i]) && unchanged(blocks[i].pages)
      ensures Blocks() == old(Blocks())[b := blocks[b].Now()]
    {
    }

    method Program(h: int) returns (count: int)
      requires Built() == true && Sized(Now()) && blocks[lastBlock].last < pageCount
      modifies blocks[lastBlock], blocks[lastBlock].pages
      ensures Now() == Programmed(old(Now()), h) && Sized(Now()) == true && count == old(blocks[lastBlock].last) + 1
    {
      count := blocks[lastBlock].Program(h);
      OneBlock(lastBlock);
    }

    method InvalidCachePage(block: int, page: int)
      requires Built() == true && Sized(Now()) && 0 <= block < |blocks| && 0 <= page < pageCount
      modifies this`caches, this`spares, this`erases, blocks[block], blocks[block].pages
      ensures Now() == FlashCache.InvalidCachePage(old(Now()), block, page)
    {
      var valid := blocks[block].InvalidPage(page);
      if valid == 0 && block != lastBlock {
        blocks[block].Erase();
        caches := Remove(caches, block);
        spares := spares + [block];
        erases := erases + 1;
      }
      OneBlock(block);
    }

    method SetLink(h: int, page: int)
      requires Built() == true && Sized(Now()) && 0 <= h < table.link.Length
      modifies table, table.link, table.flags
      ensures Now() == SetCacheData(old(Now()), h, lastBlock, page)
    {
      HomeBlockInRange(Now(), h);
      table.SetCacheData(h, lastBlock, page);
    }

    method ClearTable(h: int)
      requires Built() == true && Sized(Now()) && 0 <= h < table.link.Length
      modifies table, table.link, table.flags
      ensures Now() == ClearLink(old(Now()), h)
    {
      HomeBlockInRange(Now(), h);
      table.Clean(h);
    }

    /** Invalidates the page that the link table names, if it names one. */
    method InvalidateOld(block: int, page: int)
      requires Built() == true && Sized(Now()) == true
      requires block != NO_BLOCK ==> 0 <= block < |blocks| && 0 <= page < pageCount
      modifies this`caches, this`spares, this`erases, blocks, Pages()
      ensures Now() == if block != NO_BLOCK then FlashCache.InvalidCachePage(old(Now()), block, page) else old(Now())
      ensures Sized(Now()) == true
    {
      if block != NO_BLOCK {
        InvalidCachePage(block, page);
      }
    }

    method OpenNext()
      requires spares != []
      modifies this`caches, this`spares, this`lastBlock
      ensures Now() == OpenSpare(old(Now()))
    {
      lastBlock := spares[0];
      spares := spares[1..];
      caches := caches + [lastBlock];
    }

    /** Programs the page, invalidates the old one, and updates the link table. */
    method Rewrite(h: int, block: int, page: int) returns (count: int)
      requires Built() == true && Sized(Now()) == true && blocks[lastBlock].last < pageCount
      requires 0 <= h < table.link.Length
      requires block != NO_BLOCK ==> 0 <= block < |blocks| && 0 <= page < pageCount
      modifies this`caches, this`spares, this`erases, table, table.link, table.flags, blocks, Pages()
      ensures count == old(blocks[lastBlock].last) + 1
      ensures Now() == Rewritten(old(Now()), h, block, page)
    {
      hide Built, SetCacheData, ErasedBlock;
      count := Program(h);
      InvalidateOld(block, page);
      SetLink(h, count - 1);
    }

    static ghost function Rewritten(s: State, h: int, b: int, p: int): State
      requires Sized(s) && s.blocks[s.open].last < s.pageCount && 0 <= h < |s.link|
      requires b != NO_BLOCK ==> 0 <= b < |s.blocks| && 0 <= p < s.pageCount
    {
      var programmed := Programmed(s, h);
      SetCacheData(if b != NO_BLOCK then FlashCache.InvalidCachePage(programmed, b, p)
        else programmed, h, s.open, s.blocks[s.open].last)
    }

    /** Writes one home page to the open block, and opens a spare when the block is full. */
    method WriteHomePage(h: int) returns (full: bool)
      requires Built() == true && Good(Now()) == true && 0 <= h < table.link.Length
      modifies this`caches, this`spares, this`erases, this`lastBlock, table, table.link, table.flags, blocks, Pages()
      ensures if full then WritePage(old(Now()), h) == CacheFull else WritePage(old(Now()), h) == Done(Now())
      ensures !full ==> Good(Now()) == true && SameGeometry(old(Now()), Now()) == true
    {
      hide Built, SameGeometry, CountFlags, Blocks, SetCacheData;
      WritePageKeeps(Now(), h);
      assert Good(Now());
      LinkPlace(Now(), h);
      var block, page := table.GetCacheData(h);
      var count := Rewrite(h, block, page);
      if count >= pageCount {
        if spares == [] {
          return true;
        }
        OpenNext();
      }
      return false;
    }

    method CleanHomePage(h: int)
      requires Built() == true && Good(Now()) == true && 0 <= h < table.link.Length
      modifies this`caches, this`spares, this`erases, table, table.link, table.flags, blocks, Pages()
      ensures Now() == CleanPage(old(Now()), h)
    {
      LinkPlace(Now(), h);
      var block, page := table.GetCacheData(h);
      InvalidateOld(block, page);
      ClearTable(h);
    }

    /** The home block of the first live page of the oldest cached block. */
    method FindHblock() returns (at: int)
      requires Built() == true && Good(Now()) && Fresh(Now())
      ensures at == FindHblockToClean(Now())
    {
      OldestIsLive(Now());
      var h := blocks[caches[0]].FirstValidPage();
      return h - h % pageCount;
    }

    /** Of `count` pages from `h` on, writing those from number `page` on comes from this state to
        the goal. */
    static ghost predicate Ahead(goal: Outcome, s: State, h: int, page: int, count: nat)
    {
      Good(s) && 0 <= h && 0 <= page <= count && h + count <= |s.link| && goal == WritePages(s, h + page, count - page)
    }

    static lemma PageAhead(goal: Outcome, s: State, h: int, page: int, count: nat)
      requires page < count && Ahead(goal, s, h, page, count) == true
      ensures Good(s) == true && 0 <= h + page < |s.link|
      ensures WritePage(s, h + page).Done? ==> Ahead(goal, WritePage(s, h + page).state, h, page + 1, count) == true
      ensures !WritePage(s, h + page).Done? ==> goal == WritePage(s, h + page)
    {
      WritePageKeeps(s, h + page);
    }

    static lemma NoneAhead(goal: Outcome, s: State, h: int, count: nat)
      requires Ahead(goal, s, h, count, count) == true
      ensures goal == Done(s)
    {
    }

    /** Writes consecutive home pages, until the cache is full. */
    method WriteHomePages(h: int, count: nat) returns (full: bool)
      requires Built() == true && Good(Now()) == true && 0 <= h && h + count <= table.link.Length
      modifies this`caches, this`spares, this`erases, this`lastBlock, table, table.link, table.flags, blocks, Pages()
      ensures full ==> WritePages(old(Now()), h, count) == CacheFull
      ensures !full ==> WritePages(old(Now()), h, count) == Done(Now())
    {
      hide Built, Good, Pages;
      ghost var goal := WritePages(Now(), h, count);
      assert Ahead(goal, Now(), h, 0, count);
      hide Ahead, Good, WritePage, WritePages, Built;
      var page := 0;
      while page < count
        invariant 0 <= page <= count && Built() == true && Ahead(goal, Now(), h, page, count) == true
      {
        PageAhead(goal, Now(), h, page, count);
        full := WriteHomePage(h + page);
        if full {
          return;
        }
        page := page + 1;
      }
      NoneAhead(goal, Now(), h, count);
      return false;
    }

    /** Cleans the page at the clean address and steps on. */
    method CleanNext()
      requires Built() == true && Good(Now()) == true && 0 <= cleanAt < table.link.Length
      modifies this`caches, this`spares, this`erases, this`cleanAt, table, table.link, table.flags, blocks, Pages()
      ensures Now() == CleanedOne(old(Now())) && Good(Now()) == true && SameGeometry(old(Now()), Now()) == true
    {
      hide Built, Good;
      CleanedOneKeeps(Now());
      CleanHomePage(cleanAt);
      cleanAt := cleanAt + 1;
    }

    static lemma ManyStep(s: State, left: nat)
      requires left > 0 && Good(s) == true && 0 <= s.cleanAt && s.cleanAt + left <= |s.link|
      ensures var s1 := CleanedOne(s);
        && Good(s1) == true && SameGeometry(s, s1) == true && s1.cleanAt == s.cleanAt + 1
        && CleanedMany(s, left) == CleanedMany(s1, left - 1)
    {
      CleanedOneKeeps(s);
    }

    /** Carries the cleaning task on over `count` pages from the clean address. */
    method CleanHomePages(count: nat)
      requires Built() == true && Good(Now()) == true && 0 <= cleanAt && cleanAt + count <= table.link.Length
      modifies this`caches, this`spares, this`erases, this`cleanAt, table, table.link, table.flags, blocks, Pages()
      ensures Now() == CleanedMany(old(Now()), count)
    {
      hide Good;
      var left := count;
      while left > 0
        invariant 0 <= left <= count && Built() == true && Good(Now()) == true && 0 <= cleanAt
        invariant cleanAt + left <= table.link.Length
        invariant CleanedMany(old(Now()), count) == CleanedMany(Now(), left)
      {
        ManyStep(Now(), left);
        CleanNext();
        left := left - 1;
      }
    }

    /** Compares the number of spares with the three thresholds. */
    method ChooseTask()
      requires pageCount >= 4
      modifies this`task
      ensures task == TaskFor(old(Now()))
    {
      var spareCount := |spares|;
      var s2 := LEAST_SPARE * 3;
      var s1 := table.range / (pageCount / 4) + s2;
      if spareCount <= LEAST_SPARE {
        return;
      } else if spareCount <= s2 {
        if task != CleanHblock {
          task := CleanHblock;
        }
      } else if spareCount <= s1 {
        if task == CleanNon {
          task := CleanPartial;
        }
      }
    }

    /** Decides on a cleaning task, and on a home block to clean when none is under way. */
    method StartTask()
      requires Built() == true && Good(Now()) && CleaningOk(Now()) && Fresh(Now())
      modifies this`cleanAt, this`task
      ensures task == TaskFor(old(Now()))
      ensures Now() == old(Now()).(task := task,
        cleanAt := if task == CleanNon then old(cleanAt) else CleanStart(old(Now())))
    {
      hide Good;
      ghost var s := Now();
      ChooseTask();
      if task != CleanNon && cleanAt == INVALID_HPAGE {
        FreshAnyway(s, task);
        cleanAt := FindHblock();
      }
    }

    /** Cleans `count` pages from the clean address, and ends the task at the end of a block. */
    method CarryOn(count: nat)
      requires Built() == true && Good(Now()) == true && 0 <= cleanAt && cleanAt + count <= table.link.Length
      modifies this`caches, this`spares, this`erases, this`cleanAt, this`task, table, table.link, table.flags,
        blocks, Pages()
      ensures Now() == CarriedOn(old(Now()), count)
    {
      hide Good;
      CleanHomePages(count);
      if cleanAt % pageCount == 0 {
        cleanAt := INVALID_HPAGE;
        task := CleanNon;
      }
    }

    /** Decides on a cleaning task and carries it on, to the end of the home block for a
        forced one, else for a quarter block. */
    method Clean()
      requires Built() == true && Good(Now()) == true && CleaningOk(Now()) == true && Fresh(Now()) == true
      modifies this`caches, this`spares, this`erases, this`cleanAt, this`task, table, table.link, table.flags,
        blocks, Pages()
      ensures Now() == Cleaned(old(Now()))
    {
      hide Good;
      CleanedPlan(Now());
      StartTask();
      if task != CleanNon {
        CarryOn(if task == CleanPartial then pageCount / 4 else pageCount - cleanAt % pageCount);
      }
    }

    /** A host write. It fails when it reaches past the last home page or finds the cache full. */
    method SectorWrite(lba: int, sectors: int) returns (result: Result)
      requires Built() == true && Ready(Now()) == true && lba >= 0 && sectors >= 1
      modifies this`caches, this`spares, this`erases, this`lastBlock, this`cleanAt, this`task
      modifies table, table.link, table.flags, blocks, Pages()
      ensures match FlashCache.SectorWrite(old(Now()), sectorPerPage, lba, sectors)
        case Done(s) => result == Ok && Now() == s && Ready(s) == true
        case CacheFull => result == CacheIsFull
        case OutOfRange => result == LbaOverRange && Now() == old(Now())
    {
      hide Pages, WritePages, Good;
      SectorWriteParts(Now(), sectorPerPage, lba, sectors);
      var hpage0, hpage1 := lba / sectorPerPage, (lba + sectors - 1) / sectorPerPage;
      if hpage1 >= table.link.Length {
        return LbaOverRange;
      }
      var full := WriteHomePages(hpage0, hpage1 - hpage0 + 1);
      if full {
        return CacheIsFull;
      }
      Clean();
      return Ok;
    }
  }

  // ---------- cleaning from the clean address on ----------

  ghost function CleanedOne(s: State): State
    requires Good(s) == true && 0 <= s.cleanAt < |s.link|
  {
    CleanPage(s, s.cleanAt).(cleanAt := s.cleanAt + 1)
  }

  lemma CleanedOneKeeps(s: State)
    requires Good(s) == true && 0 <= s.cleanAt < |s.link|
    ensures Good(CleanedOne(s)) == true && SameGeometry(s, CleanedOne(s))
  {
    CleanPageKeeps(s, s.cleanAt);
    SameCore(CleanPage(s, s.cleanAt), CleanedOne(s));
  }

  ghost function CleanedMany(s: State, count: nat): State
    requires Good(s) == true && 0 <= s.cleanAt && s.cleanAt + count <= |s.link|
    decreases count
  {
    if count == 0 then s
    else
      CleanedOneKeeps(s);
      CleanedMany(CleanedOne(s), count - 1)
  }

  lemma StandingKeeps(s: State, at: int, task: Task)
    requires Good(s) == true
    ensures Good(s.(cleanAt := at, task := task)) == true
  {
    SameCore(s, s.(cleanAt := at, task := task));
  }

  /** The oldest live page does not depend on the task. */
  lemma FreshAnyway(s: State, task: Task)
    requires Good(s) && Fresh(s)
    ensures Good(s.(task := task)) && Fresh(s.(task := task))
    ensures FindHblockToClean(s.(task := task)) == FindHblockToClean(s)
  {
    StandingKeeps(s, s.cleanAt, task);
  }

  lemma CleanedOneStanding(s: State, at: int, task: Task)
    requires Good(s) == true && 0 <= at < |s.link|
    ensures Good(s.(cleanAt := at, task := task)) == true
    ensures CleanedOne(s.(cleanAt := at, task := task)) == CleanPage(s, at).(cleanAt := at + 1, task := task)
  {
    StandingKeeps(s, at, task);
  }

  /** Where the cleaning stands, and for which task, makes no difference to what it does. */
  lemma {:induction false} CleanedManyIs(s: State, at: int, task: Task, count: nat)
    requires Good(s) == true && 0 <= at && at + count <= |s.link|
    ensures Good(s.(cleanAt := at, task := task)) == true
    ensures CleanedMany(s.(cleanAt := at, task := task), count) ==
      CleanPages(s, at, count).(cleanAt := at + count, task := task)
    decreases count
  {
    hide Good;
    StandingKeeps(s, at, task);
    if count > 0 {
      CleanPageKeeps(s, at);
      CleanedOneStanding(s, at, task);
      var next := CleanPage(s, at);
      CleanedManyIs(next, at + 1, task, count - 1);
      calc {
        CleanedMany(s.(cleanAt := at, task := task), count);
        CleanedMany(next.(cleanAt := at + 1, task := task), count - 1);
        CleanPages(next, at + 1, count - 1).(cleanAt := at + count, task := task);
        CleanPages(s, at, count).(cleanAt := at + count, task := task);
      }
    }
  }

  ghost function CarriedOn(s: State, count: nat): State
    requires Good(s) == true && 0 <= s.cleanAt && s.cleanAt + count <= |s.link|
  {
    var s' := CleanedMany(s, count);
    if s'.cleanAt % s.pageCount == 0 then s'.(cleanAt := INVALID_HPAGE, task := CleanNon) else s'
  }

  /** Cleaning, as deciding first and then carrying on. */
  lemma CleanedPlan(s: State)
    requires Good(s) == true && CleaningOk(s) == true && Fresh(s) == true
    ensures TaskFor(s) == CleanNon ==> Cleaned(s) == s == s.(task := CleanNon, cleanAt := s.cleanAt)
    ensures TaskFor(s) != CleanNon ==>
      var s' := s.(task := TaskFor(s), cleanAt := CleanStart(s));
      && CleanCount(s)
        == (if TaskFor(s) == CleanPartial then s.pageCount / 4 else s.pageCount - CleanStart(s) % s.pageCount)
      && Good(s') == true && 0 <= CleanStart(s) && 0 <= CleanCount(s) && CleanStart(s) + CleanCount(s) <= |s.link|
      && Cleaned(s) == CarriedOn(s', CleanCount(s))
  {
    hide Fresh, CleanedMany, Counted;
    CleanInRange(s);
    if TaskFor(s) == CleanNon {
      PlanNone(s);
    } else {
      StandingKeeps(s, CleanStart(s), TaskFor(s));
      CleanedManyIs(s, CleanStart(s), TaskFor(s), CleanCount(s));
      CleanPagesKeep(s, CleanStart(s), CleanCount(s));
    }
  }

  /** No task is chosen only when there was none. */
  lemma PlanNone(s: State)
    requires Good(s) == true && CleaningOk(s) && Fresh(s) == true && TaskFor(s) == CleanNon
    ensures Cleaned(s) == s && s.task == CleanNon
  {
  }

  /** A host write, as writing the pages first and then cleaning. */
  lemma SectorWriteParts(s: State, sectorPerPage: int, lba: int, sectors: int)
    requires Ready(s) == true && sectorPerPage > 0 && lba >= 0 && sectors >= 1
    ensures Good(s) == true && 0 <= lba / sectorPerPage <= (lba + sectors - 1) / sectorPerPage
    ensures (lba + sectors - 1) / sectorPerPage >= |s.link| ==>
      FlashCache.SectorWrite(s, sectorPerPage, lba, sectors) == OutOfRange
    ensures (lba + sectors - 1) / sectorPerPage < |s.link| ==>
      var o := WritePages(s, lba / sectorPerPage, (lba + sectors - 1) / sectorPerPage - lba / sectorPerPage + 1);
      && (o.CacheFull? ==> FlashCache.SectorWrite(s, sectorPerPage, lba, sectors) == CacheFull)
      && (o.Done? ==>
        && Good(o.state) == true && CleaningOk(o.state) == true && Fresh(o.state) == true
        && FlashCache.SectorWrite(s, sectorPerPage, lba, sectors) ==
          Done(Cleaned(o.state)) && Ready(Cleaned(o.state)) == true)
  {
    SectorWriteKeeps(s, sectorPerPage, lba, sectors);
    PagesAscend(sectorPerPage, lba, sectors);
    var hpage0, hpage1 := lba / sectorPerPage, (lba + sectors - 1) / sectorPerPage;
    if hpage1 < |s.link| {
      WritePagesKeep(s, hpage0, hpage1 - hpage0 + 1);
    }
  }
}
