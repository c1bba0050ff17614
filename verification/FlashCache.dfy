/** The cache mode of the flash simulator, as steps on values: a link table from home pages
    to cache pages, append-only cache blocks, the lists of cached and spare blocks, and a
    resumable cleaning task. */
module FlashCache {
  import opened Basics

  const LEAST_SPARE := 3
  const INVALID_HPAGE := 0xFFFF_FFFF
  const NO_BLOCK := 0xFFFF

  function MakeLong(low: int, high: int): int
  {
    high * 0x1_0000 + low
  }

  function HiWord(x: int): int
  {
    x / 0x1_0000
  }

  function LoWord(x: int): int
  {
    x % 0x1_0000
  }

  datatype Block = Block(pages: seq<int>, valid: int, last: int)

  datatype Task = CleanNon | CleanPartial | CleanHblock

  /** `pageCount` is the number of pages in a block, and `open` the block being filled. */
  datatype State = State(
    pageCount: int,
    blocks: seq<Block>,
    caches: seq<int>,
    spares: seq<int>,
    open: int,
    link: seq<int>,
    flags: seq<bool>,
    range: int,
    cleanAt: int,
    task: Task,
    erases: int)

  datatype Outcome = Done(state: State) | CacheFull | OutOfRange

  // ---------- counting ----------

  /** The number of entries that are not INVALID_HPAGE, of a block's pages or of the link table. */
  ghost function Count(pages: seq<int>): nat
  {
    if pages == [] then 0 else Count(pages[..|pages| - 1]) + if pages[|pages| - 1] == INVALID_HPAGE then 0 else 1
  }

  ghost function One(x: int): nat
  {
    if x == INVALID_HPAGE then 0 else 1
  }

  lemma {:induction false} CountUpdate(pages: seq<int>, i: nat, x: int)
    requires i < |pages|
    ensures Count(pages[i := x]) + One(pages[i]) == Count(pages) + One(x)
  {
    var n := |pages| - 1;
    if i < n {
      CountUpdate(pages[..n], i, x);
      assert pages[i := x][..n] == pages[..n][i := x];
    } else {
      assert pages[i := x][..n] == pages[..n];
    }
  }

  lemma {:induction false} CountZero(pages: seq<int>)
    ensures Count(pages) <= |pages|
    ensures Count(pages) == 0 <==> forall i :: 0 <= i < |pages| ==> pages[i] == INVALID_HPAGE
  {
    if pages != [] {
      CountZero(pages[..|pages| - 1]);
    }
  }

  ghost function SumValid(blocks: seq<Block>): int
  {
    if blocks == [] then 0 else SumValid(blocks[..|blocks| - 1]) + blocks[|blocks| - 1].valid
  }

  lemma {:induction false} SumUpdate(blocks: seq<Block>, b: nat, blk: Block)
    requires b < |blocks|
    ensures SumValid(blocks[b := blk]) == SumValid(blocks) - blocks[b].valid + blk.valid
  {
    var n := |blocks| - 1;
    if b < n {
      SumUpdate(blocks[..n], b, blk);
      assert blocks[b := blk][..n] == blocks[..n][b := blk];
    } else {
      assert blocks[b := blk][..n] == blocks[..n];
    }
  }

  ghost function CountFlags(flags: seq<bool>): nat
  {
    if flags == [] then 0 else CountFlags(flags[..|flags| - 1]) + if flags[|flags| - 1] then 1 else 0
  }

  lemma {:induction false} FlagsUpdate(flags: seq<bool>, i: nat, f: bool)
    requires i < |flags|
    ensures CountFlags(flags[i := f]) + (if flags[i] then 1 else 0) == CountFlags(flags) + if f then 1 else 0
  {
    var n := |flags| - 1;
    if i < n {
      FlagsUpdate(flags[..n], i, f);
      assert flags[i := f][..n] == flags[..n][i := f];
    } else {
      assert flags[i := f][..n] == flags[..n];
    }
  }

  // ---------- the invariant ----------

  ghost predicate Sized(s: State)
  {
    && 4 <= s.pageCount <= 0x8000 && s.pageCount % 4 == 0
    && 0 < |s.blocks| < NO_BLOCK && 0 <= s.open < |s.blocks|
    && |s.link| == s.pageCount * |s.flags| && |s.link| < INVALID_HPAGE
    && forall b {:trigger s.blocks[b]} | 0 <= b < |s.blocks| ::
      |s.blocks[b].pages| == s.pageCount && 0 <= s.blocks[b].last <= s.pageCount
  }

  /** A linked home page is found at the place its link names. */
  ghost predicate LinkAt(s: State, h: int)
    requires Sized(s) && 0 <= h < |s.link|
  {
    s.link[h] != INVALID_HPAGE ==>
      var b, p := HiWord(s.link[h]), LoWord(s.link[h]);
      0 <= b < |s.blocks| && p < s.blocks[b].last && s.blocks[b].pages[p] == h
  }

  /** A live cache page is the place its home page links to. */
  ghost predicate PageAt(s: State, b: int, p: int)
    requires Sized(s) && 0 <= b < |s.blocks| && 0 <= p < s.pageCount
  {
    s.blocks[b].pages[p] != INVALID_HPAGE ==>
      var h := s.blocks[b].pages[p];
      p < s.blocks[b].last && 0 <= h < |s.link| && s.link[h] == MakeLong(p, b)
  }

  /** The link table and the block pages are inverse partial maps. */
  ghost predicate Inverse(s: State)
    requires Sized(s)
  {
    && (forall h {:trigger LinkAt(s, h)} | 0 <= h < |s.link| :: LinkAt(s, h))
    && (forall b, p {:trigger PageAt(s, b, p)} | 0 <= b < |s.blocks| && 0 <= p < s.pageCount :: PageAt(s, b, p))
  }

  /** Each valid count is the number of live pages. */
  ghost predicate Counted(s: State)
    requires Sized(s)
  {
    && (forall b {:trigger s.blocks[b]} | 0 <= b < |s.blocks| :: s.blocks[b].valid == Count(s.blocks[b].pages))
    && SumValid(s.blocks) == Count(s.link)
  }

  /** Caches and spares partition the block ids, and the open block is the newest cache. */
  ghost predicate Lists(s: State)
  {
    && Distinct(s.caches) && Distinct(s.spares) && |s.caches| + |s.spares| == |s.blocks|
    && (forall b :: b in s.caches || b in s.spares <==> 0 <= b < |s.blocks|)
    && (forall b :: b in s.caches ==> b !in s.spares)
    && |s.caches| > 0 && s.caches[|s.caches| - 1] == s.open
  }

  /** Spares are erased; every cached block but the open one is full and has a live page. */
  ghost predicate Fills(s: State)
    requires Sized(s) && Lists(s)
  {
    && (forall b :: b in s.spares ==> s.blocks[b] == ErasedBlock(s.pageCount))
    && (forall b :: b in s.caches && b != s.open ==> s.blocks[b].last == s.pageCount && s.blocks[b].valid >= 1)
  }

  ghost predicate Core(s: State)
  {
    Sized(s) && Inverse(s) && Counted(s) && Lists(s) && Fills(s)
  }

  ghost predicate Good(s: State)
  {
    Core(s) && s.blocks[s.open].last < s.pageCount && s.range == CountFlags(s.flags)
  }

  lemma DivideInRange(h: int, size: int, n: int)
    requires 0 < size && 0 <= n && 0 <= h < size * n
    ensures 0 <= h / size < n
  {
    var q := h / size;
    assert q >= n ==> size * q >= size * n;
  }

  lemma HomeBlockInRange(s: State, h: int)
    requires Sized(s) && 0 <= h < |s.link|
    ensures 0 <= h / s.pageCount < |s.flags|
  {
    DivideInRange(h, s.pageCount, |s.flags|);
  }

  /** A link names a place, or is INVALID_HPAGE, whose high word is no block. */
  lemma LinkPlace(s: State, h: int)
    requires Core(s) && 0 <= h < |s.link|
    ensures s.link[h] == INVALID_HPAGE <==> HiWord(s.link[h]) == NO_BLOCK
    ensures s.link[h] != INVALID_HPAGE ==> 0 <= HiWord(s.link[h]) < |s.blocks| && 0 <= LoWord(s.link[h]) < s.pageCount
  {
    assert LinkAt(s, h);
  }

  ghost predicate SameGeometry(s: State, s': State)
  {
    |s'.link| == |s.link| && |s'.flags| == |s.flags| && |s'.blocks| == |s.blocks| && s'.pageCount == s.pageCount
  }

  // ---------- unlinking and appending ----------

  /** Takes a home page out of the cache. */
  ghost function Unlink(s: State, h: int): State
    requires Core(s) && 0 <= h < |s.link|
  {
    LinkPlace(s, h);
    if s.link[h] == INVALID_HPAGE then s
    else InvalidCachePage(s, HiWord(s.link[h]), LoWord(s.link[h])).(link := s.link[h := INVALID_HPAGE])
  }

  /** Puts a home page at the end of the open block. */
  ghost function Append(s: State, h: int): State
    requires Core(s) && 0 <= h < |s.link| && s.blocks[s.open].last < s.pageCount
  {
    s.(blocks := s.blocks[s.open := ProgramBlock(s.blocks[s.open], h)],
       link := s.link[h := MakeLong(s.blocks[s.open].last, s.open)])
  }

  lemma AppendInverse(s: State, h: int)
    requires Core(s) && 0 <= h < |s.link| && s.link[h] == INVALID_HPAGE && s.blocks[s.open].last < s.pageCount
    ensures Sized(Append(s, h)) && Inverse(Append(s, h))
  {
    var s' := Append(s, h);
    assert PageAt(s, s.open, s.blocks[s.open].last);
    assert Sized(s');
    forall g | 0 <= g < |s.link| ensures LinkAt(s', g) {
      assert LinkAt(s, g);
    }
    forall b, p | 0 <= b < |s.blocks| && 0 <= p < s.pageCount ensures PageAt(s', b, p) {
      assert PageAt(s, b, p);
    }
  }

  lemma AppendKeeps(s: State, h: int)
    requires Core(s) && 0 <= h < |s.link| && s.link[h] == INVALID_HPAGE && s.blocks[s.open].last < s.pageCount
    ensures Core(Append(s, h)) && Append(s, h).blocks[s.open].valid >= 1
  {
    var s' := Append(s, h);
    var last := s.blocks[s.open].last;
    assert PageAt(s, s.open, last);
    AppendInverse(s, h);
    CountUpdate(s.blocks[s.open].pages, last, h);
    CountUpdate(s.link, h, MakeLong(last, s.open));
    SumUpdate(s.blocks, s.open, s'.blocks[s.open]);
  }

  lemma {:induction false} RemoveIs(list: seq<int>, b: int)
    requires Distinct(list)
    ensures forall x :: x in Remove(list, b) <==> x in list && x != b
    ensures Distinct(Remove(list, b))
    ensures |Remove(list, b)| == |list| - if b in list then 1 else 0
    ensures list != [] && list[|list| - 1] != b ==>
      Remove(list, b) != [] && Remove(list, b)[|Remove(list, b)| - 1] == list[|list| - 1]
    ensures list != [] && list[0] != b ==> Remove(list, b) != [] && Remove(list, b)[0] == list[0]
  {
    if list != [] {
      var rest := list[1..];
      RemoveIs(rest, b);
      assert list == [list[0]] + rest;
      if list[0] == b {
        assert b !in rest;
      } else {
        assert Remove(list, b) == [list[0]] + Remove(rest, b);
        assert list[0] !in rest && list[0] !in Remove(rest, b);
      }
    }
  }

  /** The block of a home page that is unlinked keeps its other pages; if it is erased, there
      are none. */
  lemma UnlinkBlock(s: State, h: int)
    requires Core(s) && 0 <= h < |s.link| && s.link[h] != INVALID_HPAGE
    ensures var b, p := HiWord(s.link[h]), LoWord(s.link[h]); var s' := Unlink(s, h);
      && 0 <= b < |s.blocks| && 0 <= p < s.blocks[b].last && |s'.blocks| == |s.blocks| && s'.pageCount == s.pageCount
      && s'.blocks == s.blocks[b := s'.blocks[b]]
      && s'.blocks[b].pages == s.blocks[b].pages[p := INVALID_HPAGE]
      && s'.blocks[b].valid == s.blocks[b].valid - 1 == Count(s'.blocks[b].pages)
      && s'.blocks[b].last == (if s'.blocks[b].valid == 0 && b != s.open then 0 else s.blocks[b].last)
      && s'.open == s.open && s'.flags == s.flags
  {
    var b, p := HiWord(s.link[h]), LoWord(s.link[h]);
    var s' := Unlink(s, h);
    assert LinkAt(s, h);
    CountUpdate(s.blocks[b].pages, p, INVALID_HPAGE);
    CountZero(s.blocks[b].pages[p := INVALID_HPAGE]);
    if s.blocks[b].valid == 1 && b != s.open {
      assert s'.blocks[b].pages == s.blocks[b].pages[p := INVALID_HPAGE];
    }
  }

  lemma UnlinkLink(s: State, h: int, g: int)
    requires Core(s) && 0 <= h < |s.link| && s.link[h] != INVALID_HPAGE && Sized(Unlink(s, h)) && 0 <= g < |s.link|
    ensures LinkAt(Unlink(s, h), g)
  {
    var s' := Unlink(s, h);
    UnlinkBlock(s, h);
    assert LinkAt(s, g) && LinkAt(s, h);
    if g != h && s.link[g] != INVALID_HPAGE && HiWord(s.link[g]) == HiWord(s.link[h]) {
      var b, p := HiWord(s.link[g]), LoWord(s.link[g]);
      assert s'.blocks[b].pages[p] == g;
      CountZero(s'.blocks[b].pages);
    }
  }

  lemma UnlinkPage(s: State, h: int, c: int, q: int)
    requires Core(s) && 0 <= h < |s.link| && s.link[h] != INVALID_HPAGE && Sized(Unlink(s, h))
    requires 0 <= c < |s.blocks| && 0 <= q < s.pageCount && |Unlink(s, h).blocks| == |s.blocks|
    ensures PageAt(Unlink(s, h), c, q)
  {
    UnlinkBlock(s, h);
    assert PageAt(s, c, q) && LinkAt(s, h);
    CountZero(Unlink(s, h).blocks[HiWord(s.link[h])].pages);
  }

  lemma UnlinkInverse(s: State, h: int)
    requires Core(s) && 0 <= h < |s.link| && s.link[h] != INVALID_HPAGE
    ensures Sized(Unlink(s, h)) && Inverse(Unlink(s, h)) && Counted(Unlink(s, h))
  {
    var b := HiWord(s.link[h]);
    var s' := Unlink(s, h);
    UnlinkBlock(s, h);
    CountUpdate(s.link, h, INVALID_HPAGE);
    SumUpdate(s.blocks, b, s'.blocks[b]);
    assert Sized(s');
    forall g | 0 <= g < |s.link| ensures LinkAt(s', g) {
      UnlinkLink(s, h, g);
    }
    forall c, q | 0 <= c < |s.blocks| && 0 <= q < s.pageCount ensures PageAt(s', c, q) {
      UnlinkPage(s, h, c, q);
    }
  }

  lemma UnlinkLists(s: State, h: int)
    requires Core(s) && 0 <= h < |s.link| && s.link[h] != INVALID_HPAGE && Sized(Unlink(s, h))
    ensures Lists(Unlink(s, h)) && Fills(Unlink(s, h))
  {
    hide Remove;
    var b, p := HiWord(s.link[h]), LoWord(s.link[h]);
    var s' := Unlink(s, h);
    assert LinkAt(s, h);
    assert b !in s.spares;
    RemoveIs(s.caches, b);
  }

  lemma UnlinkKeeps(s: State, h: int)
    requires Core(s) && 0 <= h < |s.link|
    ensures Core(Unlink(s, h)) && Unlink(s, h).link == s.link[h := INVALID_HPAGE]
    ensures Unlink(s, h).open == s.open && SameGeometry(s, Unlink(s, h))
    ensures Unlink(s, h).flags == s.flags && Unlink(s, h).task == s.task && Unlink(s, h).cleanAt == s.cleanAt
    ensures Unlink(s, h).blocks[s.open].last == s.blocks[s.open].last
  {
    if s.link[h] != INVALID_HPAGE {
      UnlinkBlock(s, h);
      UnlinkInverse(s, h);
      UnlinkLists(s, h);
    }
  }

  lemma OpenSpareInverse(s: State)
    requires Core(s) && s.spares != []
    ensures Sized(OpenSpare(s)) && Inverse(OpenSpare(s)) && Counted(OpenSpare(s))
  {
    var s' := OpenSpare(s);
    assert s.spares[0] in s.spares;
    assert Sized(s');
    forall h | 0 <= h < |s.link| ensures LinkAt(s', h) {
      assert LinkAt(s, h);
    }
    forall b, p | 0 <= b < |s.blocks| && 0 <= p < s.pageCount ensures PageAt(s', b, p) {
      assert PageAt(s, b, p);
    }
  }

  lemma OpenSpareLists(s: State)
    requires Core(s) && s.spares != []
    ensures Lists(OpenSpare(s))
  {
    hide Sized, Inverse, Counted, Fills;
    var s', x := OpenSpare(s), s.spares[0];
    assert s.spares == [x] + s'.spares;
    assert x in s.spares && x !in s.caches && x !in s'.spares;
    forall b ensures b in s'.caches || b in s'.spares <==> 0 <= b < |s.blocks| {
      assert b in s.spares <==> b == x || b in s'.spares;
      assert b in s'.caches <==> b in s.caches || b == x;
    }
    forall b | b in s'.caches ensures b !in s'.spares {
      assert b in s'.spares ==> b in s.spares;
    }
  }

  lemma OpenSpareKeeps(s: State)
    requires Core(s) && s.spares != [] && s.blocks[s.open].last == s.pageCount && s.blocks[s.open].valid >= 1
    ensures Core(OpenSpare(s)) && OpenSpare(s).blocks[OpenSpare(s).open].last == 0
  {
    hide Inverse, Counted;
    OpenSpareInverse(s);
    OpenSpareLists(s);
    assert s.spares == [s.spares[0]] + OpenSpare(s).spares;
    assert s.spares[0] in s.spares;
  }

  // ---------- the steps ----------

  function Repeat<T>(n: nat, x: T): (s: seq<T>)
    ensures |s| == n && forall i :: 0 <= i < n ==> s[i] == x
  {
    seq(n, i => x)
  }

  function ErasedBlock(pageCount: nat): Block
  {
    Block(Repeat(pageCount, INVALID_HPAGE), 0, 0)
  }

  function Prepared(pageCount: nat, blockCount: nat, homeBlocks: nat): State
    requires blockCount > 0
  {
    State(pageCount, Repeat(blockCount, ErasedBlock(pageCount)), [0], seq(blockCount - 1, i => i + 1), 0,
          Repeat(pageCount * homeBlocks, INVALID_HPAGE), Repeat(homeBlocks, false), 0, INVALID_HPAGE, CleanNon, 0)
  }

  function Remove(list: seq<int>, b: int): seq<int>
  {
    if list == [] then [] else (if list[0] == b then [] else [list[0]]) + Remove(list[1..], b)
  }

  function ProgramBlock(blk: Block, h: int): Block
    requires 0 <= blk.last < |blk.pages|
  {
    Block(blk.pages[blk.last := h], blk.valid + 1, blk.last + 1)
  }

  function InvalidBlock(blk: Block, p: int): Block
    requires 0 <= p < |blk.pages|
  {
    Block(blk.pages[p := INVALID_HPAGE], blk.valid - 1, blk.last)
  }

  /** Invalidates a page; a block without valid pages is erased and becomes a spare, unless
      it is the open one. */
  function InvalidCachePage(s: State, b: int, p: int): State
    requires Sized(s) && 0 <= b < |s.blocks| && 0 <= p < s.pageCount
  {
    var blk := InvalidBlock(s.blocks[b], p);
    if blk.valid == 0 && b != s.open then
      s.(blocks := s.blocks[b := ErasedBlock(s.pageCount)], caches := Remove(s.caches, b),
         spares := s.spares + [b], erases := s.erases + 1)
    else
      s.(blocks := s.blocks[b := blk])
  }

  /** Notes the place of a home page, and that its home block is in the cache. */
  function SetCacheData(s: State, h: int, b: int, p: int): State
    requires Sized(s) && 0 <= h < |s.link|
  {
    var hbk := h / s.pageCount;
    HomeBlockInRange(s, h);
    s.(link := s.link[h := MakeLong(p, b)], flags := s.flags[hbk := true],
       range := if s.flags[hbk] then s.range else s.range + 1)
  }

  /** Programs a home page into the open block, invalidates its old page, and opens a spare
      when the block is full. */
  function WritePage(s: State, h: int): Outcome
    requires Good(s) && 0 <= h < |s.link|
  {
    var b, p := HiWord(s.link[h]), LoWord(s.link[h]);
    var last := s.blocks[s.open].last;
    var programmed := s.(blocks := s.blocks[s.open := ProgramBlock(s.blocks[s.open], h)]);
    LinkPlace(s, h);
    var invalidated := if b != NO_BLOCK then InvalidCachePage(programmed, b, p) else programmed;
    var linked := SetCacheData(invalidated, h, s.open, last);
    if last + 1 < s.pageCount then Done(linked)
    else if linked.spares == [] then CacheFull
    else Done(OpenSpare(linked))
  }

  function OpenSpare(s: State): State
    requires s.spares != []
  {
    s.(open := s.spares[0], spares := s.spares[1..], caches := s.caches + [s.spares[0]])
  }

  /** Invalidates what the cache has of a home page. The last page of a home block also takes
      the block's flag back. */
  function CleanPage(s: State, h: int): State
    requires Good(s) && 0 <= h < |s.link|
  {
    var b, p := HiWord(s.link[h]), LoWord(s.link[h]);
    LinkPlace(s, h);
    ClearLink(if b != NO_BLOCK then InvalidCachePage(s, b, p) else s, h)
  }

  function ClearLink(s: State, h: int): State
    requires Sized(s) && 0 <= h < |s.link|
  {
    var hbk := h / s.pageCount;
    HomeBlockInRange(s, h);
    var cleared := s.(link := s.link[h := INVALID_HPAGE]);
    if h % s.pageCount == s.pageCount - 1 && s.flags[hbk]
    then cleared.(flags := s.flags[hbk := false], range := s.range - 1) else cleared
  }

  // ---------- what the steps keep ----------

  /** Writing a page is taking its old copy out and appending a new one: although the program
      comes first in time, it does not touch the page that is then invalidated. */
  ghost function Written(s: State, h: int): State
    requires Good(s) && 0 <= h < |s.link|
  {
    UnlinkKeeps(s, h);
    HomeBlockInRange(s, h);
    Append(Unlink(s, h), h).(
      flags := s.flags[h / s.pageCount := true],
      range := if s.flags[h / s.pageCount] then s.range else s.range + 1)
  }

  ghost function Programmed(s: State, h: int): State
    requires Sized(s) && s.blocks[s.open].last < s.pageCount
  {
    s.(blocks := s.blocks[s.open := ProgramBlock(s.blocks[s.open], h)])
  }

  lemma SwapUpdates<T>(a: seq<T>, i: nat, x: T, j: nat, y: T)
    requires i < |a| && j < |a| && i != j
    ensures a[i := x][j := y] == a[j := y][i := x]
  {
  }

  lemma OverUpdate<T>(a: seq<T>, i: nat, x: T, y: T)
    requires i < |a|
    ensures a[i := x][i := y] == a[i := y]
  {
  }

  /** Invalidating the old page before or after programming the new one comes to the same. */
  lemma ProgramThenInvalidate(s: State, h: int)
    requires Good(s) && 0 <= h < |s.link| && s.link[h] != INVALID_HPAGE
    ensures 0 <= HiWord(s.link[h]) < |s.blocks| && 0 <= LoWord(s.link[h]) < s.pageCount && Core(Unlink(s, h))
    ensures Unlink(s, h).blocks[s.open].last == s.blocks[s.open].last && Unlink(s, h).open == s.open
    ensures var i := InvalidCachePage(Programmed(s, h), HiWord(s.link[h]), LoWord(s.link[h]));
      var a := Append(Unlink(s, h), h);
      i.blocks == a.blocks && i.caches == a.caches && i.spares == a.spares && i.erases == a.erases
  {
    UnlinkKeeps(s, h);
    var b, p := HiWord(s.link[h]), LoWord(s.link[h]);
    assert LinkAt(s, h);
    var blk, open := s.blocks[b], s.blocks[s.open];
    if b == s.open {
      SwapUpdates(blk.pages, blk.last, h, p, INVALID_HPAGE);
      OverUpdate(s.blocks, b, ProgramBlock(blk, h), InvalidBlock(ProgramBlock(blk, h), p));
      OverUpdate(s.blocks, b, InvalidBlock(blk, p), ProgramBlock(InvalidBlock(blk, p), h));
    } else {
      SwapUpdates(s.blocks, s.open, ProgramBlock(open, h), b, InvalidBlock(blk, p));
      SwapUpdates(s.blocks, s.open, ProgramBlock(open, h), b, ErasedBlock(s.pageCount));
    }
  }

  lemma WritePageIs(s: State, h: int)
    requires Good(s) == true && 0 <= h < |s.link|
    ensures Core(Written(s, h)) == true && Written(s, h).open == s.open
    ensures var w := Written(s, h);
      WritePage(s, h) == if w.blocks[s.open].last < s.pageCount then Done(w)
        else if w.spares == [] then CacheFull else Done(OpenSpare(w))
  {
    hide OpenSpare, HiWord, Counted, Lists;
    WrittenKeeps(s, h);
    UnlinkKeeps(s, h);
    LinkPlace(s, h);
    HomeBlockInRange(s, h);
    var place := MakeLong(s.blocks[s.open].last, s.open);
    OverUpdate(s.link, h, INVALID_HPAGE, place);
    var b, p := HiWord(s.link[h]), LoWord(s.link[h]);
    if s.link[h] != INVALID_HPAGE {
      ProgramThenInvalidate(s, h);
      var invalidated := InvalidCachePage(Programmed(s, h), b, p);
      assert SetCacheData(invalidated, h, s.open, s.blocks[s.open].last) == Written(s, h);
    } else {
      assert SetCacheData(Programmed(s, h), h, s.open, s.blocks[s.open].last) == Written(s, h);
    }
  }

  lemma WrittenKeeps(s: State, h: int)
    requires Good(s) && 0 <= h < |s.link|
    ensures Core(Written(s, h)) && Written(s, h).range == CountFlags(Written(s, h).flags)
    ensures Written(s, h).blocks[s.open].valid >= 1 && Written(s, h).open == s.open
    ensures Written(s, h).blocks[s.open].last == s.blocks[s.open].last + 1
    ensures SameGeometry(s, Written(s, h)) && Written(s, h).task == s.task && Written(s, h).cleanAt == s.cleanAt
  {
    UnlinkKeeps(s, h);
    AppendKeeps(Unlink(s, h), h);
    HomeBlockInRange(s, h);
    FlagsUpdate(s.flags, h / s.pageCount, true);
    SameCore(Append(Unlink(s, h), h), Written(s, h));
  }

  /** The core does not look at flags, cleaning task and erase count. */
  lemma SameCore(s: State, s': State)
    requires Core(s) && s' == s.(flags := s'.flags, range := s'.range, cleanAt := s'.cleanAt, task := s'.task)
    requires |s'.flags| == |s.flags|
    ensures Core(s')
  {
    assert forall h {:trigger LinkAt(s', h)} | 0 <= h < |s.link| :: LinkAt(s, h) ==> LinkAt(s', h);
    assert forall b, p {:trigger PageAt(s', b, p)} | 0 <= b < |s.blocks| && 0 <= p < s.pageCount ::
      PageAt(s, b, p) ==> PageAt(s', b, p);
  }

  /** A good state of the same geometry, with the same cleaning task. */
  ghost predicate Alike(s: State, s': State)
  {
    Good(s') && SameGeometry(s, s') && s'.task == s.task && s'.cleanAt == s.cleanAt
  }

  lemma AlikeOn(a: State, b: State, c: State)
    requires Alike(a, b) == true && Alike(b, c) == true
    ensures Alike(a, c) == true
  {
  }

  lemma WritePageKeeps(s: State, h: int)
    requires Good(s) && 0 <= h < |s.link|
    ensures WritePage(s, h).Done? ==> Alike(s, WritePage(s, h).state) == true
  {
    WritePageIs(s, h);
    WrittenKeeps(s, h);
    var w := Written(s, h);
    if w.blocks[s.open].last == s.pageCount && w.spares != [] {
      OpenSpareKeeps(w);
    }
  }

  lemma CleanPageKeeps(s: State, h: int)
    requires Good(s) && 0 <= h < |s.link|
    ensures Alike(s, CleanPage(s, h)) == true
    ensures CleanPage(s, h) == Unlink(s, h).(flags := CleanPage(s, h).flags, range := CleanPage(s, h).range)
  {
    UnlinkKeeps(s, h);
    LinkPlace(s, h);
    HomeBlockInRange(s, h);
    FlagsUpdate(s.flags, h / s.pageCount, false);
    assert s.link[h] == INVALID_HPAGE ==> s.link[h := INVALID_HPAGE] == s.link;
    SameCore(Unlink(s, h), CleanPage(s, h));
  }

  // ---------- a whole write ----------

  /** The oldest cached block has a live page, so there is something to clean. */
  ghost predicate Fresh(s: State)
    requires Good(s)
  {
    assert s.caches[0] in s.caches;
    s.blocks[s.caches[0]].valid >= 1
  }

  lemma WritePageFresh(s: State, h: int)
    requires Good(s) && 0 <= h < |s.link| && WritePage(s, h).Done?
    ensures Good(WritePage(s, h).state) && Fresh(WritePage(s, h).state)
  {
    WritePageKeeps(s, h);
    WritePageIs(s, h);
    WrittenKeeps(s, h);
    var s' := WritePage(s, h).state;
    assert s'.caches[0] in s'.caches;
  }

  function WritePages(s: State, h: int, count: nat): (o: Outcome)
    requires Good(s) && 0 <= h && h + count <= |s.link|
    decreases count
  {
    if count == 0 then Done(s)
    else
      WritePageKeeps(s, h);
      var first := WritePage(s, h);
      if first.Done? then WritePages(first.state, h + 1, count - 1) else first
  }

  ghost predicate WroteWell(s: State, o: Outcome, some: bool)
  {
    !o.OutOfRange? && (o.Done? ==> Alike(s, o.state) && (some ==> Fresh(o.state)))
  }

  lemma WroteOn(s: State, s1: State, o: Outcome, some: bool)
    requires Alike(s, s1) == true && WroteWell(s1, o, some) == true && (some || (o == Done(s1) && Fresh(s1) == true))
    ensures WroteWell(s, o, true) == true
  {
    if o.Done? { AlikeOn(s, s1, o.state); }
  }

  lemma {:induction false} WritePagesKeep(s: State, h: int, count: nat)
    requires Good(s) == true && 0 <= h && h + count <= |s.link|
    ensures WroteWell(s, WritePages(s, h, count), count > 0) == true
    decreases count
  {
    hide Good;
    if count > 0 {
      WritePageKeeps(s, h);
      var first := WritePage(s, h);
      if first.Done? {
        WritePagesKeep(first.state, h + 1, count - 1);
        WritePageFresh(s, h);
        WroteOn(s, first.state, WritePages(first.state, h + 1, count - 1), count > 1);
      }
    }
  }

  function CleanPages(s: State, at: int, count: nat): State
    requires Good(s) && 0 <= at && at + count <= |s.link|
    decreases count
  {
    if count == 0 then s
    else
      CleanPageKeeps(s, at);
      CleanPages(CleanPage(s, at), at + 1, count - 1)
  }

  lemma {:induction false} CleanPagesKeep(s: State, at: int, count: nat)
    requires Good(s) == true && 0 <= at && at + count <= |s.link|
    ensures Alike(s, CleanPages(s, at, count)) == true
    decreases count, 1
  {
    hide Good;
    if count > 0 {
      CleanPageKeeps(s, at);
      CleanRestKeeps(s, CleanPage(s, at), at + 1, count - 1);
    }
  }

  lemma {:induction false} CleanRestKeeps(s: State, s1: State, at: int, count: nat)
    requires Alike(s, s1) == true && 0 <= at && at + count <= |s.link|
    ensures Alike(s, CleanPages(s1, at, count)) == true
    decreases count, 2
  {
    CleanPagesKeep(s1, at, count);
    AlikeOn(s, s1, CleanPages(s1, at, count));
  }

  /** The first live page of a block. */
  function FirstValid(pages: seq<int>, from: nat, last: int): int
    requires from <= last <= |pages|
    decreases |pages| - from
  {
    if from < last && pages[from] == INVALID_HPAGE then FirstValid(pages, from + 1, last) else from
  }

  lemma {:induction false} FirstValidIs(pages: seq<int>, from: nat, last: int)
    requires from <= last <= |pages|
    ensures var p := FirstValid(pages, from, last);
      from <= p <= last && (p < last ==> pages[p] != INVALID_HPAGE) && forall i ::
        from <= i < p ==> pages[i] == INVALID_HPAGE
    decreases |pages| - from
  {
    if from < last && pages[from] == INVALID_HPAGE {
      FirstValidIs(pages, from + 1, last);
    }
  }

  /** The first live page of the oldest cached block. */
  function Oldest(s: State): int
    requires Good(s) && Fresh(s)
  {
    OldestIsLive(s);
    var blk := s.blocks[s.caches[0]];
    blk.pages[FirstValid(blk.pages, 0, blk.last)]
  }

  /** There is one, and its link leads back to the oldest block. */
  lemma OldestIsLive(s: State)
    requires Good(s) && Fresh(s)
    ensures s.caches[0] in s.caches && 0 <= s.caches[0] < |s.blocks|
    ensures var blk := s.blocks[s.caches[0]]; var p := FirstValid(blk.pages, 0, blk.last);
      && 0 <= p < blk.last && 0 <= blk.pages[p] < |s.link|
      && s.link[blk.pages[p]] != INVALID_HPAGE && HiWord(s.link[blk.pages[p]]) == s.caches[0]
  {
    var b := s.caches[0];
    assert b in s.caches;
    var blk := s.blocks[b];
    FirstValidIs(blk.pages, 0, blk.last);
    CountZero(blk.pages);
    var live :| 0 <= live < |blk.pages| && blk.pages[live] != INVALID_HPAGE;
    assert PageAt(s, b, live);
    var p := FirstValid(blk.pages, 0, blk.last);
    assert p <= live;
    assert PageAt(s, b, p);
  }

  /** The home block it belongs to is cleaned next. */
  function FindHblockToClean(s: State): int
    requires Good(s) && Fresh(s)
  {
    Oldest(s) - Oldest(s) % s.pageCount
  }

  /** Between writes: no task exactly when there is no clean address, otherwise a partial
      task that stands at a quarter of a home block. */
  ghost predicate CleaningOk(s: State)
    requires Sized(s)
  {
    if s.cleanAt == INVALID_HPAGE then s.task == CleanNon
    else
      && s.task == CleanPartial && 0 <= s.cleanAt < |s.link|
      && exists k | 1 <= k <= 3 :: s.cleanAt % s.pageCount == k * (s.pageCount / 4)
  }

  function TaskFor(s: State): Task
    requires s.pageCount >= 4
  {
    var s2 := LEAST_SPARE * 3;
    var s1 := s.range / (s.pageCount / 4) + s2;
    if |s.spares| <= LEAST_SPARE then s.task
    else if |s.spares| <= s2 then CleanHblock
    else if |s.spares| <= s1 && s.task == CleanNon then CleanPartial
    else s.task
  }

  function CleanStart(s: State): int
    requires Good(s) && (s.cleanAt == INVALID_HPAGE ==> Fresh(s))
  {
    if s.cleanAt == INVALID_HPAGE then FindHblockToClean(s) else s.cleanAt
  }

  function CleanCount(s: State): int
    requires Good(s) && (s.cleanAt == INVALID_HPAGE ==> Fresh(s))
  {
    match TaskFor(s)
    case CleanNon => 0
    case CleanPartial => s.pageCount / 4
    case CleanHblock => s.pageCount - CleanStart(s) % s.pageCount
  }

  lemma DivModUnique(a: int, q: int, r: int, size: int)
    requires 0 < size && a == size * q + r && 0 <= r < size
    ensures a / size == q && a % size == r
  {
    var d := q - a / size;
    assert size * d == size * q - size * (a / size);
    assert d >= 1 ==> size * d >= size;
    assert d <= -1 ==> size * d <= -size;
  }

  lemma HomeBlockEnd(at: int, size: int, n: int)
    requires 0 < size && 0 <= n && 0 <= at < size * n
    ensures 0 <= at - at % size && at - at % size + size <= size * n && (at - at % size) % size == 0
    ensures (at - at % size + size) % size == 0
  {
    var q := at / size;
    DivideInRange(at, size, n);
    assert at == size * q + at % size;
    assert size * (q + 1) == size * q + size;
    assert size * (q + 1) <= size * n;
    DivModUnique(size * q, q, 0, size);
    DivModUnique(size * (q + 1), q + 1, 0, size);
  }

  lemma ModPlus(at: int, size: int, more: int)
    requires 0 < size && 0 <= at && 0 <= more && at % size + more <= size
    ensures (at + more) % size == if at % size + more == size then 0 else at % size + more
  {
    var q, r := at / size, at % size;
    assert at == size * q + r;
    if r + more == size {
      assert size * (q + 1) == size * q + size;
      DivModUnique(at + more, q + 1, 0, size);
    } else {
      DivModUnique(at + more, q, r + more, size);
    }
  }

  /** Every page that is cleaned lies in the home block of the start. */
  lemma CleanInRange(s: State)
    requires Good(s) && CleaningOk(s) && Fresh(s)
    ensures 0 <= CleanStart(s) < |s.link| && 0 <= CleanCount(s)
    ensures CleanStart(s) % s.pageCount + CleanCount(s) <= s.pageCount
    ensures CleanStart(s) + CleanCount(s) <= |s.link|
  {
    OldestIsLive(s);
    var at := CleanStart(s);
    HomeBlockEnd(Oldest(s), s.pageCount, |s.flags|);
    if s.cleanAt != INVALID_HPAGE {
      var k :| 1 <= k <= 3 && s.cleanAt % s.pageCount == k * (s.pageCount / 4);
    }
    HomeBlockEnd(at, s.pageCount, |s.flags|);
  }

  /** Decides on the task and carries it on. */
  function Cleaned(s: State): State
    requires Good(s) && CleaningOk(s) && Fresh(s)
  {
    var task := TaskFor(s);
    CleanInRange(s);
    if task == CleanNon then s
    else
      var end := CleanStart(s) + CleanCount(s);
      var s' := CleanPages(s, CleanStart(s), CleanCount(s));
      if end % s.pageCount == 0 then s'.(cleanAt := INVALID_HPAGE, task := CleanNon)
      else s'.(cleanAt := end, task := task)
  }

  ghost predicate Ready(s: State)
  {
    Good(s) && CleaningOk(s)
  }

  lemma CleanedKeeps(s: State)
    requires Good(s) == true && CleaningOk(s) == true && Fresh(s) == true
    ensures Ready(Cleaned(s)) == true && SameGeometry(s, Cleaned(s)) == true
  {
    hide Fresh, CleanPages;
    CleanInRange(s);
    if TaskFor(s) != CleanNon {
      var s', at, end := CleanPages(s, CleanStart(s), CleanCount(s)), CleanStart(s), CleanStart(s) + CleanCount(s);
      CleanPagesKeep(s, CleanStart(s), CleanCount(s));
      SameCore(s', Cleaned(s));
      StandsAtQuarter(s);
    }
  }

  /** A task that is not finished stands at a quarter of a home block, inside the table. */
  lemma StandsAtQuarter(s: State)
    requires Good(s) && CleaningOk(s) && Fresh(s) && TaskFor(s) != CleanNon
    ensures var end := CleanStart(s) + CleanCount(s);
      end % s.pageCount != 0 ==>
        && TaskFor(s) == CleanPartial && 0 <= end < |s.link|
        && exists k | 1 <= k <= 3 :: end % s.pageCount == k * (s.pageCount / 4)
  {
    CleanInRange(s);
    var at, count := CleanStart(s), CleanCount(s);
    ModPlus(at, s.pageCount, count);
    if TaskFor(s) == CleanPartial {
      QuarterOn(s);
      HomeBlockEnd(at, s.pageCount, |s.flags|);
    }
  }

  lemma QuarterOn(s: State)
    requires Good(s) && CleaningOk(s) && Fresh(s) && TaskFor(s) == CleanPartial
    ensures var r := (CleanStart(s) + CleanCount(s)) % s.pageCount;
      r != 0 ==> exists k | 1 <= k <= 3 :: r == k * (s.pageCount / 4)
  {
    CleanInRange(s);
    var at, q := CleanStart(s), s.pageCount / 4;
    ModPlus(at, s.pageCount, CleanCount(s));
    if s.cleanAt == INVALID_HPAGE {
      OldestIsLive(s);
      HomeBlockEnd(Oldest(s), s.pageCount, |s.flags|);
      assert at % s.pageCount + q == 1 * q;
    } else {
      var k :| 1 <= k <= 3 && s.cleanAt % s.pageCount == k * q;
      assert at % s.pageCount + q == (k + 1) * q;
    }
  }

  /** A host write of `sectors` sectors from `lba` on, `sectorPerPage` to a page. */
  function SectorWrite(s: State, sectorPerPage: int, lba: int, sectors: int): Outcome
    requires Ready(s) && sectorPerPage > 0 && lba >= 0 && sectors >= 1
  {
    var hpage0, hpage1 := lba / sectorPerPage, (lba + sectors - 1) / sectorPerPage;
    PagesAscend(sectorPerPage, lba, sectors);
    if hpage1 >= |s.link| then OutOfRange
    else
      var o := WritePages(s, hpage0, hpage1 - hpage0 + 1);
      WritePagesKeep(s, hpage0, hpage1 - hpage0 + 1);
      if o.Done? then Done(Cleaned(o.state)) else o
  }

  lemma PagesAscend(size: int, lba: int, sectors: int)
    requires size > 0 && lba >= 0 && sectors >= 1
    ensures 0 <= lba / size <= (lba + sectors - 1) / size
  {
    var a, b := lba / size, (lba + sectors - 1) / size;
    assert a > b ==> size * a >= size * (b + 1);
  }

  /** Every write that is carried out keeps the whole invariant. */
  lemma SectorWriteKeeps(s: State, sectorPerPage: int, lba: int, sectors: int)
    requires Ready(s) == true && sectorPerPage > 0 && lba >= 0 && sectors >= 1
    ensures SectorWrite(s, sectorPerPage, lba, sectors).Done? ==>
      Ready(SectorWrite(s, sectorPerPage, lba, sectors).state) == true
      && SameGeometry(s, SectorWrite(s, sectorPerPage, lba, sectors).state) == true
    ensures SectorWrite(s, sectorPerPage, lba, sectors).OutOfRange? <==>
      (lba + sectors - 1) / sectorPerPage >= |s.link|
  {
    hide Good;
    var hpage0, hpage1 := lba / sectorPerPage, (lba + sectors - 1) / sectorPerPage;
    PagesAscend(sectorPerPage, lba, sectors);
    if hpage1 < |s.link| {
      var o := WritePages(s, hpage0, hpage1 - hpage0 + 1);
      WritePagesKeep(s, hpage0, hpage1 - hpage0 + 1);
      if o.Done? {
        assert Alike(s, o.state) && Fresh(o.state);
        CleanedKeeps(o.state);
        assert SectorWrite(s, sectorPerPage, lba, sectors) == Done(Cleaned(o.state));
        GeometryOn(s, o.state, Cleaned(o.state));
      }
    }
  }

  lemma GeometryOn(a: State, b: State, c: State)
    requires SameGeometry(a, b) == true && SameGeometry(b, c) == true
    ensures SameGeometry(a, c) == true
  {
  }

  // ---------- conservation ----------

  /** The pages programmed since the start: full blocks that were erased or are cached, and
      what the open block holds. */
  ghost function Programs(s: State): int
    requires Core(s)
  {
    s.pageCount * (s.erases + |s.caches| - 1) + s.blocks[s.open].last
  }

  /** What unlinking a page does to the lists: nothing, or its block, which is not the open
      one, moves from the caches to the spares. */
  lemma UnlinkMoves(s: State, h: int)
    requires Core(s) && 0 <= h < |s.link|
    ensures var s' := Unlink(s, h);
      || (s'.caches == s.caches && s'.spares == s.spares && s'.erases == s.erases)
      || (s.link[h] != INVALID_HPAGE && HiWord(s.link[h]) in s.caches && HiWord(s.link[h]) != s.open
          && s'.caches == Remove(s.caches, HiWord(s.link[h])) && |s'.caches| == |s.caches| - 1
          && |s'.spares| == |s.spares| + 1 && s'.erases == s.erases + 1)
  {
    if s.link[h] != INVALID_HPAGE {
      var b := HiWord(s.link[h]);
      UnlinkBlock(s, h);
      RemoveIs(s.caches, b);
      assert b in s.caches || b in s.spares;
    }
  }

  lemma UnlinkPrograms(s: State, h: int)
    requires Core(s) && 0 <= h < |s.link|
    ensures Core(Unlink(s, h)) && Programs(Unlink(s, h)) == Programs(s)
  {
    UnlinkKeeps(s, h);
    UnlinkMoves(s, h);
    assert Unlink(s, h).erases + |Unlink(s, h).caches| - 1 == s.erases + |s.caches| - 1;
  }

  lemma OpenSparePrograms(s: State)
    requires Core(s) && s.spares != [] && s.blocks[s.open].last == s.pageCount && s.blocks[s.open].valid >= 1
    ensures Core(OpenSpare(s)) && Programs(OpenSpare(s)) == Programs(s)
  {
    OpenSpareKeeps(s);
    TimesNext(s.pageCount, s.erases + |s.caches| - 1);
  }

  lemma TimesNext(size: int, n: int)
    ensures size * (n + 1) == size * n + size
    ensures (n + 1) * size == n * size + size
  {
  }

  lemma WrittenPrograms(s: State, h: int)
    requires Good(s) && 0 <= h < |s.link|
    ensures Core(Written(s, h)) && Programs(Written(s, h)) == Programs(s) + 1
  {
    hide Core;
    WrittenKeeps(s, h);
    UnlinkKeeps(s, h);
    UnlinkPrograms(s, h);
    assert Written(s, h).erases + |Written(s, h).caches| - 1 == Unlink(s, h).erases + |Unlink(s, h).caches| - 1;
  }

  /** Each page written is programmed once. */
  lemma WritePagePrograms(s: State, h: int)
    requires Good(s) && 0 <= h < |s.link| && WritePage(s, h).Done?
    ensures ProgrammedMore(s, WritePage(s, h).state, 1) == true
  {
    WritePageKeeps(s, h);
    WritePageIs(s, h);
    WrittenKeeps(s, h);
    WrittenPrograms(s, h);
    if Written(s, h).blocks[s.open].last == s.pageCount {
      OpenSparePrograms(Written(s, h));
    }
  }

  lemma CleanPagePrograms(s: State, h: int)
    requires Good(s) && 0 <= h < |s.link|
    ensures Good(CleanPage(s, h)) && SameGeometry(s, CleanPage(s, h)) && Programs(CleanPage(s, h)) == Programs(s)
  {
    CleanPageKeeps(s, h);
    UnlinkKeeps(s, h);
    UnlinkPrograms(s, h);
  }

  lemma {:induction false} CleanPagesPrograms(s: State, at: int, count: nat)
    requires Good(s) && 0 <= at && at + count <= |s.link|
    ensures Good(CleanPages(s, at, count)) && Programs(CleanPages(s, at, count)) == Programs(s)
    decreases count
  {
    if count > 0 {
      CleanPagePrograms(s, at);
      CleanPagesPrograms(CleanPage(s, at), at + 1, count - 1);
    }
  }

  lemma {:induction false} WritePagesPrograms(s: State, h: int, count: nat)
    requires Good(s) == true && 0 <= h && h + count <= |s.link| && WritePages(s, h, count).Done?
    ensures ProgrammedMore(s, WritePages(s, h, count).state, count) == true
    decreases count, 1
  {
    hide Good;
    if count > 0 {
      WritePageKeeps(s, h);
      WritePagePrograms(s, h);
      var s1 := WritePage(s, h).state;
      assert WritePages(s, h, count) == WritePages(s1, h + 1, count - 1);
      WriteRestPrograms(s, s1, h + 1, count - 1);
    } else {
      assert WritePages(s, h, count) == Done(s);
    }
  }

  ghost predicate ProgrammedMore(s: State, s': State, pages: nat)
    requires Good(s)
  {
    Good(s') && Programs(s') == Programs(s) + pages
  }

  lemma {:induction false} WriteRestPrograms(s: State, s1: State, h: int, count: nat)
    requires Good(s) == true && ProgrammedMore(s, s1, 1) == true && 0 <= h && h + count <= |s1.link|
    requires WritePages(s1, h, count).Done?
    ensures ProgrammedMore(s, WritePages(s1, h, count).state, count + 1) == true
    decreases count, 2
  {
    WritePagesPrograms(s1, h, count);
  }

  /** A host write programs exactly the pages it covers; cleaning programs none. */
  lemma SectorWritePrograms(s: State, sectorPerPage: int, lba: int, sectors: int)
    requires Ready(s) && sectorPerPage > 0 && lba >= 0 && sectors >= 1
    requires SectorWrite(s, sectorPerPage, lba, sectors).Done?
    ensures var s' := SectorWrite(s, sectorPerPage, lba, sectors).state;
      Core(s') && Programs(s') == Programs(s) + (lba + sectors - 1) / sectorPerPage - lba / sectorPerPage + 1
  {
    var hpage0, count := lba / sectorPerPage, (lba + sectors - 1) / sectorPerPage - lba / sectorPerPage + 1;
    PagesAscend(sectorPerPage, lba, sectors);
    WritePagesKeep(s, hpage0, count);
    WritePagesPrograms(s, hpage0, count);
    var w := WritePages(s, hpage0, count).state;
    CleanedPrograms(w);
  }

  lemma CleanedPrograms(s: State)
    requires Good(s) && CleaningOk(s) && Fresh(s)
    ensures Core(Cleaned(s)) && Programs(Cleaned(s)) == Programs(s)
  {
    CleanedKeeps(s);
    CleanInRange(s);
    if TaskFor(s) != CleanNon {
      CleanPagesPrograms(s, CleanStart(s), CleanCount(s));
      SamePrograms(CleanPages(s, CleanStart(s), CleanCount(s)), Cleaned(s));
    }
  }

  lemma SamePrograms(s: State, s': State)
    requires Core(s) && Core(s') && s' == s.(cleanAt := s'.cleanAt, task := s'.task)
    ensures Programs(s') == Programs(s)
  {
  }

  // ---------- the spare pool ----------

  /** Dead pages of the oldest cached block. */
  ghost function Dead(s: State): int
    requires Core(s)
  {
    OldestCached(s);
    s.blocks[s.caches[0]].last - s.blocks[s.caches[0]].valid
  }

  lemma OldestCached(s: State)
    requires Core(s)
    ensures s.caches[0] in s.caches && 0 <= s.caches[0] < |s.blocks|
  {
  }

  /** What stands between the simulator and a full cache: the pages of the spares, the free
      pages of the open block, and the pages of the oldest block that are dead already. */
  ghost function Potential(s: State): int
    requires Core(s)
  {
    |s.spares| * s.pageCount + (s.pageCount - s.blocks[s.open].last) + Dead(s)
  }

  lemma {:induction false} CountBelow(pages: seq<int>, last: nat)
    requires last <= |pages| && forall i :: last <= i < |pages| ==> pages[i] == INVALID_HPAGE
    ensures Count(pages) <= last
  {
    if last < |pages| {
      CountBelow(pages[..|pages| - 1], last);
    } else {
      CountZero(pages);
    }
  }

  lemma ValidBelowLast(s: State, b: int)
    requires Core(s) && 0 <= b < |s.blocks|
    ensures 0 <= s.blocks[b].valid <= s.blocks[b].last
  {
    forall p | s.blocks[b].last <= p < s.pageCount ensures s.blocks[b].pages[p] == INVALID_HPAGE {
      assert PageAt(s, b, p);
    }
    CountBelow(s.blocks[b].pages, s.blocks[b].last);
  }

  /** Dead pages of the oldest and free pages of the open block are not two full blocks. */
  lemma DeadAndFree(s: State)
    requires Core(s)
    ensures 0 <= Dead(s)
    ensures Dead(s) + (s.pageCount - s.blocks[s.open].last) <= 2 * s.pageCount - 1
  {
    OldestCached(s);
    ValidBelowLast(s, s.caches[0]);
  }

  /** Taking a page out of the cache loses nothing, and gains a page if it was in the oldest
      block. */
  lemma UnlinkPotential(s: State, h: int)
    requires Core(s) && 0 <= h < |s.link|
    ensures Core(Unlink(s, h)) && Potential(Unlink(s, h)) >= Potential(s)
    ensures |Unlink(s, h).spares| >= |s.spares|
    ensures s.link[h] != INVALID_HPAGE && HiWord(s.link[h]) == s.caches[0] ==>
      Potential(Unlink(s, h)) >= Potential(s) + 1
    ensures s.link[h] == INVALID_HPAGE || HiWord(s.link[h]) != s.caches[0] ==> Unlink(s, h).caches[0] == s.caches[0]
  {
    UnlinkKeeps(s, h);
    if s.link[h] != INVALID_HPAGE {
      UnlinkMoves(s, h);
      UnlinkBlock(s, h);
      UnlinkDead(s, h);
      TimesNext(s.pageCount, |s.spares|);
    }
  }

  /** The oldest block has one more dead page, or it was erased and another is the oldest now. */
  lemma UnlinkDead(s: State, h: int)
    requires Core(s) && 0 <= h < |s.link| && s.link[h] != INVALID_HPAGE && Core(Unlink(s, h))
    ensures HiWord(s.link[h]) != s.caches[0] ==> Dead(Unlink(s, h)) == Dead(s) && Unlink(s, h).caches[0] == s.caches[0]
    ensures HiWord(s.link[h]) == s.caches[0] && Unlink(s, h).caches == s.caches ==> Dead(Unlink(s, h)) == Dead(s) + 1
    ensures HiWord(s.link[h]) == s.caches[0] && Unlink(s, h).caches != s.caches ==>
      Dead(Unlink(s, h)) >= 0 && Dead(s) == s.pageCount - 1
  {
    var b, s' := HiWord(s.link[h]), Unlink(s, h);
    UnlinkBlock(s, h);
    UnlinkMoves(s, h);
    RemoveIs(s.caches, b);
    OldestCached(s);
    OldestCached(s');
    ValidBelowLast(s', s'.caches[0]);
    ValidBelowLast(s', b);
  }

  lemma WrittenPotential(s: State, h: int)
    requires Good(s) && 0 <= h < |s.link|
    ensures Core(Written(s, h)) && Potential(Written(s, h)) >= Potential(s) - 1
    ensures |Written(s, h).spares| >= |s.spares|
  {
    WrittenKeeps(s, h);
    UnlinkKeeps(s, h);
    UnlinkPotential(s, h);
    OldestCached(Unlink(s, h));
    assert Dead(Written(s, h)) == Dead(Unlink(s, h));
  }

  lemma OpenSparePotential(s: State)
    requires Core(s) && s.spares != [] && s.blocks[s.open].last == s.pageCount && s.blocks[s.open].valid >= 1
    ensures Core(OpenSpare(s)) && Potential(OpenSpare(s)) == Potential(s)
  {
    OpenSpareKeeps(s);
    OldestCached(s);
    TimesNext(s.pageCount, |s.spares| - 1);
  }

  /** Writing a page costs one. */
  lemma WritePagePotential(s: State, h: int)
    requires Good(s) && 0 <= h < |s.link| && WritePage(s, h).Done?
    ensures Good(WritePage(s, h).state) && Potential(WritePage(s, h).state) >= Potential(s) - 1
    ensures var s' := WritePage(s, h).state;
      |s'.spares| >= |s.spares| || (|s'.spares| >= |s.spares| - 1 && s'.blocks[s'.open].last == 0)
  {
    WritePageKeeps(s, h);
    WritePageIs(s, h);
    WrittenKeeps(s, h);
    WrittenPotential(s, h);
    if Written(s, h).blocks[s.open].last == s.pageCount {
      OpenSparePotential(Written(s, h));
      OpenSpareKeeps(Written(s, h));
    }
  }

  /** Cleaning costs nothing, and gains a page if it meets one of the oldest block. */
  lemma {:induction false} CleanPagesPotential(s: State, at: int, count: nat)
    requires Good(s) == true && 0 <= at && at + count <= |s.link|
    ensures var s' := CleanPages(s, at, count);
      && Good(s') == true && Potential(s') >= Potential(s) && |s'.spares| >= |s.spares|
      && ((exists h :: at <= h < at + count && s.link[h] != INVALID_HPAGE && HiWord(s.link[h]) == s.caches[0]) ==>
        Potential(s') >= Potential(s) + 1)
    decreases count
  {
    hide HiWord, CleanPage, Core;
    if count > 0 {
      CleanPageKeeps(s, at);
      UnlinkKeeps(s, at);
      UnlinkPotential(s, at);
      var s1 := CleanPage(s, at);
      CleanPagesPotential(s1, at + 1, count - 1);
      assert forall h :: at < h < at + count ==> s1.link[h] == s.link[h];
    }
  }

  /** A host write that touches one page. */
  function WriteOne(s: State, h: int): Outcome
    requires Ready(s) && 0 <= h < |s.link|
  {
    var o := WritePage(s, h);
    WritePageKeeps(s, h);
    if o.Done? then
      WritePageFresh(s, h);
      Done(Cleaned(o.state))
    else o
  }

  lemma WritePagesOne(s: State, h: int)
    requires Good(s) == true && 0 <= h < |s.link|
    ensures WritePages(s, h, 1) == WritePage(s, h)
  {
    WritePageKeeps(s, h);
    var o := WritePage(s, h);
    assert o.Done? ==> WritePages(o.state, h + 1, 0) == o;
  }

  lemma WriteOneIsSectorWrite(s: State, sectorPerPage: int, lba: int, sectors: int)
    requires Ready(s) == true && sectorPerPage > 0 && lba >= 0 && sectors >= 1
    requires lba / sectorPerPage == (lba + sectors - 1) / sectorPerPage < |s.link|
    ensures SectorWrite(s, sectorPerPage, lba, sectors) == WriteOne(s, lba / sectorPerPage)
  {
    PagesAscend(sectorPerPage, lba, sectors);
    WritePagesOne(s, lba / sectorPerPage);
  }

  /** Ten spares, or as many as there are blocks: what the potential is worth. */
  ghost function Reserve(s: State): int
  {
    if |s.blocks| <= 10 then |s.blocks| else 10
  }

  ghost predicate Safe(s: State)
  {
    && Ready(s) && |s.blocks| >= 6
    && (|s.spares| >= 10 || (s.task == CleanNon && Potential(s) >= Reserve(s) * s.pageCount))
  }

  lemma SparesBound(n: int, size: int, k: int, rest: int)
    requires size >= 1 && rest <= 2 * size - 1 && n * size + rest >= k * size - 1
    ensures n >= k - 2
    ensures n * size + rest >= k * size ==> n >= k - 1
  {
    var d := k - n;
    assert k * size - n * size == d * size;
    assert d >= 3 ==> d * size >= 3 * size;
    assert d >= 2 ==> d * size >= 2 * size;
  }

  /** Potential keeps the spares up. */
  lemma PotentialGivesSpares(s: State, k: int)
    requires Core(s) && Potential(s) >= k * s.pageCount - 1
    ensures |s.spares| >= k - 2
    ensures Potential(s) >= k * s.pageCount ==> |s.spares| >= k - 1
  {
    DeadAndFree(s);
    SparesBound(|s.spares|, s.pageCount, k, s.pageCount - s.blocks[s.open].last + Dead(s));
  }

  /** With four to nine spares a write starts, or finishes, the cleaning of a home block. */
  lemma CleanedByForce(s: State)
    requires Good(s) == true && CleaningOk(s) == true && Fresh(s) == true && LEAST_SPARE < |s.spares| <= LEAST_SPARE * 3
    ensures var s' := Cleaned(s);
      && Ready(s') == true && s'.task == CleanNon && SameGeometry(s, s') == true && |s'.spares| >= |s.spares|
      && Potential(s') >= Potential(s) + if s.cleanAt == INVALID_HPAGE then 1 else 0
  {
    hide CleanPages, Counted;
    CleanedKeeps(s);
    CleanInRange(s);
    OldestIsLive(s);
    var at, count := CleanStart(s), CleanCount(s);
    assert count == s.pageCount - at % s.pageCount;
    ModPlus(at, s.pageCount, count);
    CleanPagesPotential(s, at, count);
    if s.cleanAt == INVALID_HPAGE {
      HomeBlockEnd(Oldest(s), s.pageCount, |s.flags|);
      assert at <= Oldest(s) < at + count;
    }
    SamePotential(CleanPages(s, at, count), Cleaned(s));
  }

  lemma SamePotential(s: State, s': State)
    requires Core(s) && Core(s') && s' == s.(cleanAt := s'.cleanAt, task := s'.task)
    ensures Potential(s') == Potential(s)
  {
  }

  lemma CleanedSpares(s: State)
    requires Good(s) && CleaningOk(s) && Fresh(s)
    ensures |Cleaned(s).spares| >= |s.spares|
  {
    CleanInRange(s);
    if TaskFor(s) != CleanNon {
      CleanPagesPotential(s, CleanStart(s), CleanCount(s));
    }
  }

  /** A safe simulator has a spare to open when it needs one. */
  lemma SafeWrites(s: State, h: int)
    requires Safe(s) && 0 <= h < |s.link|
    ensures WritePage(s, h).Done?
  {
    WritePageIs(s, h);
    WrittenPotential(s, h);
    if |s.spares| < 10 {
      PotentialGivesSpares(s, Reserve(s));
    }
  }

  lemma SafeStep(s: State, h: int)
    requires Safe(s) && 0 <= h < |s.link|
    ensures WriteOne(s, h).Done? && Safe(WriteOne(s, h).state) && SameGeometry(s, WriteOne(s, h).state)
  {
    hide WritePage;
    SafeWrites(s, h);
    WritePageKeeps(s, h);
    WritePageFresh(s, h);
    WritePagePotential(s, h);
    var s1 := WritePage(s, h).state;
    CleanedKeeps(s1);
    if |s1.spares| >= 10 {
      CleanedSpares(s1);
    } else {
      if |s.spares| >= 10 {
        OpenedPotential(s1);
      } else {
        PotentialGivesSpares(s1, Reserve(s));
      }
      CleanedByForce(s1);
    }
  }

  /** A block just opened is all free. */
  lemma OpenedPotential(s: State)
    requires Core(s) && |s.spares| == 9 && s.blocks[s.open].last == 0
    ensures Potential(s) >= 10 * s.pageCount
  {
    DeadAndFree(s);
  }

  /** A run of writes that touch one page each. */
  function Run(s: State, hs: seq<int>): Outcome
    requires Ready(s) == true && Runnable(s, hs)
    decreases |hs|
  {
    if hs == [] then Done(s)
    else
      var o := WriteOne(s, hs[0]);
      WriteOneKeeps(s, hs[0]);
      if o.Done? then Run(o.state, hs[1..]) else o
  }

  lemma WriteOneKeeps(s: State, h: int)
    requires Ready(s) && 0 <= h < |s.link|
    ensures WriteOne(s, h).Done? ==> Ready(WriteOne(s, h).state) && SameGeometry(s, WriteOne(s, h).state)
    ensures !WriteOne(s, h).OutOfRange?
  {
    WritePageKeeps(s, h);
    if WritePage(s, h).Done? {
      WritePageFresh(s, h);
      CleanedKeeps(WritePage(s, h).state);
    }
  }

  lemma {:induction false} SafeRun(s: State, hs: seq<int>)
    requires Safe(s) == true && Runnable(s, hs)
    ensures Run(s, hs).Done? && Safe(Run(s, hs).state) == true
    decreases |hs|
  {
    if hs != [] {
      SafeStep(s, hs[0]);
      WriteOneKeeps(s, hs[0]);
      SafeRun(WriteOne(s, hs[0]).state, hs[1..]);
    }
  }

  // ---------- how many blocks it takes ----------

  /** The sizes the simulator can be set up with. */
  predicate Proper(pageCount: nat, blockCount: nat, homeBlocks: nat)
  {
    && 4 <= pageCount <= 0x8000 && pageCount % 4 == 0
    && 0 < blockCount < NO_BLOCK && pageCount * homeBlocks < INVALID_HPAGE
  }

  lemma {:induction false} NoneValid(n: nat)
    ensures Count(Repeat(n, INVALID_HPAGE)) == 0 && CountFlags(Repeat(n, false)) == 0
  {
    CountZero(Repeat(n, INVALID_HPAGE));
    if n > 0 {
      NoneValid(n - 1);
      assert Repeat(n, false)[..n - 1] == Repeat(n - 1, false);
    }
  }

  lemma {:induction false} NoneValidSum(n: nat, pageCount: nat)
    ensures SumValid(Repeat(n, ErasedBlock(pageCount))) == 0
  {
    if n > 0 {
      NoneValidSum(n - 1, pageCount);
      assert Repeat(n, ErasedBlock(pageCount))[..n - 1] == Repeat(n - 1, ErasedBlock(pageCount));
    }
  }

  lemma PreparedReady(pageCount: nat, blockCount: nat, homeBlocks: nat)
    requires Proper(pageCount, blockCount, homeBlocks)
    ensures Ready(Prepared(pageCount, blockCount, homeBlocks))
    ensures Programs(Prepared(pageCount, blockCount, homeBlocks)) == 0
    ensures Potential(Prepared(pageCount, blockCount, homeBlocks)) == pageCount * blockCount
  {
    hide Repeat;
    var s := Prepared(pageCount, blockCount, homeBlocks);
    NoneValid(pageCount);
    NoneValid(|s.link|);
    NoneValid(homeBlocks);
    NoneValidSum(blockCount, pageCount);
    assert Sized(s) && Inverse(s) && Counted(s);
    assert forall b :: b in s.spares <==> 1 <= b < blockCount by {
      forall b | 1 <= b < blockCount ensures b in s.spares {
        assert s.spares[b - 1] == b;
      }
    }
    TimesNext(pageCount, blockCount - 1);
  }

  lemma PreparedSafe(pageCount: nat, blockCount: nat, homeBlocks: nat)
    requires Proper(pageCount, blockCount, homeBlocks) && blockCount >= 6
    ensures Safe(Prepared(pageCount, blockCount, homeBlocks)) == true
  {
    PreparedReady(pageCount, blockCount, homeBlocks);
    var reserve := if blockCount <= 10 then blockCount else 10;
    assert pageCount * blockCount >= reserve * pageCount;
  }

  /** The home pages a run may write. */
  predicate Runnable(s: State, hs: seq<int>)
  {
    forall i :: 0 <= i < |hs| ==> 0 <= hs[i] < |s.link|
  }

  /** With six blocks or more no run of one-page writes ever finds the cache full. */
  lemma NeverFull(s: State, pageCount: nat, blockCount: nat, homeBlocks: nat, hs: seq<int>)
    requires Proper(pageCount, blockCount, homeBlocks) && blockCount >= 6
    requires s == Prepared(pageCount, blockCount, homeBlocks) && Runnable(s, hs)
    ensures Ready(s) == true && Run(s, hs).Done? && Safe(Run(s, hs).state) == true
  {
    PreparedSafe(pageCount, blockCount, homeBlocks);
    SafeRun(s, hs);
  }

  /** With three spares or fewer nothing is cleaned. */
  ghost predicate Frozen(s: State)
  {
    Ready(s) && |s.spares| <= LEAST_SPARE && s.task == CleanNon
  }

  ghost predicate UnlinkedFrom(s: State, from: int)
  {
    forall h :: 0 <= from <= h < |s.link| ==> s.link[h] == INVALID_HPAGE
  }

  ghost function Room(s: State): int
    requires Core(s)
  {
    s.pageCount * |s.spares| + s.pageCount - s.blocks[s.open].last
  }

  /** The room is used up exactly when one page is free in the open block and no spare is left. */
  lemma RoomLeft(s: State)
    requires Core(s) == true && s.blocks[s.open].last < s.pageCount
    ensures Room(s) >= 1
    ensures Room(s) == 1 <==> s.spares == [] && s.blocks[s.open].last + 1 == s.pageCount
  {
    RoomPositive(s.pageCount, |s.spares|, s.blocks[s.open].last);
  }

  lemma TimesAtLeast(size: nat, n: nat, m: nat)
    requires n >= m
    ensures size * n >= size * m
  {
  }

  lemma RoomPositive(size: nat, n: nat, last: int)
    requires last < size && 4 <= size
    ensures size * n + size - last >= 1
    ensures size * n + size - last == 1 <==> n == 0 && last + 1 == size
  {
    if n >= 1 {
      TimesAtLeast(size, n, 1);
    }
  }

  /** The page is in the open block or nowhere, and no later page is in the cache. */
  ghost predicate Latest(s: State, h: int)
  {
    && 0 <= h < |s.link| && (s.link[h] == INVALID_HPAGE || HiWord(s.link[h]) == s.open)
    && UnlinkedFrom(s, h + 1)
  }

  lemma FrozenWritten(s: State, h: int)
    requires Frozen(s) && Latest(s, h)
    ensures var w := Written(s, h);
      && Core(w) == true && w.spares == s.spares && w.open == s.open && w.task == s.task && w.cleanAt == s.cleanAt
      && w.blocks[w.open].last == s.blocks[s.open].last + 1 && Latest(w, h)
  {
    UnlinkKeeps(s, h);
    UnlinkMoves(s, h);
    WrittenKeeps(s, h);
  }

  /** Then such a page takes up room for good: it can only kill a page of the open block. */
  lemma FrozenPage(s: State, h: int)
    requires Frozen(s) && Latest(s, h)
    ensures Room(s) == 1 ==> WritePage(s, h) == CacheFull
    ensures Room(s) > 1 ==> WritePage(s, h).Done? && Good(WritePage(s, h).state) == true
    ensures Room(s) > 1 ==> FilledBy(s, WritePage(s, h).state, h) == true
  {
    hide WritePage, Counted, Lists;
    RoomLeft(s);
    FrozenWritten(s, h);
    WritePageIs(s, h);
    WritePageKeeps(s, h);
    TimesNext(s.pageCount, |s.spares| - 1);
  }

  /** One page of the room is gone: the open block goes on with the same home page, or the next
      spare is open and the next home page is still out of the cache. */
  ghost predicate FilledBy(s: State, s': State, h: int)
    requires Core(s)
  {
    && Core(s') && SameGeometry(s, s') && Room(s') == Room(s) - 1 && |s'.spares| <= |s.spares|
    && if s.blocks[s.open].last + 1 < s.pageCount
       then |s'.spares| == |s.spares| && s'.blocks[s'.open].last == s.blocks[s.open].last + 1 && Latest(s', h)
       else |s'.spares| == |s.spares| - 1 && s'.blocks[s'.open].last == 0 && UnlinkedFrom(s', h + 1)
  }

  lemma FrozenStep(s: State, h: int)
    requires Frozen(s) == true && Latest(s, h)
    ensures Room(s) >= 1
    ensures Room(s) == 1 ==> WriteOne(s, h) == CacheFull
    ensures Room(s) > 1 ==> WriteOne(s, h).Done? && Frozen(WriteOne(s, h).state) == true
    ensures Room(s) > 1 ==> FilledBy(s, WriteOne(s, h).state, h) == true
  {
    RoomLeft(s);
    FrozenPage(s, h);
    WritePageKeeps(s, h);
    if WritePage(s, h).Done? {
      WritePageFresh(s, h);
      var s1 := WritePage(s, h).state;
      assert Cleaned(s1) == s1;
      WriteOneKeeps(s, h);
    }
  }

  /** Each block filled with one home page, from the open one on, that has `left` free pages. */
  function Layers(h: int, left: nat, spares: nat, pageCount: nat): seq<int>
    decreases spares
  {
    Repeat(left, h) + if spares == 0 then [] else Layers(h + 1, pageCount, spares - 1, pageCount)
  }

  lemma {:induction false} LayersRange(h: int, left: nat, spares: nat, pageCount: nat)
    ensures forall i :: 0 <= i < |Layers(h, left, spares, pageCount)| ==>
      h <= Layers(h, left, spares, pageCount)[i] <= h + spares
    decreases spares
  {
    if spares > 0 {
      LayersRange(h + 1, pageCount, spares - 1, pageCount);
    }
  }

  lemma LayersNext(h: int, left: nat, spares: nat, pageCount: nat)
    requires left >= 1
    ensures var hs := Layers(h, left, spares, pageCount);
      && hs != [] && hs[0] == h
      && (left > 1 ==> hs[1..] == Layers(h, left - 1, spares, pageCount))
      && (left == 1 && spares > 0 ==> hs[1..] == Layers(h + 1, pageCount, spares - 1, pageCount))
  {
    assert Repeat(left, h)[1..] == Repeat(left - 1, h);
  }

  lemma RunStep(s: State, hs: seq<int>)
    requires Ready(s) == true && hs != [] && Runnable(s, hs)
    ensures WriteOne(s, hs[0]).Done? ==>
      var s1 := WriteOne(s, hs[0]).state; Ready(s1) == true && Runnable(s1, hs[1..]) && Run(s, hs) == Run(s1, hs[1..])
    ensures !WriteOne(s, hs[0]).Done? ==> Run(s, hs) == WriteOne(s, hs[0])
  {
    WriteOneKeeps(s, hs[0]);
  }

  /** The free pages of the open block. */
  ghost function Left(s: State): nat
    requires Core(s)
  {
    s.pageCount - s.blocks[s.open].last
  }

  lemma FilledNext(s: State, s1: State, h: int)
    requires Frozen(s) == true && Frozen(s1) == true && FilledBy(s, s1, h) == true
    requires Latest(s, h) && Room(s) > 1 && h + |s.spares| < |s.link|
    ensures |s1.link| == |s.link| && s1.pageCount == s.pageCount && Left(s) >= 1
    ensures Left(s) > 1 ==> Latest(s1, h) == true && |s1.spares| == |s.spares| && Left(s1) == Left(s) - 1
    ensures Left(s) == 1 ==>
      |s.spares| > 0 && Latest(s1, h + 1) == true && |s1.spares| == |s.spares| - 1 && Left(s1) == s.pageCount
  {
    RoomLast(s.pageCount, |s.spares|);
  }

  lemma FrozenIsReady(s: State)
    requires Frozen(s) == true
    ensures Ready(s) == true && Core(s) == true && Left(s) >= 1 && s.pageCount >= 1
  {
  }

  /** Frozen, the blocks fill up one after the other, each with a page of its own. */
  lemma {:induction false} LayersFill(s: State, h: int)
    requires Frozen(s) == true && Latest(s, h) == true && h >= 0 && h + |s.spares| < |s.link|
    ensures Ready(s) == true && Runnable(s, Layers(h, Left(s), |s.spares|, s.pageCount))
    ensures Run(s, Layers(h, Left(s), |s.spares|, s.pageCount)) == CacheFull
    decreases |s.spares|, s.pageCount - s.blocks[s.open].last
  {
    hide Frozen, Latest, FilledBy, Run, WriteOne, Layers, Room, Core, Ready;
    FrozenIsReady(s);
    var hs := Layers(h, Left(s), |s.spares|, s.pageCount);
    LayersRange(h, Left(s), |s.spares|, s.pageCount);
    LayersNext(h, Left(s), |s.spares|, s.pageCount);
    FrozenStep(s, h);
    RunStep(s, hs);
    if Room(s) > 1 {
      var s1 := WriteOne(s, h).state;
      FilledNext(s, s1, h);
      FrozenIsReady(s1);
      LayersFill(s1, if Left(s) > 1 then h else h + 1);
    }
  }

  lemma RoomLast(size: nat, n: nat)
    ensures size * n + 1 > 1 ==> n > 0
  {
  }

  /** Five blocks, one of them cached and being filled with home page 0. */
  ghost predicate FirstOfFive(s: State)
  {
    Ready(s) && |s.blocks| == 5 && |s.caches| == 1 && s.task == CleanNon && UnlinkedFrom(s, 1)
  }

  lemma {:induction false} CleanPagesUnlink(s: State, at: int, count: nat, from: int)
    requires Good(s) == true && 0 <= at && at + count <= |s.link| && UnlinkedFrom(s, from)
    ensures Good(CleanPages(s, at, count)) == true && UnlinkedFrom(CleanPages(s, at, count), from)
    ensures CleanPages(s, at, count).open == s.open
    ensures CleanPages(s, at, count).blocks[s.open].last == s.blocks[s.open].last
    decreases count
  {
    hide Core;
    if count > 0 {
      CleanPageKeeps(s, at);
      UnlinkKeeps(s, at);
      CleanPagesUnlink(CleanPage(s, at), at + 1, count - 1, from);
    }
  }

  lemma FirstCleaned(s: State)
    requires Good(s) == true && CleaningOk(s) && Fresh(s) && |s.blocks| == 5 && |s.caches| == 1
    requires s.task == CleanNon && UnlinkedFrom(s, 1)
    ensures FirstOfFive(Cleaned(s)) && SameGeometry(s, Cleaned(s)) && Cleaned(s).open == s.open
    ensures Cleaned(s).blocks[s.open].last == s.blocks[s.open].last
  {
    CleanedByForce(s);
    CleanInRange(s);
    CleanPagesUnlink(s, CleanStart(s), CleanCount(s), 1);
  }

  /** Writing page 0 fills the block, and then three spares are left and nothing is cleaned. */
  lemma FirstStep(s: State)
    requires FirstOfFive(s) == true && |s.link| >= 5
    ensures WriteOne(s, 0).Done? && SameGeometry(s, WriteOne(s, 0).state) == true
    ensures var s' := WriteOne(s, 0).state; var last := s.blocks[s.open].last;
      if last + 1 < s.pageCount then FirstOfFive(s') == true && s'.open == s.open && s'.blocks[s'.open].last == last + 1
      else Frozen(s') == true && Latest(s', 1) == true && |s'.spares| == 3 && s'.blocks[s'.open].last == 0
  {
    hide SameGeometry, WritePage, Counted, FindHblockToClean;
    WritePageIs(s, 0);
    WrittenKeeps(s, 0);
    WriteOneKeeps(s, 0);
    WritePageKeeps(s, 0);
    UnlinkMoves(s, 0);
    var w := Written(s, 0);
    assert s.caches == [s.open];
    assert w.caches == s.caches && |w.spares| == 4;
    WritePageFresh(s, 0);
    var s1 := WritePage(s, 0).state;
    if w.blocks[s.open].last < s.pageCount {
      FirstCleaned(s1);
    } else {
      assert Cleaned(s1) == s1;
    }
  }

  lemma FiveIsReady(s: State)
    requires FirstOfFive(s) == true
    ensures Ready(s) == true && Core(s) == true && Left(s) >= 1 && s.pageCount >= 1
  {
  }

  lemma {:induction false} FiveFill(s: State, n: nat)
    requires FirstOfFive(s) == true && |s.link| >= 5 && n == s.pageCount - s.blocks[s.open].last
    ensures var hs := Repeat(n, 0) + Layers(1, s.pageCount, 3, s.pageCount);
      Ready(s) == true && Runnable(s, hs) && Run(s, hs) == CacheFull
    decreases n
  {
    hide Frozen, Latest, Run, WriteOne, Layers, Core, Ready, Good, Room;
    FiveIsReady(s);
    var rest := Layers(1, s.pageCount, 3, s.pageCount);
    var hs := Repeat(n, 0) + rest;
    LayersRange(1, s.pageCount, 3, s.pageCount);
    FirstStep(s);
    RunStep(s, hs);
    var s' := WriteOne(s, 0).state;
    assert hs[1..] == Repeat(n - 1, 0) + rest;
    if n == 1 {
      assert Repeat(0, 0) + rest == rest;
      FrozenIsReady(s');
      LayersFill(s', 1);
    } else {
      FiveFill(s', n - 1);
    }
  }

  /** With at most five blocks, and a home page for each, some run finds the cache full. */
  lemma CanFill(s: State, pageCount: nat, blockCount: nat, homeBlocks: nat) returns (hs: seq<int>)
    requires Proper(pageCount, blockCount, homeBlocks) && blockCount <= 5 && pageCount * homeBlocks >= blockCount
    requires s == Prepared(pageCount, blockCount, homeBlocks)
    ensures Runnable(s, hs) && Ready(s) == true && Run(s, hs) == CacheFull
  {
    hide Proper;
    PreparedReady(pageCount, blockCount, homeBlocks);
    if blockCount == 5 {
      hs := Repeat(pageCount, 0) + Layers(1, pageCount, 3, pageCount);
      FiveFill(s, pageCount);
    } else {
      hs := Layers(0, pageCount, blockCount - 1, pageCount);
      LayersFill(s, 0);
    }
  }

  lemma {:induction false} SumAtLeast(blocks: seq<Block>)
    requires forall b {:trigger blocks[b]} | 0 <= b < |blocks| :: blocks[b].valid >= 1
    ensures SumValid(blocks) >= |blocks|
  {
    if blocks != [] {
      SumAtLeast(blocks[..|blocks| - 1]);
    }
  }

  /** A full cache has a live page in every block, and so a home page for each. */
  lemma FullHasPages(s: State, h: int)
    requires Ready(s) && 0 <= h < |s.link| && WriteOne(s, h) == CacheFull
    ensures |s.blocks| <= |s.link|
  {
    WritePageIs(s, h);
    WrittenKeeps(s, h);
    var w := Written(s, h);
    forall b | 0 <= b < |w.blocks| ensures w.blocks[b].valid >= 1 {
      assert b in w.caches || b in w.spares;
    }
    SumAtLeast(w.blocks);
    CountZero(w.link);
  }

  lemma {:induction false} RunFullHasPages(s: State, hs: seq<int>)
    requires Ready(s) == true && Runnable(s, hs) && Run(s, hs) == CacheFull
    ensures |s.blocks| <= |s.link|
    decreases |hs|
  {
    if hs != [] {
      RunStep(s, hs);
      WriteOneKeeps(s, hs[0]);
      if WriteOne(s, hs[0]).Done? {
        RunFullHasPages(WriteOne(s, hs[0]).state, hs[1..]);
      } else {
        FullHasPages(s, hs[0]);
      }
    }
  }

  /** The cache can fill up exactly when there are fewer than six blocks, and a home page for
      each of them. */
  lemma FullOnlyWithFewBlocks(s: State, pageCount: nat, blockCount: nat, homeBlocks: nat)
    requires Proper(pageCount, blockCount, homeBlocks)
    requires s == Prepared(pageCount, blockCount, homeBlocks)
    ensures Ready(s) == true
    ensures (exists hs :: Runnable(s, hs) && Run(s, hs) == CacheFull)
      <==> blockCount < 6 && blockCount <= pageCount * homeBlocks
  {
    PreparedReady(pageCount, blockCount, homeBlocks);
    if blockCount < 6 && blockCount <= pageCount * homeBlocks {
      var hs := CanFill(s, pageCount, blockCount, homeBlocks);
    } else {
      forall hs | Runnable(s, hs) ensures Run(s, hs) != CacheFull {
        if blockCount >= 6 {
          NeverFull(s, pageCount, blockCount, homeBlocks, hs);
        } else if Run(s, hs) == CacheFull {
          RunFullHasPages(s, hs);
        }
      }
    }
  }
}
