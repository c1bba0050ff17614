/** What a host write leaves in the cache: the pages it covers come in, and cleaning takes a quarter
    of a home block out, or the rest of one, by the number of spares. */
module Cleaning {
  import opened FlashCache

  // ---------- what is written ----------

  lemma WritePageLink(s: State, h: int)
    requires Good(s) == true && 0 <= h < |s.link| && WritePage(s, h).Done?
    ensures Alike(s, WritePage(s, h).state) == true && 0 <= h / s.pageCount < |s.flags|
    ensures var s' := WritePage(s, h).state;
      && |s'.link| == |s.link| && s'.link[h] != INVALID_HPAGE && s'.link == s.link[h := s'.link[h]]
      && s'.flags == s.flags[h / s.pageCount := true]
  {
    hide Inverse, Counted, Lists, Fills, WritePage;
    WritePageKeeps(s, h);
    WritePageIs(s, h);
    UnlinkKeeps(s, h);
    HomeBlockInRange(s, h);
  }

  /** The pages from `from` up to `to` are in the cache now, and their home blocks are flagged;
      everything else is as it was. */
  ghost predicate Puts(s: State, s': State, from: int, to: int)
  {
    && SameGeometry(s, s') && s.pageCount > 0
    && (forall h :: 0 <= h < |s.link| ==>
      if from <= h < to then s'.link[h] != INVALID_HPAGE else s'.link[h] == s.link[h])
    && (forall k :: 0 <= k < |s.flags| ==>
      (s'.flags[k] <==> s.flags[k] || exists h :: from <= h < to && h / s.pageCount == k))
  }

  lemma PutsNext(s: State, s1: State, s': State, h: int, to: int)
    requires Good(s) == true && 0 <= h < to <= |s.link| && SameGeometry(s, s1) && 0 <= h / s.pageCount < |s.flags|
    requires s1.link == s.link[h := s1.link[h]] && s1.link[h] != INVALID_HPAGE
    requires s1.flags == s.flags[h / s.pageCount := true] && Puts(s1, s', h + 1, to)
    ensures Puts(s, s', h, to)
  {
    forall k | 0 <= k < |s.flags|
      ensures s'.flags[k] <==> s.flags[k] || exists g :: h <= g < to && g / s.pageCount == k
    {
    }
  }

  /** Writing pages puts exactly these into the cache. */
  lemma {:induction false} WritePagesPut(s: State, h: int, count: nat)
    requires Good(s) == true && 0 <= h && h + count <= |s.link| && WritePages(s, h, count).Done?
    ensures Puts(s, WritePages(s, h, count).state, h, h + count) == true
    decreases count
  {
    hide WritePage, Puts;
    if count > 0 {
      WritePageLink(s, h);
      var s1 := WritePage(s, h).state;
      WritePagesPut(s1, h + 1, count - 1);
      PutsNext(s, s1, WritePages(s1, h + 1, count - 1).state, h, h + count);
    } else {
      PutsNothing(s, h);
    }
  }

  lemma PutsNothing(s: State, h: int)
    requires Good(s) == true
    ensures Puts(s, s, h, h) == true
  {
  }

  // ---------- what is cleaned ----------

  lemma CleanPageLink(s: State, h: int)
    requires Good(s) == true && 0 <= h < |s.link|
    ensures Alike(s, CleanPage(s, h)) == true && CleanPage(s, h).link == s.link[h := INVALID_HPAGE]
    ensures 0 <= h / s.pageCount < |s.flags|
    ensures CleanPage(s, h).flags ==
      if h % s.pageCount == s.pageCount - 1 then s.flags[h / s.pageCount := false] else s.flags
  {
    hide Inverse, Counted, Lists, Fills;
    CleanPageKeeps(s, h);
    UnlinkKeeps(s, h);
    HomeBlockInRange(s, h);
  }

  /** The pages from `from` up to `to`, all of one home block, are out of the cache, and if that is
      the end of the home block its flag is taken back; everything else is as it was. */
  ghost predicate TakesOut(s: State, s': State, from: int, to: int)
  {
    && SameGeometry(s, s') && s.pageCount > 0 && 0 <= from <= to <= |s.link|
    && (forall h :: 0 <= h < |s.link| ==> s'.link[h] == if from <= h < to then INVALID_HPAGE else s.link[h])
    && (forall k :: 0 <= k < |s.flags| ==>
      s'.flags[k] == (s.flags[k] && !(from < to == s.pageCount * (k + 1))))
  }

  lemma LastOfBlock(h: int, size: int, k: int)
    requires size > 0
    ensures h + 1 == size * (k + 1) <==> h % size == size - 1 && h / size == k
  {
    assert h == size * (h / size) + h % size;
    assert size * (k + 1) == size * k + size;
    if h % size == size - 1 && h / size == k {
    } else if h + 1 == size * (k + 1) {
      DivModUnique(h, k, size - 1, size);
    }
  }

  lemma TakesOutNext(s: State, s1: State, s': State, at: int, to: int)
    requires Good(s) == true && 0 <= at < to <= |s.link| && SameGeometry(s, s1)
    requires at % s.pageCount + (to - at) <= s.pageCount && 0 <= at / s.pageCount < |s.flags|
    requires s1.link == s.link[at := INVALID_HPAGE]
    requires s1.flags == if at % s.pageCount == s.pageCount - 1 then s.flags[at / s.pageCount := false] else s.flags
    requires TakesOut(s1, s', at + 1, to)
    ensures TakesOut(s, s', at, to)
  {
    forall k | 0 <= k < |s.flags|
      ensures s'.flags[k] == (s.flags[k] && !(at < to == s.pageCount * (k + 1)))
    {
      LastOfBlock(at, s.pageCount, k);
    }
  }

  lemma {:induction false} CleanPagesTakeOut(s: State, at: int, count: nat)
    requires Good(s) == true && 0 <= at && at + count <= |s.link| && at % s.pageCount + count <= s.pageCount
    ensures TakesOut(s, CleanPages(s, at, count), at, at + count) == true
    decreases count
  {
    hide CleanPage, TakesOut;
    if count > 0 {
      CleanPageLink(s, at);
      var s1 := CleanPage(s, at);
      if count > 1 {
        ModPlus(at, s.pageCount, 1);
        CleanPagesTakeOut(s1, at + 1, count - 1);
      } else {
        TakesNothing(s1, at + 1);
      }
      TakesOutNext(s, s1, CleanPages(s1, at + 1, count - 1), at, at + count);
    } else {
      TakesNothing(s, at);
    }
  }

  lemma TakesNothing(s: State, at: int)
    requires Good(s) == true && 0 <= at <= |s.link|
    ensures TakesOut(s, s, at, at) == true
  {
  }

  // ---------- which pages are cleaned ----------

  ghost predicate FirstLive(pages: seq<int>, h: int)
  {
    exists p | 0 <= p < |pages| :: pages[p] == h && forall q :: 0 <= q < p ==> pages[q] == INVALID_HPAGE
  }

  /** The home page in the first live slot of the block that has been cached longest. */
  ghost predicate OldestLive(s: State, h: int)
  {
    && s.caches != [] && 0 <= s.caches[0] < |s.blocks| && h != INVALID_HPAGE
    && FirstLive(s.blocks[s.caches[0]].pages, h)
  }

  /** The pages up to `to` are taken out; the task is done if that is the end of the home block, and
      otherwise stands there. */
  ghost predicate CleansTo(s: State, s': State, from: int, to: int)
  {
    && TakesOut(s, s', from, to)
    && if to % s.pageCount == 0 then s'.task == CleanNon && s'.cleanAt == INVALID_HPAGE
       else s'.task == CleanPartial && s'.cleanAt == to
  }

  /** So many pages of the home block of `h` are taken out, from its first one on. */
  ghost predicate CleansHome(s: State, s': State, h: int, count: int)
    requires s.pageCount > 0
  {
    CleansTo(s, s', h - h % s.pageCount, h - h % s.pageCount + count)
  }

  /** What cleaning does, by the number of spares: from ten to nine and one for each quarter block in
      the range, a quarter of the home block of the oldest live page; with four to nine, all of it;
      otherwise nothing. A task under way goes on by a quarter, or to the end with four to nine. */
  ghost predicate CleansSo(s: State, s': State)
    requires s.pageCount >= 4
  {
    var spares, quarter := |s.spares|, s.pageCount / 4;
    if s.task == CleanNon then
      if spares <= 3 || (spares > 9 && spares > s.range / quarter + 9) then s' == s
      else exists h :: OldestLive(s, h) && CleansHome(s, s', h, if spares > 9 then quarter else s.pageCount)
    else
      CleansTo(s, s', s.cleanAt,
        if 3 < spares <= 9 then s.cleanAt - s.cleanAt % s.pageCount + s.pageCount else s.cleanAt + quarter)
  }

  lemma OldestIs(s: State)
    requires Good(s) && Fresh(s)
    ensures OldestLive(s, Oldest(s)) == true && 0 <= Oldest(s) < |s.link|
  {
    OldestIsLive(s);
    var blk := s.blocks[s.caches[0]];
    FirstValidIs(blk.pages, 0, blk.last);
  }

  lemma CleanedTo(s: State)
    requires Good(s) && CleaningOk(s) && Fresh(s) && TaskFor(s) != CleanNon
    ensures CleansTo(s, Cleaned(s), CleanStart(s), CleanStart(s) + CleanCount(s)) == true
  {
    hide CleanPages, TakesOut, Inverse, Counted, Lists, Fills, TaskFor, CleanStart, CleanCount;
    CleanInRange(s);
    StandsAtQuarter(s);
    var at, count := CleanStart(s), CleanCount(s);
    CleanPagesTakeOut(s, at, count);
    TakesOutBut(s, CleanPages(s, at, count), Cleaned(s), at, at + count);
  }

  lemma CleanedSo(s: State)
    requires Good(s) && CleaningOk(s) && Fresh(s)
    ensures s.pageCount >= 4 && CleansSo(s, Cleaned(s)) == true
  {
    hide CleansTo, Inverse, Counted, Lists, Fills, OldestLive, Oldest;
    OldestIs(s);
    if TaskFor(s) != CleanNon {
      CleanedTo(s);
      HomeBlockEnd(Oldest(s), s.pageCount, |s.flags|);
      if s.task == CleanNon {
        assert CleansHome(s, Cleaned(s), Oldest(s), CleanCount(s));
      }
    }
  }

  lemma TakesOutBut(s: State, s1: State, s': State, from: int, to: int)
    requires TakesOut(s, s1, from, to) && s' == s1.(cleanAt := s'.cleanAt, task := s'.task)
    ensures TakesOut(s, s', from, to) == true
  {
  }

  /** A host write puts the pages that it covers into the cache, and then cleans by those rules. */
  lemma SectorWriteDoes(s: State, sectorPerPage: int, lba: int, sectors: int) returns (written: State)
    requires Ready(s) == true && sectorPerPage > 0 && lba >= 0 && sectors >= 1
    requires SectorWrite(s, sectorPerPage, lba, sectors).Done?
    ensures Good(written) && written.task == s.task && written.cleanAt == s.cleanAt
    ensures Puts(s, written, lba / sectorPerPage, (lba + sectors - 1) / sectorPerPage + 1) == true
    ensures CleansSo(written, SectorWrite(s, sectorPerPage, lba, sectors).state) == true
  {
    hide WritePages, Cleaned, Puts, CleansSo, Inverse, Counted, Lists, Fills;
    var first, last := lba / sectorPerPage, (lba + sectors - 1) / sectorPerPage;
    PagesAscend(sectorPerPage, lba, sectors);
    written := WritePages(s, first, last - first + 1).state;
    WritePagesKeep(s, first, last - first + 1);
    WritePagesPut(s, first, last - first + 1);
    CleanedSo(written);
  }

  // ---------- the order in which blocks are used ----------

  /** The cached blocks, the oldest first, and then the spares, the next to be opened first. */
  function Order(s: State): seq<int>
  {
    s.caches + s.spares
  }

  /** At first the blocks are used by number. */
  lemma PreparedOrder(pageCount: nat, blockCount: nat, homeBlocks: nat)
    requires blockCount > 0
    ensures |Order(Prepared(pageCount, blockCount, homeBlocks))| == blockCount
    ensures forall b :: 0 <= b < blockCount ==> Order(Prepared(pageCount, blockCount, homeBlocks))[b] == b
  {
  }

  /** The order after these blocks were erased, one after the other: each goes to its end. */
  function Requeued(order: seq<int>, erased: seq<int>): seq<int>
    decreases |erased|
  {
    if erased == [] then order else Requeued(Remove(order, erased[0]) + [erased[0]], erased[1..])
  }

  /** The blocks erased in between, and nothing else, changed the order. */
  ghost predicate QueuesOn(s: State, s': State)
  {
    exists erased :: |erased| == s'.erases - s.erases && Order(s') == Requeued(Order(s), erased)
  }

  lemma {:induction false} RequeuedOn(order: seq<int>, a: seq<int>, b: seq<int>)
    ensures Requeued(order, a + b) == Requeued(Requeued(order, a), b)
    decreases |a|
  {
    if a == [] {
      assert a + b == b;
    } else {
      assert (a + b)[0] == a[0] && (a + b)[1..] == a[1..] + b;
      RequeuedOn(Remove(order, a[0]) + [a[0]], a[1..], b);
    }
  }

  lemma QueuesTwice(a: State, b: State, c: State)
    requires QueuesOn(a, b) && QueuesOn(b, c)
    ensures QueuesOn(a, c) == true
  {
    var first :| |first| == b.erases - a.erases && Order(b) == Requeued(Order(a), first);
    var second :| |second| == c.erases - b.erases && Order(c) == Requeued(Order(b), second);
    RequeuedOn(Order(a), first, second);
    assert |first + second| == c.erases - a.erases && Order(c) == Requeued(Order(a), first + second);
  }

  lemma SameOrder(s: State, s': State)
    requires Order(s') == Order(s) && s'.erases == s.erases
    ensures QueuesOn(s, s') == true
  {
    var none: seq<int> := [];
    assert |none| == s'.erases - s.erases && Order(s') == Requeued(Order(s), none);
  }

  lemma {:induction false} RemoveFromFirst(a: seq<int>, b: seq<int>, x: int)
    requires x !in b
    ensures Remove(a + b, x) == Remove(a, x) + b
    decreases |a|
  {
    if a == [] {
      assert a + b == b;
      RemoveNothing(b, x);
    } else {
      assert (a + b)[0] == a[0] && (a + b)[1..] == a[1..] + b;
      RemoveFromFirst(a[1..], b, x);
    }
  }

  lemma {:induction false} RemoveNothing(b: seq<int>, x: int)
    requires x !in b
    ensures Remove(b, x) == b
    decreases |b|
  {
    if b != [] {
      RemoveNothing(b[1..], x);
    }
  }

  lemma UnlinkQueues(s: State, h: int)
    requires Core(s) && 0 <= h < |s.link|
    ensures QueuesOn(s, Unlink(s, h)) == true
  {
    var s' := Unlink(s, h);
    if s'.erases == s.erases {
      UnlinkMoves(s, h);
      SameOrder(s, s');
    } else {
      UnlinkMoves(s, h);
      var b := HiWord(s.link[h]);
      assert s'.spares == s.spares + [b];
      RemoveFromFirst(s.caches, s.spares, b);
      OneRequeued(s, s', b);
    }
  }

  lemma OneRequeued(s: State, s': State, b: int)
    requires Order(s') == Remove(Order(s), b) + [b] && s'.erases == s.erases + 1
    ensures QueuesOn(s, s') == true
  {
    var one := [b];
    assert one[1..] == [];
    assert Requeued(Order(s), one) == Requeued(Remove(Order(s), b) + [b], []);
    assert |one| == s'.erases - s.erases && Order(s') == Requeued(Order(s), one);
  }

  lemma WritePageQueues(s: State, h: int)
    requires Good(s) == true && 0 <= h < |s.link| && WritePage(s, h).Done?
    ensures QueuesOn(s, WritePage(s, h).state) == true
  {
    hide QueuesOn, WritePage, Inverse, Counted, Lists, Fills;
    WritePageIs(s, h);
    UnlinkKeeps(s, h);
    UnlinkQueues(s, h);
    var w := Written(s, h);
    assert Order(w) == Order(Unlink(s, h)) && w.erases == Unlink(s, h).erases;
    SameOrder(Unlink(s, h), w);
    QueuesTwice(s, Unlink(s, h), w);
    if WritePage(s, h).state != w {
      assert w.spares == [w.spares[0]] + w.spares[1..];
      SameOrder(w, WritePage(s, h).state);
      QueuesTwice(s, w, WritePage(s, h).state);
    }
  }

  lemma {:induction false} WritePagesQueue(s: State, h: int, count: nat)
    requires Good(s) == true && 0 <= h && h + count <= |s.link| && WritePages(s, h, count).Done?
    ensures QueuesOn(s, WritePages(s, h, count).state) == true
    decreases count
  {
    hide QueuesOn, WritePage, Inverse, Counted, Lists, Fills;
    if count > 0 {
      WritePageKeeps(s, h);
      WritePageQueues(s, h);
      var s1 := WritePage(s, h).state;
      WritePagesQueue(s1, h + 1, count - 1);
      QueuesTwice(s, s1, WritePages(s1, h + 1, count - 1).state);
    } else {
      SameOrder(s, s);
    }
  }

  lemma {:induction false} CleanPagesQueue(s: State, at: int, count: nat)
    requires Good(s) == true && 0 <= at && at + count <= |s.link|
    ensures QueuesOn(s, CleanPages(s, at, count)) == true
    decreases count
  {
    hide QueuesOn, CleanPage, Inverse, Counted, Lists, Fills;
    if count > 0 {
      CleanPageKeeps(s, at);
      UnlinkKeeps(s, at);
      var s1 := CleanPage(s, at);
      UnlinkQueues(s, at);
      SameOrder(Unlink(s, at), s1);
      QueuesTwice(s, Unlink(s, at), s1);
      CleanPagesQueue(s1, at + 1, count - 1);
      QueuesTwice(s, s1, CleanPages(s1, at + 1, count - 1));
    } else {
      SameOrder(s, s);
    }
  }

  /** Blocks are opened in the order of their last erasure, and are the oldest in that order too: a
      host write changes the order only by moving each block that it erases to the end. */
  lemma SectorWriteQueues(s: State, sectorPerPage: int, lba: int, sectors: int)
    requires Ready(s) == true && sectorPerPage > 0 && lba >= 0 && sectors >= 1
    requires SectorWrite(s, sectorPerPage, lba, sectors).Done?
    ensures QueuesOn(s, SectorWrite(s, sectorPerPage, lba, sectors).state) == true
  {
    hide QueuesOn, WritePages, CleanPages, Inverse, Counted, Lists, Fills;
    var first, last := lba / sectorPerPage, (lba + sectors - 1) / sectorPerPage;
    PagesAscend(sectorPerPage, lba, sectors);
    var w := WritePages(s, first, last - first + 1).state;
    WritePagesKeep(s, first, last - first + 1);
    WritePagesQueue(s, first, last - first + 1);
    CleanInRange(w);
    if TaskFor(w) != CleanNon {
      var c := CleanPages(w, CleanStart(w), CleanCount(w));
      CleanPagesQueue(w, CleanStart(w), CleanCount(w));
      SameOrder(c, Cleaned(w));
      QueuesTwice(w, c, Cleaned(w));
      QueuesTwice(s, w, Cleaned(w));
    }
  }

  // ---------- what the range counts ----------

  /** Every home block with a page in the cache is flagged, and so counted in the range. */
  ghost predicate Covered(s: State)
  {
    s.pageCount > 0 && forall h {:trigger s.link[h]} | 0 <= h < |s.link| && s.link[h] != INVALID_HPAGE ::
      0 <= h / s.pageCount < |s.flags| && s.flags[h / s.pageCount]
  }

  lemma PutsCovers(s: State, s': State, from: int, to: int)
    requires Covered(s) && Puts(s, s', from, to) && Good(s') == true
    ensures Covered(s') == true
  {
    forall h | 0 <= h < |s'.link| && s'.link[h] != INVALID_HPAGE
      ensures 0 <= h / s.pageCount < |s'.flags| && s'.flags[h / s.pageCount]
    {
      HomeBlockInRange(s', h);
    }
  }

  /** A page of the home block of `at`, before that page, is in the cache. */
  ghost predicate LiveBefore(s: State, at: int)
    requires s.pageCount > 0
  {
    exists h :: 0 <= h < |s.link| && h < at && h / s.pageCount == at / s.pageCount && s.link[h] != INVALID_HPAGE
  }

  /** Cleaning leaves a home block out of the range although it has pages in the cache, if and only
      if it ends in that home block behind such pages. */
  lemma CoveredExactly(s: State, s': State, from: int, to: int)
    requires Covered(s) && TakesOut(s, s', from, to) && Good(s) == true
    requires from < to ==> from % s.pageCount + (to - from) <= s.pageCount
    ensures Covered(s') <==> !(from < to && to % s.pageCount == 0 && LiveBefore(s, from))
  {
    if from < to && to % s.pageCount == 0 {
      var k := from / s.pageCount;
      BlockEnd(from, to, s.pageCount);
      assert to == s.pageCount * (k + 1);
      HomeBlockInRange(s, from);
      if h :| 0 <= h < |s.link| && h < from && h / s.pageCount == k && s.link[h] != INVALID_HPAGE {
        assert s'.link[h] != INVALID_HPAGE && !s'.flags[h / s.pageCount];
      } else {
        forall h | 0 <= h < |s.link| && s'.link[h] != INVALID_HPAGE
          ensures 0 <= h / s.pageCount < |s'.flags| && s'.flags[h / s.pageCount]
        {
          assert s.link[h] != INVALID_HPAGE && !(from <= h < to);
          if h / s.pageCount == k {
            InBlock(h, k, s.pageCount);
          }
          OtherEnd(s.pageCount, k, h / s.pageCount);
        }
      }
    } else if from < to {
      forall k | 0 <= k < |s.flags| ensures s'.flags[k] == s.flags[k] {
        MultipleEnds(s.pageCount, k + 1);
      }
    }
  }

  lemma BlockEnd(from: int, to: int, size: int)
    requires size > 0 && 0 <= from < to && from % size + (to - from) <= size && to % size == 0
    ensures to == size * (from / size + 1)
  {
    ModPlus(from, size, to - from);
    TimesNext(size, from / size);
  }

  lemma InBlock(h: int, k: int, size: int)
    requires size > 0 && h / size == k
    ensures size * k <= h < size * (k + 1)
  {
    TimesNext(size, k);
  }

  lemma OtherEnd(size: int, k: int, j: int)
    requires size > 0 && k != j
    ensures size * (k + 1) != size * (j + 1)
  {
    DivModUnique(size * (k + 1), k + 1, 0, size);
    DivModUnique(size * (j + 1), j + 1, 0, size);
  }

  lemma MultipleEnds(size: int, n: int)
    requires size > 0
    ensures size * n % size == 0
  {
    DivModUnique(size * n, n, 0, size);
  }

  lemma NoneBeforeStart(s: State, h: int)
    requires s.pageCount > 0 && 0 <= h
    ensures !LiveBefore(s, h - h % s.pageCount)
  {
    var k := h / s.pageCount;
    DivModUnique(h - h % s.pageCount, k, 0, s.pageCount);
    forall g | 0 <= g && g / s.pageCount == k ensures g >= h - h % s.pageCount {
      InBlock(g, k, s.pageCount);
    }
  }

  /** The task under way ends with this write. */
  predicate Ends(s: State)
    requires s.pageCount >= 4
  {
    s.task != CleanNon && (3 < |s.spares| <= 9 || (s.cleanAt + s.pageCount / 4) % s.pageCount == 0)
  }

  lemma CleansCover(s: State, s': State)
    requires Good(s) && CleaningOk(s) && Covered(s) && CleansSo(s, s')
    ensures Covered(s') <==> !(Ends(s) && LiveBefore(s, s.cleanAt))
  {
    hide TakesOut, Covered, LiveBefore, Inverse, Counted, Lists, Fills;
    if s.task == CleanNon {
      if s' != s {
        var h :| OldestLive(s, h) && CleansHome(s, s', h, if |s.spares| > 9 then s.pageCount / 4 else s.pageCount);
        OldestInTable(s, h);
        HomeBlockEnd(h, s.pageCount, |s.flags|);
        NoneBeforeStart(s, h);
        CoveredExactly(s, s', h - h % s.pageCount,
          h - h % s.pageCount + if |s.spares| > 9 then s.pageCount / 4 else s.pageCount);
      }
    } else {
      var k :| 1 <= k <= 3 && s.cleanAt % s.pageCount == k * (s.pageCount / 4);
      HomeBlockEnd(s.cleanAt, s.pageCount, |s.flags|);
      CoveredExactly(s, s', s.cleanAt, if 3 < |s.spares| <= 9 then s.cleanAt - s.cleanAt % s.pageCount + s.pageCount
        else s.cleanAt + s.pageCount / 4);
    }
  }

  lemma OldestInTable(s: State, h: int)
    requires Good(s) && OldestLive(s, h)
    ensures 0 <= h < |s.link| && s.link[h] != INVALID_HPAGE
  {
    var pages := s.blocks[s.caches[0]].pages;
    var p :| 0 <= p < |pages| && pages[p] == h;
    assert PageAt(s, s.caches[0], p);
  }

  /** The range misses a home block with pages in the cache, if and only if a partial cleaning ends in
      it while a page that it had passed by is in the cache again. */
  lemma RangeMisses(s: State, sectorPerPage: int, lba: int, sectors: int) returns (written: State)
    requires Ready(s) == true && Covered(s) && sectorPerPage > 0 && lba >= 0 && sectors >= 1
    requires SectorWrite(s, sectorPerPage, lba, sectors).Done?
    ensures Good(written) && written.task == s.task && written.cleanAt == s.cleanAt
    ensures Puts(s, written, lba / sectorPerPage, (lba + sectors - 1) / sectorPerPage + 1) == true
    ensures Covered(SectorWrite(s, sectorPerPage, lba, sectors).state) <==>
      !(Ends(written) && LiveBefore(written, s.cleanAt))
  {
    hide SectorWrite, Puts, CleansSo, Covered, LiveBefore, Inverse, Counted, Lists, Fills;
    written := SectorWriteDoes(s, sectorPerPage, lba, sectors);
    assert |written.link| == |s.link| && written.pageCount == s.pageCount by {
      PutsSame(s, written, lba / sectorPerPage, (lba + sectors - 1) / sectorPerPage + 1);
    }
    PutsCovers(s, written, lba / sectorPerPage, (lba + sectors - 1) / sectorPerPage + 1);
    CleansCover(written, SectorWrite(s, sectorPerPage, lba, sectors).state);
  }

  lemma PutsSame(s: State, s': State, from: int, to: int)
    requires Puts(s, s', from, to)
    ensures SameGeometry(s, s')
  {
  }

  // ---------- a run on which it does ----------

  /** Two home blocks, eleven cache blocks of four pages, and so far only the first is in use. */
  ghost predicate InFirst(s: State, last: int)
  {
    && Ready(s) && s.pageCount == 4 && |s.flags| == 2 && |s.blocks| == 11 && |s.caches| == 1
    && s.blocks[s.open].last == last
  }

  lemma UnlinkInFirst(s: State, h: int)
    requires Core(s) && 0 <= h < |s.link| && |s.caches| == 1
    ensures Core(Unlink(s, h)) && Unlink(s, h).caches == s.caches && Unlink(s, h).spares == s.spares
  {
    UnlinkKeeps(s, h);
    UnlinkMoves(s, h);
    assert s.caches == [s.open];
  }

  lemma {:induction false} CleanInFirst(s: State, at: int, count: nat)
    requires Good(s) == true && 0 <= at && at + count <= |s.link| && |s.caches| == 1
    ensures var s' := CleanPages(s, at, count);
      Good(s') == true && s'.caches == s.caches && s'.open == s.open && s'.blocks[s.open].last == s.blocks[s.open].last
    decreases count
  {
    hide Inverse, Counted, Lists, Fills, CleanPage;
    if count > 0 {
      CleanPageKeeps(s, at);
      UnlinkKeeps(s, at);
      UnlinkInFirst(s, at);
      CleanInFirst(CleanPage(s, at), at + 1, count - 1);
    }
  }

  lemma CleanedInFirst(s: State)
    requires Good(s) && CleaningOk(s) && Fresh(s) && |s.caches| == 1
    ensures var s' := Cleaned(s);
      Ready(s') == true && |s'.caches| == 1 && SameGeometry(s, s') && s'.open == s.open
      && s'.blocks[s.open].last == s.blocks[s.open].last
  {
    hide Inverse, Counted, Lists, Fills, CleanPages;
    CleanInRange(s);
    CleanedKeeps(s);
    if TaskFor(s) != CleanNon {
      CleanInFirst(s, CleanStart(s), CleanCount(s));
    }
  }

  /** A one-page write: the page comes in, ten spares are left, or nine behind the fourth write, and
      cleaning goes on. */
  lemma WriteInFirst(s: State, last: int, h: int) returns (written: State)
    requires InFirst(s, last) && 0 <= last < 4 && 0 <= h < 8
    ensures WriteOne(s, h).Done? && Good(written) && written.pageCount == 4
    ensures written.task == s.task && written.cleanAt == s.cleanAt && |written.spares| == if last == 3 then 9 else 10
    ensures Puts(s, written, h, h + 1) == true && CleansSo(written, WriteOne(s, h).state) == true
    ensures last < 3 ==> InFirst(WriteOne(s, h).state, last + 1) == true
  {
    hide Inverse, Counted, Fills, Puts, CleansSo, WritePage;
    WritePageIs(s, h);
    WrittenKeeps(s, h);
    UnlinkInFirst(s, h);
    WritePageKeeps(s, h);
    WritePageFresh(s, h);
    WritePagesPut(s, h, 1);
    WritePagesOne(s, h);
    written := WritePage(s, h).state;
    CleanedSo(written);
    if last < 3 {
      CleanedInFirst(written);
    }
  }

  lemma TwoFlags(flags: seq<bool>)
    requires |flags| == 2
    ensures CountFlags(flags) == (if flags[0] then 1 else 0) + if flags[1] then 1 else 0
  {
    assert flags[..1][..0] == [];
    assert CountFlags(flags[..1]) == if flags[0] then 1 else 0;
  }

  /** Page 0 is written twice, the second time behind the partial cleaning that has passed it by. */
  lemma FirstTwoWrites() returns (s: State)
    ensures InFirst(s, 2) && s.task == CleanPartial && s.cleanAt == 2 && s.link[0] != INVALID_HPAGE
    ensures Ready(Prepared(4, 11, 2)) == true && Run(Prepared(4, 11, 2), [0, 0]) == Done(s)
  {
    hide Ready, CountFlags, WriteOne;
    var start := Prepared(4, 11, 2);
    PreparedReady(4, 11, 2);
    assert InFirst(start, 0) by { StartInFirst(); }
    var w1 := WriteInFirst(start, 0, 0);
    var s1 := WriteOne(start, 0).state;
    TwoFlags(w1.flags);
    FirstCleaning(start, w1, s1);
    var w2 := WriteInFirst(s1, 1, 0);
    s := WriteOne(s1, 0).state;
    SecondCleaning(s1, w2, s);
    RunTwo(start, 0, 0, s1, s);
  }

  lemma StartInFirst()
    ensures InFirst(Prepared(4, 11, 2), 0)
  {
    PreparedReady(4, 11, 2);
  }

  lemma FirstCleaning(s: State, w: State, s': State)
    requires s == Prepared(4, 11, 2) && Good(w) && w.pageCount == 4 && |w.spares| == 10 && w.task == CleanNon
    requires Puts(s, w, 0, 1) && CleansSo(w, s') && CountFlags(w.flags) == (if w.flags[0] then 1 else 0)
      + if w.flags[1] then 1 else 0
    ensures s'.task == CleanPartial && s'.cleanAt == 1
  {
    hide CountFlags, Inverse, Counted, Lists, Fills;
    assert 0 <= 0 < 1 && 0 / s.pageCount == 0;
    assert w.flags[0] && !w.flags[1];
    var h :| OldestLive(w, h) && CleansHome(w, s', h, 1);
    OldestInTable(w, h);
    assert h == 0;
  }

  lemma SecondCleaning(s: State, w: State, s': State)
    requires s.task == CleanPartial && s.cleanAt == 1 && w.pageCount == 4 && |w.spares| == 10 && |s.link| == 8
    requires w.task == s.task && w.cleanAt == s.cleanAt && Puts(s, w, 0, 1) && CleansSo(w, s')
    ensures s'.task == CleanPartial && s'.cleanAt == 2 && |s'.link| == 8 && s'.link[0] != INVALID_HPAGE
  {
  }

  lemma RunTwo(s: State, g: int, h: int, s1: State, s2: State)
    requires Ready(s) && 0 <= g < |s.link| && 0 <= h < |s.link| && WriteOne(s, g) == Done(s1)
    requires Ready(s1) && |s1.link| == |s.link| && WriteOne(s1, h) == Done(s2)
    ensures Runnable(s, [g, h]) && Run(s, [g, h]) == Done(s2)
  {
    hide WriteOne, Ready;
    WriteOneKeeps(s, g);
    WriteOneKeeps(s1, h);
    assert [g, h][1..] == [h] && [h][1..] == [];
    assert Run(s1, [h]) == Run(s2, []);
  }

  /** Four writes of one page each, to a prepared simulator, and page 0 is in the cache while its home
      block is not flagged. */
  lemma FlagLost() returns (s: State)
    ensures Ready(Prepared(4, 11, 2)) == true && Ready(s) == true
    ensures Runnable(Prepared(4, 11, 2), [0, 0, 4, 5]) && Run(Prepared(4, 11, 2), [0, 0, 4, 5]) == Done(s)
    ensures !Covered(s)
  {
    hide Ready, WriteOne;
    var two := FirstTwoWrites();
    var w3 := WriteInFirst(two, 2, 4);
    var three := WriteOne(two, 4).state;
    ThirdCleaning(two, w3, three);
    var w4 := WriteInFirst(three, 3, 5);
    s := WriteOne(three, 5).state;
    LastCleaning(three, w4, s);
    RunTwo(two, 4, 5, three, s);
    WriteOneKeeps(three, 5);
    assert [0, 0] + [4, 5] == [0, 0, 4, 5];
    RunJoined(Prepared(4, 11, 2), [0, 0], two, [4, 5]);
  }

  lemma {:induction false} RunJoined(s: State, a: seq<int>, s1: State, b: seq<int>)
    requires Ready(s) == true && Runnable(s, a) && Run(s, a) == Done(s1) && Runnable(s, b)
    ensures Ready(s1) == true && Runnable(s1, b) && Runnable(s, a + b) && Run(s, a + b) == Run(s1, b)
    decreases |a|
  {
    hide WriteOne, Ready;
    if a == [] {
      assert a + b == b;
    } else {
      WriteOneKeeps(s, a[0]);
      assert (a + b)[0] == a[0] && (a + b)[1..] == a[1..] + b;
      RunJoined(WriteOne(s, a[0]).state, a[1..], s1, b);
    }
  }

  lemma ThirdCleaning(s: State, w: State, s': State)
    requires s.task == CleanPartial && s.cleanAt == 2 && w.pageCount == 4 && |w.spares| == 10 && |s.link| == 8
    requires w.task == s.task && w.cleanAt == s.cleanAt && Puts(s, w, 4, 5) && CleansSo(w, s')
    requires s.link[0] != INVALID_HPAGE
    ensures s'.task == CleanPartial && s'.cleanAt == 3 && |s'.link| == 8 && s'.link[0] != INVALID_HPAGE
  {
  }

  lemma LastCleaning(s: State, w: State, s': State)
    requires s.task == CleanPartial && s.cleanAt == 3 && w.pageCount == 4 && |w.spares| == 9 && |s.link| == 8
    requires w.task == s.task && w.cleanAt == s.cleanAt && Puts(s, w, 5, 6) && CleansSo(w, s')
    requires s.link[0] != INVALID_HPAGE && |s.flags| == 2
    ensures !Covered(s')
  {
    assert s'.link[0] != INVALID_HPAGE && !s'.flags[0];
  }
}
