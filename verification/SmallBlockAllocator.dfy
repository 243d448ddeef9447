/**
  The small block allocator of source/allocator_sba.c: bins of equal-sized
  chunks carved from aligned pages, with a free list, a working page and
  per-page counts of live chunks.
 */
module SmallBlocks {
  import opened Sequences

  const PAGE: nat := 4096
  /** sizeof(struct page_header): two 8-byte tags, an 8-byte pointer and a padded 4-byte count. */
  const HEADER: nat := 32

  /** s_page_base: round down to page alignment. */
  function PageBase(a: nat): nat {
    a - a % PAGE
  }

  /** The k-th chunk of a page. */
  function Chunk(size: nat, page: nat, k: nat): nat {
    page + HEADER + k * size
  }

  lemma ChunkApart(size: nat, page: nat, k: nat, j: nat)
    requires k < j
    ensures Chunk(size, page, k) + size <= Chunk(size, page, j)
  {
    assert j * size == k * size + (j - k) * size;
    assert (j - k) * size >= size by {
      assert (j - k) * size == (j - k - 1) * size + size;
    }
  }

  lemma PageAligned(a: nat)
    ensures PageBase(a) % PAGE == 0
  {
  }

  lemma PageOfAddress(page: nat, a: nat)
    requires page % PAGE == 0 && page <= a < page + PAGE
    ensures PageBase(a) == page
  {
  }

  /** A bin: the C fields, the addresses handed out and not yet freed, and how many chunks of each page were carved. */
  datatype BinState = BinState(cursor: nat, active: seq<nat>, free: seq<nat>, counts: map<nat, nat>,
                               live: set<nat>, carved: map<nat, nat>)

  ghost predicate IsCarved(size: nat, carved: map<nat, nat>, a: nat) {
    exists p, k :: p in carved && InPage(size, carved, p, k, a)
  }

  predicate InPage(size: nat, carved: map<nat, nat>, p: nat, k: nat, a: nat)
    requires p in carved
  {
    k < carved[p] && a == Chunk(size, p, k)
  }

  ghost function LiveIn(live: set<nat>, page: nat): set<nat> {
    set a | a in live && PageBase(a) == page
  }

  /** Pages are aligned and hold what was carved from them. */
  ghost predicate PagesOk(size: nat, carved: map<nat, nat>) {
    forall p :: p in carved ==> p > 0 && p % PAGE == 0 && Chunk(size, p, carved[p]) <= p + PAGE
  }

  /** The working page has room for a chunk at the cursor; the active ones are carved up. */
  ghost predicate CursorOk(size: nat, s: BinState) {
    && NoDup(s.active)
    && (forall p :: p in s.active ==> p in s.carved && Chunk(size, p, s.carved[p]) + size > p + PAGE)
    && (forall p :: p in s.carved ==> p in s.active || (s.cursor != 0 && p == PageBase(s.cursor)))
    && (s.cursor != 0 ==>
          var w := PageBase(s.cursor);
          w in s.carved && w !in s.active && s.cursor == Chunk(size, w, s.carved[w]) && s.cursor + size <= w + PAGE)
  }

  /** Carved chunks are live or on the free list, never both, never twice. */
  ghost predicate SplitOk(size: nat, s: BinState) {
    && NoDup(s.free)
    && (forall a :: a in s.free ==> a !in s.live)
    && (forall a :: IsCarved(size, s.carved, a) <==> a in s.live || a in s.free)
  }

  /** Each page header counts the live chunks of its page; no active page is without one. */
  ghost predicate CountsOk(s: BinState) {
    && (forall p :: p in s.counts <==> p in s.carved)
    && (forall p :: p in s.counts ==> s.counts[p] == |LiveIn(s.live, p)|)
    && (forall p :: p in s.active ==> p in s.counts && s.counts[p] > 0)
  }

  ghost predicate BinOk(size: nat, s: BinState) {
    && 0 < size && HEADER + size <= PAGE
    && PagesOk(size, s.carved) && CursorOk(size, s) && SplitOk(size, s) && CountsOk(s)
  }

  // ---------- what the invariant gives ----------

  lemma CarvedInPage(size: nat, carved: map<nat, nat>, p: nat, k: nat, a: nat)
    requires 0 < size && PagesOk(size, carved) && p in carved && InPage(size, carved, p, k, a)
    ensures PageBase(a) == p && p + HEADER <= a && a + size <= p + PAGE
  {
    ChunkApart(size, p, k, carved[p]);
    assert k * size >= 0;
    PageOfAddress(p, a);
  }

  /** A chunk that is live or free has its place in a page of the bin. */
  lemma PlaceOf(size: nat, s: BinState, a: nat) returns (p: nat, k: nat)
    requires BinOk(size, s) && (a in s.live || a in s.free)
    ensures p in s.carved && InPage(size, s.carved, p, k, a)
    ensures PageBase(a) == p && p % PAGE == 0 && p in s.counts && p + HEADER <= a && a + size <= p + PAGE
  {
    assert IsCarved(size, s.carved, a);
    p, k :| p in s.carved && InPage(size, s.carved, p, k, a);
    hide Chunk, CursorOk, SplitOk, PageBase;
    CarvedInPage(size, s.carved, p, k, a);
  }

  /** Every block lies in its page, clear of the header; two live blocks never overlap. */
  lemma BlocksApart(size: nat, s: BinState, a: nat, b: nat)
    requires BinOk(size, s) && a in s.live && b in s.live
    ensures PageBase(a) in s.carved && PageBase(a) + HEADER <= a && a + size <= PageBase(a) + PAGE
    ensures a != b ==> a + size <= b || b + size <= a
  {
    hide BinOk, Chunk, PageBase;
    var p, k := PlaceOf(size, s, a);
    var q, j := PlaceOf(size, s, b);
    if p == q {
      if k < j {
        ChunkApart(size, p, k, j);
      } else if j < k {
        ChunkApart(size, p, j, k);
      }
    } else {
      PagesApart(p, q);
    }
  }

  lemma PagesApart(p: nat, q: nat)
    requires p % PAGE == 0 && q % PAGE == 0 && p != q
    ensures p + PAGE <= q || q + PAGE <= p
  {
  }

  /** With nothing live, the bin keeps at most its working page. */
  lemma NothingLive(size: nat, s: BinState)
    requires BinOk(size, s) && s.live == {}
    ensures s.active == []
  {
    forall p
      ensures p !in s.active
    {
      LiveInNone(p);
    }
    NoMembers(s.active);
  }

  lemma LiveInNone(page: nat)
    ensures |LiveIn({}, page)| == 0
  {
    assert LiveIn({}, page) == {};
  }

  lemma NoMembers(s: seq<nat>)
    requires forall x :: x !in s
    ensures s == []
  {
    assert forall x :: x in multiset(s) ==> x in s;
    assert multiset(s) == multiset{};
    assert |multiset(s)| == |s|;
  }

  // ---------- allocation ----------

  lemma LiveInAdd(live: set<nat>, a: nat, page: nat)
    requires a !in live
    ensures |LiveIn(live + {a}, page)| == |LiveIn(live, page)| + (if PageBase(a) == page then 1 else 0)
  {
    if PageBase(a) == page {
      assert LiveIn(live + {a}, page) == LiveIn(live, page) + {a};
    } else {
      assert LiveIn(live + {a}, page) == LiveIn(live, page);
    }
  }

  /** One more live chunk in a page. */
  lemma CountUp(s: BinState, s': BinState, a: nat)
    requires (forall p :: p in s.counts ==> s.counts[p] == |LiveIn(s.live, p)|) && a !in s.live && PageBase(a) in s.counts
    requires s'.live == s.live + {a} && s'.counts == s.counts[PageBase(a) := s.counts[PageBase(a)] + 1]
    ensures forall p :: p in s'.counts ==> s'.counts[p] == |LiveIn(s'.live, p)|
  {
    hide LiveIn, PageBase;
    forall p | p in s'.counts
      ensures s'.counts[p] == |LiveIn(s'.live, p)|
    {
      LiveInAdd(s.live, a, p);
    }
  }

  /** The state after handing out the chunk at the back of the free list. */
  ghost function FromFree(s: BinState): BinState
    requires s.free != []
  {
    var n := |s.free| - 1;
    var p := PageBase(s.free[n]);
    s.(free := s.free[..n], counts := s.counts[p := (if p in s.counts then s.counts[p] else 0) + 1],
       live := s.live + {s.free[n]})
  }

  /** Moving a chunk from the free list to the live ones keeps the split. */
  lemma SplitTake(size: nat, s: BinState, s': BinState)
    requires SplitOk(size, s) && s.free != []
    requires s'.free == s.free[..|s.free| - 1] && s'.live == s.live + {s.free[|s.free| - 1]} && s'.carved == s.carved
    ensures SplitOk(size, s')
  {
    hide IsCarved;
    var n := |s.free| - 1;
    assert s.free == s.free[..n] + [s.free[n]];
    assert forall x :: x in s.free <==> x in s.free[..n] || x == s.free[n];
  }

  lemma FreeNotLive(size: nat, s: BinState)
    requires BinOk(size, s) && s.free != []
    ensures s.free[|s.free| - 1] !in s.live
  {
    hide PagesOk, CursorOk, CountsOk, IsCarved;
    assert s.free[|s.free| - 1] in s.free;
  }

  lemma TakeFree(size: nat, s: BinState)
    requires BinOk(size, s) && s.free != []
    ensures PageBase(s.free[|s.free| - 1]) in s.counts && BinOk(size, FromFree(s))
  {
    hide LiveIn, Chunk, IsCarved, PageBase;
    var a, s' := s.free[|s.free| - 1], FromFree(s);
    var p, k := PlaceOf(size, s, a);
    SplitTake(size, s, s');
    hide SplitOk;
    CountUp(s, s', a);
  }

  /** The state after carving the chunk at the cursor; a page without room for another becomes active. */
  ghost function Carve(size: nat, s: BinState): BinState
    requires s.cursor != 0 && PageBase(s.cursor) in s.counts && PageBase(s.cursor) in s.carved
  {
    var w := PageBase(s.cursor);
    var t := s.(counts := s.counts[w := s.counts[w] + 1], live := s.live + {s.cursor},
                carved := s.carved[w := s.carved[w] + 1]);
    if s.cursor + size + size > w + PAGE then t.(cursor := 0, active := s.active + [w])
    else t.(cursor := s.cursor + size)
  }

  lemma NextChunk(size: nat, page: nat, k: nat)
    ensures Chunk(size, page, k + 1) == Chunk(size, page, k) + size
  {
  }

  /** The cursor is not among the chunks carved so far, and joins them when carved. */
  lemma CarveOne(size: nat, carved: map<nat, nat>, w: nat, a: nat)
    requires 0 < size && PagesOk(size, carved) && w in carved && a == Chunk(size, w, carved[w]) && a + size <= w + PAGE
    ensures !IsCarved(size, carved, a)
    ensures PagesOk(size, carved[w := carved[w] + 1])
    ensures forall x :: IsCarved(size, carved[w := carved[w] + 1], x) <==> IsCarved(size, carved, x) || x == a
  {
    var carved' := carved[w := carved[w] + 1];
    NextChunk(size, w, carved[w]);
    PageOfAddress(w, a);
    hide Chunk, PageBase;
    forall p, k | p in carved && InPage(size, carved, p, k, a)
      ensures false
    {
      CarvedInPage(size, carved, p, k, a);
      ChunkApart(size, w, k, carved[w]);
    }
    assert InPage(size, carved', w, carved[w], a);
    forall x | IsCarved(size, carved, x)
      ensures IsCarved(size, carved', x)
    {
      var p, k :| p in carved && InPage(size, carved, p, k, x);
      assert InPage(size, carved', p, k, x);
    }
    forall x | IsCarved(size, carved', x)
      ensures IsCarved(size, carved, x) || x == a
    {
      var p, k :| p in carved' && InPage(size, carved', p, k, x);
      if k < carved[p] {
        assert InPage(size, carved, p, k, x);
      }
    }
  }

  lemma CarveKeepsSplit(size: nat, s: BinState, s': BinState, a: nat)
    requires SplitOk(size, s) && !IsCarved(size, s.carved, a) && s'.free == s.free && s'.live == s.live + {a}
    requires forall x :: IsCarved(size, s'.carved, x) <==> IsCarved(size, s.carved, x) || x == a
    ensures SplitOk(size, s')
  {
    hide IsCarved;
  }

  lemma CarveKeepsCursor(size: nat, s: BinState)
    requires CursorOk(size, s) && s.cursor != 0 && PageBase(s.cursor) in s.counts
    ensures CursorOk(size, Carve(size, s))
  {
    var w, s' := PageBase(s.cursor), Carve(size, s);
    NextChunk(size, w, s.carved[w]);
    if s'.cursor != 0 {
      PageOfAddress(w, s'.cursor);
    }
    hide Chunk, PageBase;
    assert forall p :: p in s'.active ==> p in s.active || p == w;
  }

  lemma CarveKeepsCounts(size: nat, s: BinState)
    requires CountsOk(s) && s.cursor != 0 && PageBase(s.cursor) in s.carved && s.cursor !in s.live
    ensures PageBase(s.cursor) in s.counts && CountsOk(Carve(size, s))
  {
    var w, s' := PageBase(s.cursor), Carve(size, s);
    hide LiveIn, PageBase;
    CountUp(s, s', s.cursor);
    assert forall p :: p in s'.active ==> p in s.active || p == w;
  }

  lemma CarveCursor(size: nat, s: BinState)
    requires BinOk(size, s) && s.cursor != 0
    ensures PageBase(s.cursor) in s.counts && PageBase(s.cursor) in s.carved
    ensures s.cursor + size <= PageBase(s.cursor) + PAGE && s.cursor !in s.live
    ensures BinOk(size, Carve(size, s))
  {
    hide LiveIn, Chunk, IsCarved, PageBase;
    CarveOne(size, s.carved, PageBase(s.cursor), s.cursor);
    hide PagesOk;
    CarveKeepsCounts(size, s);
    CarveKeepsCursor(size, s);
    hide CursorOk, CountsOk;
    CarveKeepsSplit(size, s, Carve(size, s), s.cursor);
  }

  /** A fresh page becomes the working page. */
  ghost function Adopt(s: BinState, page: nat): BinState {
    s.(cursor := page + HEADER, counts := s.counts[page := 0], carved := s.carved[page := 0])
  }

  lemma AdoptCursor(size: nat, s: BinState, page: nat)
    requires CursorOk(size, s) && s.cursor == 0 && page > 0 && page % PAGE == 0 && page !in s.carved
    requires HEADER + size <= PAGE
    ensures CursorOk(size, Adopt(s, page))
  {
    assert Chunk(size, page, 0) == page + HEADER;
    PageOfAddress(page, page + HEADER);
    hide Chunk, PageBase;
  }

  lemma AdoptPages(size: nat, carved: map<nat, nat>, page: nat)
    requires PagesOk(size, carved) && page > 0 && page % PAGE == 0
    ensures PagesOk(size, carved[page := 0])
  {
    assert Chunk(size, page, 0) == page + HEADER;
    hide Chunk;
  }

  lemma AdoptPage(size: nat, s: BinState, page: nat)
    requires BinOk(size, s) && s.cursor == 0 && page > 0 && page % PAGE == 0 && page !in s.carved
    ensures BinOk(size, Adopt(s, page))
  {
    hide PagesOk, SplitOk, CountsOk, CursorOk;
    AdoptCounts(size, s, page);
    AdoptSplit(size, s, page);
    AdoptCursor(size, s, page);
    AdoptPages(size, s.carved, page);
  }

  lemma AdoptSplit(size: nat, s: BinState, page: nat)
    requires SplitOk(size, s) && page !in s.carved
    ensures SplitOk(size, Adopt(s, page))
  {
    var carved' := s.carved[page := 0];
    hide Chunk;
    forall x
      ensures IsCarved(size, carved', x) <==> IsCarved(size, s.carved, x)
    {
      if IsCarved(size, s.carved, x) {
        var p, k :| p in s.carved && InPage(size, s.carved, p, k, x);
        assert InPage(size, carved', p, k, x);
      }
      if IsCarved(size, carved', x) {
        var p, k :| p in carved' && InPage(size, carved', p, k, x);
        assert InPage(size, s.carved, p, k, x);
      }
    }
    hide IsCarved;
  }

  /** A page that is not the bin's holds none of its live chunks. */
  lemma NoneInPage(size: nat, s: BinState, page: nat)
    requires BinOk(size, s) && page !in s.carved
    ensures |LiveIn(s.live, page)| == 0
  {
    hide BinOk;
    forall a | a in s.live
      ensures PageBase(a) != page
    {
      var p, k := PlaceOf(size, s, a);
    }
    hide PageBase;
    assert LiveIn(s.live, page) == {};
  }

  lemma AdoptCounts(size: nat, s: BinState, page: nat)
    requires BinOk(size, s) && page !in s.carved
    ensures CountsOk(Adopt(s, page))
  {
    NoneInPage(size, s, page);
    hide PagesOk, CursorOk, SplitOk, LiveIn;
  }

  // ---------- release ----------

  lemma LivePages(size: nat, s: BinState)
    requires BinOk(size, s)
    ensures forall a :: a in s.live ==> a > 0 && PageBase(a) in s.carved
    ensures s.counts.Keys == s.carved.Keys && forall p :: p in s.carved ==> p > 0 && p % PAGE == 0
  {
    hide PageBase, LiveIn, CursorOk, SplitOk;
    forall a | a in s.live
      ensures a > 0 && PageBase(a) in s.carved
    {
      var p, k := PlaceOf(size, s, a);
    }
  }

  lemma LiveInRemove(live: set<nat>, a: nat, page: nat)
    requires a in live
    ensures |LiveIn(live, page)| == |LiveIn(live - {a}, page)| + (if PageBase(a) == page then 1 else 0)
  {
    LiveInAdd(live - {a}, a, page);
    assert live - {a} + {a} == live;
  }

  lemma CountDown(s: BinState, s': BinState, a: nat)
    requires (forall p :: p in s.counts ==> s.counts[p] == |LiveIn(s.live, p)|) && a in s.live && PageBase(a) in s.counts
    ensures s.counts[PageBase(a)] > 0
    ensures s'.live == s.live - {a} && s'.counts == s.counts[PageBase(a) := s.counts[PageBase(a)] - 1]
            ==> forall p :: p in s'.counts ==> s'.counts[p] == |LiveIn(s'.live, p)|
  {
    LiveInRemove(s.live, a, PageBase(a));
    hide LiveIn, PageBase;
    forall p
      ensures |LiveIn(s.live, p)| == |LiveIn(s.live - {a}, p)| + (if PageBase(a) == p then 1 else 0)
    {
      LiveInRemove(s.live, a, p);
    }
  }

  /** The freed chunk goes on the free list: its page still has live chunks, or is the working page. */
  ghost function Push(s: BinState, a: nat): BinState
    requires PageBase(a) in s.counts && s.counts[PageBase(a)] > 0
  {
    var p := PageBase(a);
    s.(free := s.free + [a], counts := s.counts[p := s.counts[p] - 1], live := s.live - {a})
  }

  /** The cursor and the pages are untouched by moves between the free list and the live chunks. */
  lemma SameCursor(size: nat, s: BinState, s': BinState)
    requires CursorOk(size, s) && s'.cursor == s.cursor && s'.active == s.active && s'.carved == s.carved
    ensures CursorOk(size, s')
  {
  }

  lemma PushKeepsSplit(size: nat, s: BinState, s': BinState, a: nat)
    requires SplitOk(size, s) && a in s.live
    requires s'.free == s.free + [a] && s'.live == s.live - {a} && s'.carved == s.carved
    ensures SplitOk(size, s')
  {
    hide IsCarved;
    assert forall x :: x in s'.free <==> x in s.free || x == a;
  }

  lemma PushKeepsCounts(s: BinState, a: nat)
    requires CountsOk(s) && a in s.live && PageBase(a) in s.counts
    ensures s.counts[PageBase(a)] > 0
    ensures s.counts[PageBase(a)] > 1 || PageBase(a) !in s.active ==> CountsOk(Push(s, a))
  {
    hide LiveIn, PageBase;
    CountDown(s, s, a);
    CountDown(s, Push(s, a), a);
  }

  lemma PushChunk(size: nat, s: BinState, a: nat)
    requires BinOk(size, s) && a in s.live
    ensures PageBase(a) in s.counts && s.counts[PageBase(a)] > 0
    ensures s.counts[PageBase(a)] > 1 || PageBase(a) !in s.active ==> BinOk(size, Push(s, a))
  {
    hide LiveIn, Chunk, IsCarved, PageBase, PagesOk, CursorOk, CountsOk, SplitOk;
    var p, k := PlaceOf(size, s, a);
    PushKeepsCounts(s, a);
    PushKeepsSplit(size, s, Push(s, a), a);
    SameCursor(size, s, Push(s, a));
  }

  /** The page of the last live chunk is given back: its chunks leave the free list, the page leaves the list of pages. */
  ghost predicate Dropped(s: BinState, s': BinState, a: nat) {
    var p := PageBase(a);
    && s'.cursor == s.cursor && s'.live == s.live - {a}
    && s'.counts == s.counts - {p} && s'.carved == s.carved - {p}
    && NoDup(s'.free) && (forall c :: c in s'.free <==> c in s.free && PageBase(c) != p)
    && NoDup(s'.active) && (forall q :: q in s'.active <==> q in s.active && q != p)
  }

  lemma CarvedElsewhere(size: nat, carved: map<nat, nat>, p: nat, x: nat)
    requires 0 < size && PagesOk(size, carved)
    ensures IsCarved(size, carved - {p}, x) <==> IsCarved(size, carved, x) && PageBase(x) != p
  {
    hide Chunk, PageBase;
    if IsCarved(size, carved, x) {
      var q, k :| q in carved && InPage(size, carved, q, k, x);
      CarvedInPage(size, carved, q, k, x);
      assert q != p ==> q in carved - {p} && InPage(size, carved - {p}, q, k, x);
    }
    if IsCarved(size, carved - {p}, x) {
      var q, k :| q in carved - {p} && InPage(size, carved - {p}, q, k, x);
      assert InPage(size, carved, q, k, x);
      CarvedInPage(size, carved, q, k, x);
    }
  }

  /** With a count of one, the chunk is the only live one of its page. */
  lemma LastOfPage(live: set<nat>, a: nat)
    requires a in live && |LiveIn(live, PageBase(a))| == 1
    ensures forall x :: x in live && PageBase(x) == PageBase(a) ==> x == a
  {
    var only := LiveIn(live, PageBase(a));
    assert a in only;
    assert |only - {a}| == 0;
    assert only - {a} == {};
    forall x | x in live && PageBase(x) == PageBase(a)
      ensures x == a
    {
      assert x in only && (x == a || x in only - {a});
    }
  }

  lemma DropKeepsSplit(size: nat, s: BinState, s': BinState, a: nat)
    requires 0 < size && PagesOk(size, s.carved) && SplitOk(size, s) && Dropped(s, s', a) && a in s.live
    requires forall x :: x in s.live && PageBase(x) == PageBase(a) ==> x == a
    ensures SplitOk(size, s')
  {
    hide IsCarved, PageBase;
    forall x
      ensures IsCarved(size, s'.carved, x) <==> x in s'.live || x in s'.free
    {
      CarvedElsewhere(size, s.carved, PageBase(a), x);
    }
  }

  lemma DropKeepsCounts(s: BinState, s': BinState, a: nat)
    requires CountsOk(s) && Dropped(s, s', a) && a in s.live
    ensures CountsOk(s')
  {
    hide LiveIn, PageBase;
    forall p
      ensures |LiveIn(s.live, p)| == |LiveIn(s.live - {a}, p)| + (if PageBase(a) == p then 1 else 0)
    {
      LiveInRemove(s.live, a, p);
    }
  }

  lemma LastLive(s: BinState, a: nat)
    requires CountsOk(s) && a in s.live && PageBase(a) in s.counts && s.counts[PageBase(a)] == 1
    ensures forall x :: x in s.live && PageBase(x) == PageBase(a) ==> x == a
  {
    hide PageBase;
    LastOfPage(s.live, a);
  }

  lemma DropPage(size: nat, s: BinState, s': BinState, a: nat)
    requires BinOk(size, s) && a in s.live && Dropped(s, s', a)
    requires PageBase(a) in s.counts && s.counts[PageBase(a)] == 1 && (s.cursor == 0 || PageBase(a) != PageBase(s.cursor))
    ensures BinOk(size, s')
  {
    hide LiveIn, Chunk, IsCarved, PageBase, CountsOk, CursorOk, SplitOk, PagesOk, Dropped;
    LastLive(s, a);
    DropKeepsSplit(size, s, s', a);
    DropKeepsCounts(s, s', a);
    DropKeepsCursor(size, s, s', a);
  }

  lemma DropKeepsCursor(size: nat, s: BinState, s': BinState, a: nat)
    requires PagesOk(size, s.carved) && CursorOk(size, s) && Dropped(s, s', a)
    requires s.cursor == 0 || PageBase(a) != PageBase(s.cursor)
    ensures PagesOk(size, s'.carved) && CursorOk(size, s')
  {
    hide Chunk, PageBase;
  }

  /** The half-open range the C code scans for holds the chunks of the page and of no other. */
  lemma RangeIsPage(page: nat, c: nat)
    requires page % PAGE == 0
    ensures page + HEADER <= c < page + HEADER + PAGE && HEADER <= c % PAGE ==> PageBase(c) == page
    ensures PageBase(c) == page && HEADER <= c % PAGE ==> page + HEADER <= c < page + HEADER + PAGE
  {
  }

  /** Overwriting an element with the last one and dropping that one. */
  function SwapPop(s: seq<nat>, i: nat): (r: seq<nat>)
    requires i < |s|
    ensures |r| == |s| - 1
  {
    s[i := s[|s| - 1]][..|s| - 1]
  }

  lemma SwapPopMembers(s: seq<nat>, i: nat)
    requires i < |s| && NoDup(s)
    ensures NoDup(SwapPop(s, i)) && forall c :: c in SwapPop(s, i) <==> c in s && c != s[i]
  {
    var r, n := SwapPop(s, i), |s| - 1;
    forall c | c in s && c != s[i]
      ensures c in r
    {
      var k :| 0 <= k < |s| && s[k] == c;
      assert r[if k == n then i else k] == c;
    }
  }

  /** Releasing the chunk leaves its page without a live chunk, and the page is not the working page. */
  ghost predicate Emptied(s: BinState, addr: nat) {
    LiveIn(s.live, PageBase(addr)) == {addr} && (s.cursor == 0 || PageBase(addr) != PageBase(s.cursor))
  }

  /** The header's count tells exactly that. */
  lemma EmptiedByCount(s: BinState, addr: nat)
    requires CountsOk(s) && addr in s.live && PageBase(addr) in s.counts
    ensures LiveIn(s.live, PageBase(addr)) == {addr} <==> s.counts[PageBase(addr)] == 1
  {
    hide PageBase;
    var here := LiveIn(s.live, PageBase(addr));
    assert addr in here;
    OnlyMember(here, addr);
  }

  lemma CountsOf(size: nat, s: BinState)
    requires BinOk(size, s)
    ensures CountsOk(s)
  {
  }

  lemma OnlyMember(here: set<nat>, a: nat)
    requires a in here
    ensures here == {a} <==> |here| == 1
  {
    assert |here - {a}| == |here| - 1;
    assert here == (here - {a}) + {a};
  }

  // ---------- the bin ----------

  class Bin {
    const size: nat
    var cursor: nat
    var active: seq<nat>
    var free: seq<nat>
    var counts: map<nat, nat>
    ghost var live: set<nat>
    ghost var carved: map<nat, nat>

    ghost function View(): BinState
      reads this
    {
      BinState(cursor, active, free, counts, live, carved)
    }

    ghost predicate Valid()
      reads this
    {
      BinOk(size, View())
    }

    constructor (size: nat)
      requires 0 < size && HEADER + size <= PAGE
      ensures Valid() && this.size == size && live == {} && carved == map[]
    {
      this.size := size;
      cursor, active, free, counts, live, carved := 0, [], [], map[], {}, map[];
    }

    /** s_sba_alloc_from_bin; newPage is where the aligned allocation puts a page, should one be needed. */
    method Alloc(newPage: nat) returns (chunk: nat)
      requires Valid() && newPage > 0 && newPage % PAGE == 0 && newPage !in carved
      modifies this
      ensures Valid() && live == old(live) + {chunk} && chunk !in old(live)
      ensures carved.Keys == old(carved).Keys + (if old(free) == [] && old(cursor) == 0 then {newPage} else {})
      ensures chunk == if old(free) != [] then old(free)[|old(free)| - 1]
                       else if old(cursor) != 0 then old(cursor) else newPage + HEADER
    {
      hide BinOk;
      if free != [] {
        TakeFree(size, View());
        FreeNotLive(size, View());
        chunk := free[|free| - 1];
        free := free[..|free| - 1];
        var page := PageBase(chunk);
        counts := counts[page := counts[page] + 1];
        live := live + {chunk};
        return;
      }
      if cursor == 0 {
        AdoptPage(size, View(), newPage);
        counts := counts[newPage := 0];
        cursor := newPage + HEADER;
        carved := carved[newPage := 0];
      }
      chunk := AllocAtCursor();
    }

    /** The part of s_sba_alloc_from_bin that carves the next chunk from the working page. */
    method AllocAtCursor() returns (chunk: nat)
      requires Valid() && cursor != 0
      modifies this
      ensures Valid() && live == old(live) + {chunk} && chunk == old(cursor) && chunk !in old(live)
      ensures carved.Keys == old(carved).Keys
    {
      hide BinOk;
      CarveCursor(size, View());
      chunk := cursor;
      var page: nat := PageBase(cursor);
      counts := counts[page := counts[page] + 1];
      live, carved := live + {chunk}, carved[page := carved[page] + 1];
      cursor := cursor + size;
      if page + PAGE - cursor < size {
        active := active + [page];
        cursor := 0;
      }
    }

    /** The first loop of s_sba_free_to_bin: every chunk of the page leaves the free list. */
    method RemoveChunks(page: nat)
      requires page % PAGE == 0 && NoDup(free)
      requires forall c :: c in free ==> HEADER <= c % PAGE
      modifies this`free
      ensures NoDup(free) && forall c :: c in free <==> c in old(free) && PageBase(c) != page
    {
      hide PageBase, NoDup, SwapPop;
      var start := page + HEADER;
      var end := start + PAGE;
      var i := |free|;
      while i >= 0
        invariant -1 <= i <= |free| && NoDup(free)
        invariant forall c :: c in free ==> c in old(free)
        invariant forall c :: c in old(free) && PageBase(c) != page ==> c in free
        invariant forall k :: i < k < |free| ==> PageBase(free[k]) != page
        decreases i
      {
        var c := if i < |free| then free[i] else 0;
        RangeIsPage(page, c);
        assert i < |free| ==> c in free;
        if start <= c < end {
          SwapPopMembers(free, i);
          SwapPopAt(free, i);
          free := SwapPop(free, i);
        }
        i := i - 1;
      }
      assert forall k :: 0 <= k < |free| ==> PageBase(free[k]) != page;
    }

    /** The second loop of s_sba_free_to_bin: the page leaves the list of pages. */
    method RemovePage(page: nat)
      requires NoDup(active)
      modifies this`active
      ensures NoDup(active) && forall q :: q in active <==> q in old(active) && q != page
    {
      hide SwapPop;
      for i := 0 to |active|
        invariant active == old(active) && forall k :: 0 <= k < i ==> active[k] != page
      {
        if active[i] == page {
          SwapPopMembers(active, i);
          active := SwapPop(active, i);
          return;
        }
      }
    }

    /** The branch of s_sba_free_to_bin that gives an emptied page back. */
    method GiveBack(addr: nat)
      requires Valid() && addr in live && PageBase(addr) in counts && counts[PageBase(addr)] == 1
      requires cursor == 0 || PageBase(addr) != PageBase(cursor)
      modifies this
      ensures Valid() && live == old(live) - {addr}
      ensures carved.Keys == old(carved).Keys - {PageBase(addr)}
    {
      hide BinOk, PageBase, NoDup;
      ghost var s := View();
      FreeOffsets(size, s);
      PageAligned(addr);
      var page: nat := PageBase(addr);
      counts := counts[page := 0];
      RemoveChunks(page);
      RemovePage(page);
      counts := counts - {page};
      live, carved := live - {addr}, carved - {page};
      assert counts == s.counts - {page};
      DropPage(size, s, View(), addr);
    }

    /** s_sba_free_to_bin. */
    method Free(addr: nat)
      requires Valid() && addr in live
      modifies this
      ensures Valid() && live == old(live) - {addr}
      ensures carved.Keys == old(carved).Keys - (if Emptied(old(View()), addr) then {PageBase(addr)} else {})
    {
      hide BinOk, PageBase, NoDup, CountsOk, LiveIn;
      PushChunk(size, View(), addr);
      FreeOffsets(size, View());
      CountsOf(size, View());
      EmptiedByCount(View(), addr);
      var page: nat := PageBase(addr);
      if counts[page] - 1 == 0 && (cursor == 0 || page != PageBase(cursor)) {
        GiveBack(addr);
        return;
      }
      counts := counts[page := counts[page] - 1];
      free := free + [addr];
      live := live - {addr};
    }

    /** The bin's share of aws_small_block_allocator_bytes_active. */
    method BytesActive() returns (used: nat)
      requires Valid()
      ensures used == |live| * size
    {
      hide BinOk, PageBase, Total;
      BinTotal(size, View());
      used := 0;
      TotalNone(counts, active);
      for i := 0 to |active|
        invariant used == Total(counts, active[..i]) * size
      {
        TotalNext(counts, active, i, size);
        used := used + counts[active[i]] * size;
      }
      ghost var all := Pages(View());
      assert active[..|active|] == active == all[..|active|];
      if cursor != 0 {
        TotalNext(counts, all, |active|, size);
        assert all[..|active| + 1] == all;
        used := used + counts[PageBase(cursor)] * size;
      } else {
        assert all == active;
      }
    }

    /** The bin's share of aws_small_block_allocator_bytes_reserved. */
    method BytesReserved() returns (used: nat)
      requires Valid()
      ensures used == |carved| * PAGE
      ensures live == {} ==> used <= PAGE
    {
      hide BinOk;
      PageCount(size, View());
      used := (|active| + (if cursor != 0 then 1 else 0)) * PAGE;
    }
  }

  function Members(s: seq<nat>): set<nat> {
    set x | x in s
  }

  /** A list without repetition has as many elements as their set. */
  lemma {:induction false} NoDupCount(s: seq<nat>)
    requires NoDup(s)
    ensures |Members(s)| == |s|
  {
    if s != [] {
      var n := |s| - 1;
      assert s == s[..n] + [s[n]];
      NoDupCount(s[..n]);
      assert Members(s) == Members(s[..n]) + {s[n]};
      assert s[n] !in s[..n];
    }
  }

  lemma PagesAreCarved(size: nat, s: BinState)
    requires CursorOk(size, s)
    ensures NoDup(Pages(s)) && forall p :: p in Pages(s) <==> p in s.carved
  {
    hide Chunk, PageBase;
  }

  /** A bin's pages are the listed ones and the working page. */
  lemma PageCount(size: nat, s: BinState)
    requires BinOk(size, s)
    ensures |s.carved| == |s.active| + (if s.cursor != 0 then 1 else 0)
    ensures s.live == {} ==> s.active == []
    ensures s.counts.Keys == s.carved.Keys
  {
    if s.live == {} {
      NothingLive(size, s);
    }
    hide LiveIn, PageBase, SplitOk, PagesOk, CursorOk, NoDup;
    PagesAreCarved(size, s);
    NoDupCount(Pages(s));
    assert Members(Pages(s)) == s.carved.Keys;
  }

  lemma SwapPopAt(s: seq<nat>, i: nat)
    requires i < |s|
    ensures forall k :: i <= k < |s| - 1 ==> SwapPop(s, i)[k] == (if k == i then s[|s| - 1] else s[k])
  {
  }

  lemma FreeOffsets(size: nat, s: BinState)
    requires BinOk(size, s)
    ensures NoDup(s.free) && NoDup(s.active) && forall c :: c in s.free ==> HEADER <= c % PAGE
    ensures s.cursor != 0 ==> PageBase(s.cursor) !in s.active
    ensures forall p :: p in s.counts && p !in s.active ==> s.cursor != 0 && p == PageBase(s.cursor)
  {
    hide Chunk, IsCarved, LiveIn;
    forall c | c in s.free
      ensures HEADER <= c % PAGE
    {
      var p, k := PlaceOf(size, s, c);
    }
  }

  // ---------- byte counts ----------

  /** The sum of the header counts of a list of pages. */
  function Total(counts: map<nat, nat>, pages: seq<nat>): nat
    requires forall p :: p in pages ==> p in counts
  {
    if pages == [] then 0 else Total(counts, pages[..|pages| - 1]) + counts[pages[|pages| - 1]]
  }

  lemma LiveInRest(live: set<nat>, p: nat, q: nat)
    requires q != p
    ensures LiveIn(live - LiveIn(live, p), q) == LiveIn(live, q)
  {
    hide PageBase;
  }

  /** The live chunks split by page. */
  lemma SplitByPage(live: set<nat>, p: nat, rest: seq<nat>)
    requires forall a :: a in live ==> PageBase(a) in rest + [p]
    ensures |live| == |live - LiveIn(live, p)| + |LiveIn(live, p)|
    ensures forall a :: a in live - LiveIn(live, p) ==> PageBase(a) in rest
  {
    hide PageBase;
    assert live == (live - LiveIn(live, p)) + LiveIn(live, p);
  }

  /** The counts of all pages add up to the number of live chunks. */
  lemma {:induction false} TotalIsLive(counts: map<nat, nat>, pages: seq<nat>, live: set<nat>)
    requires NoDup(pages) && (forall p :: p in pages ==> p in counts && counts[p] == |LiveIn(live, p)|)
    requires forall a :: a in live ==> PageBase(a) in pages
    ensures Total(counts, pages) == |live|
    decreases |pages|
  {
    hide PageBase, LiveIn;
    if pages == [] {
      assert live == {};
    } else {
      var n := |pages| - 1;
      var p, rest := pages[n], pages[..n];
      assert pages == rest + [p];
      SplitByPage(live, p, rest);
      forall q | q in rest
        ensures q in counts && counts[q] == |LiveIn(live - LiveIn(live, p), q)|
      {
        LiveInRest(live, p, q);
      }
      TotalIsLive(counts, rest, live - LiveIn(live, p));
    }
  }

  lemma TotalNone(counts: map<nat, nat>, pages: seq<nat>)
    ensures Total(counts, pages[..0]) == 0
  {
  }

  lemma TotalNext(counts: map<nat, nat>, pages: seq<nat>, i: nat, size: nat)
    requires i < |pages| && forall p :: p in pages ==> p in counts
    ensures Total(counts, pages[..i + 1]) * size == Total(counts, pages[..i]) * size + counts[pages[i]] * size
  {
    assert pages[..i + 1][..i] == pages[..i];
  }

  /** All pages of a bin: the active ones and the working page. */
  ghost function Pages(s: BinState): seq<nat> {
    s.active + (if s.cursor == 0 then [] else [PageBase(s.cursor)])
  }

  lemma BinTotal(size: nat, s: BinState)
    requires BinOk(size, s)
    ensures forall p :: p in Pages(s) ==> p in s.counts
    ensures Total(s.counts, Pages(s)) == |s.live|
  {
    hide LiveIn, Chunk, IsCarved, PageBase;
    PagesAreCarved(size, s);
    forall a | a in s.live
      ensures PageBase(a) in Pages(s)
    {
      var p, k := PlaceOf(size, s, a);
    }
    hide PagesOk, CursorOk, SplitOk, Pages;
    TotalIsLive(s.counts, Pages(s), s.live);
  }
}

/** The allocator over five bins and a parent allocator for larger blocks. */
module SmallBlockAllocators {
  import opened PowersOfTwo
  import opened SmallBlocks

  const BIN_COUNT: nat := 5
  const MAX_BIN_SIZE: nat := 512

  /** s_bin_sizes. */
  function BinSize(i: nat): nat {
    Pow2(i + 5)
  }

  /** aws_clz_i32, for a nonzero 32-bit value. */
  function Clz32(x: nat): nat
    requires 0 < x < 0x1_0000_0000
    decreases 0x1_0000_0000 - x
  {
    if x >= 0x8000_0000 then 0 else 1 + Clz32(2 * x)
  }

  /** s_sba_find_bin: bits 5 to 9 of the rounded size give indices 0 to 4. */
  function FindBin(size: nat): (i: nat)
    requires size <= MAX_BIN_SIZE
  {
    var rounded := RoundUp(size, 1);
    if rounded >= 0x1_0000_0000 then 0
    else
      var top := 31 - Clz32(rounded);
      if top < 5 then 0 else top - 5
  }

  lemma Pow2Small()
    ensures Pow2(0) == 1 && Pow2(5) == 32 && Pow2(9) == 512 && Pow2(31) == 0x8000_0000
  {
    assert Pow2(8) == 256;
    Pow2Add(8, 8);
    Pow2Add(16, 8);
    Pow2Add(24, 7);
  }

  lemma {:induction false} ClzOfPower(k: nat)
    requires k <= 31
    ensures Pow2(k) < 0x1_0000_0000 && Clz32(Pow2(k)) == 31 - k
    decreases 31 - k
  {
    Pow2Small();
    Pow2Monotone(k, 31);
    if k < 31 {
      Pow2Monotone(k + 1, 31);
      assert Pow2(k + 1) == 2 * Pow2(k);
      ClzOfPower(k + 1);
    }
  }

  lemma BinSizes()
    ensures BinSize(0) == 32 && BinSize(1) == 64 && BinSize(2) == 128 && BinSize(3) == 256 && BinSize(4) == 512
  {
    Pow2Small();
  }

  /** The chosen bin exists, its chunks are large enough, and the next smaller ones are not. */
  lemma BinFits(size: nat)
    requires size <= MAX_BIN_SIZE
    ensures FindBin(size) < BIN_COUNT && BinSize(FindBin(size)) >= size
    ensures FindBin(size) > 0 ==> BinSize(FindBin(size) - 1) < size
    ensures BinSize(FindBin(size)) <= MAX_BIN_SIZE
  {
    Pow2Small();
    var j := RoundUpIsLeast(size, 0, 9);
    ClzOfPower(j);
    Pow2Monotone(j, 9);
    if j < 5 {
      Pow2Monotone(j, 5);
    }
  }

  // ---------- the allocator ----------

  /** Two address ranges do not overlap. */
  predicate Apart(x: nat, n: nat, y: nat, m: nat) {
    x + n <= y || y + m <= x
  }

  /**
    The page headers name the owning bin, the live chunks of a bin lie in its
    pages, and blocks of the parent allocator overlap neither pages nor each other.
   */
  ghost predicate HeadersOk(pages: seq<set<nat>>, headers: map<nat, nat>) {
    && |pages| == BIN_COUNT
    && (forall p :: p in headers ==> 0 < p && p % PAGE == 0 && headers[p] < BIN_COUNT && p in pages[headers[p]])
    && (forall i, p :: 0 <= i < BIN_COUNT && p in pages[i] ==> p in headers && headers[p] == i)
  }

  ghost predicate LivesOk(lives: seq<set<nat>>, pages: seq<set<nat>>)
    requires |pages| == BIN_COUNT
  {
    |lives| == BIN_COUNT && forall i, a :: 0 <= i < BIN_COUNT && a in lives[i] ==> PageBase(a) in pages[i]
  }

  ghost predicate LargeOk(headers: map<nat, nat>, large: map<nat, nat>) {
    && (forall a :: a in large ==> 0 < a && MAX_BIN_SIZE < large[a])
    && (forall a, p :: a in large && p in headers ==> Apart(a, large[a], p, PAGE))
    && (forall a, b :: a in large && b in large && a != b ==> Apart(a, large[a], b, large[b]))
  }

  /** The range is disjoint from every page and every block of the parent. */
  ghost predicate Unused(headers: map<nat, nat>, large: map<nat, nat>, x: nat, n: nat) {
    && (forall p :: p in headers ==> Apart(x, n, p, PAGE))
    && (forall a :: a in large ==> Apart(x, n, a, large[a]))
  }

  /** An address handed out and not yet released; its page header tells which kind it is. */
  ghost predicate Held(lives: seq<set<nat>>, headers: map<nat, nat>, large: map<nat, nat>, a: nat) {
    var p := PageBase(a);
    if p in headers then headers[p] < |lives| && a in lives[headers[p]] else a in large
  }

  ghost function CapacityOf(headers: map<nat, nat>, large: map<nat, nat>, a: nat): nat {
    var p := PageBase(a);
    if p in headers then BinSize(headers[p]) else if a in large then large[a] else 0
  }

  /** The bytes of all live chunks of the first n bins. */
  ghost function Weight(lives: seq<set<nat>>, n: nat): nat
    requires n <= |lives|
  {
    if n == 0 then 0 else Weight(lives, n - 1) + |lives[n - 1]| * BinSize(n - 1)
  }

  /** The pages of the first n bins. */
  ghost function PageSum(pages: seq<set<nat>>, n: nat): nat
    requires n <= |pages|
  {
    if n == 0 then 0 else PageSum(pages, n - 1) + |pages[n - 1]|
  }

  /** The pages tagged for the first n bins. */
  ghost function Tagged(headers: map<nat, nat>, n: nat): set<nat> {
    set p | p in headers && headers[p] < n
  }

  /** The pages the bins hold are the tagged ones, each counted once. */
  lemma PagesAreTagged(pages: seq<set<nat>>, headers: map<nat, nat>)
    requires HeadersOk(pages, headers)
    ensures PageSum(pages, |pages|) == |headers|
  {
    TaggedBelow(pages, headers, |pages|);
    assert Tagged(headers, |pages|) == headers.Keys;
  }

  lemma {:induction false} TaggedBelow(pages: seq<set<nat>>, headers: map<nat, nat>, n: nat)
    requires HeadersOk(pages, headers) && n <= |pages|
    ensures PageSum(pages, n) == |Tagged(headers, n)|
  {
    if n > 0 {
      TaggedBelow(pages, headers, n - 1);
      TaggedNext(pages, headers, n - 1);
    }
  }

  lemma TaggedNext(pages: seq<set<nat>>, headers: map<nat, nat>, n: nat)
    requires HeadersOk(pages, headers) && n < |pages|
    ensures |Tagged(headers, n + 1)| == |Tagged(headers, n)| + |pages[n]|
  {
    hide HeadersOk, Tagged;
    forall p
      ensures p in Tagged(headers, n + 1) <==> p in Tagged(headers, n) || p in pages[n]
      ensures !(p in Tagged(headers, n) && p in pages[n])
    {
      TaggedOne(pages, headers, n, p);
    }
    UnionSize(Tagged(headers, n), pages[n], Tagged(headers, n + 1));
  }

  lemma TaggedOne(pages: seq<set<nat>>, headers: map<nat, nat>, n: nat, p: nat)
    requires HeadersOk(pages, headers) && n < |pages|
    ensures p in pages[n] <==> p in headers && headers[p] == n
    ensures forall k :: p in Tagged(headers, k) <==> p in headers && headers[p] < k
  {
  }

  lemma UnionSize(a: set<nat>, b: set<nat>, c: set<nat>)
    requires (forall p :: p in c <==> p in a || p in b) && forall p :: !(p in a && p in b)
    ensures |c| == |a| + |b|
  {
    assert c == a + b && a !! b;
  }

  lemma {:induction false} WeightUpdate(lives: seq<set<nat>>, n: nat, i: nat, s: set<nat>)
    requires n <= |lives| && i < |lives|
    ensures Weight(lives[i := s], n) ==
            Weight(lives, n) + (if i < n then (|s| - |lives[i]|) * BinSize(i) else 0)
  {
    if n > 0 {
      WeightUpdate(lives, n - 1, i, s);
      if i == n - 1 {
        assert |s| * BinSize(i) == |lives[i]| * BinSize(i) + (|s| - |lives[i]|) * BinSize(i);
      }
    }
  }

  lemma WeightAdd(lives: seq<set<nat>>, i: nat, c: nat)
    requires i < |lives|
    ensures c !in lives[i] ==> Weight(lives[i := lives[i] + {c}], |lives|) == Weight(lives, |lives|) + BinSize(i)
    ensures c in lives[i] ==> Weight(lives[i := lives[i] - {c}], |lives|) == Weight(lives, |lives|) - BinSize(i)
  {
    hide BinSize, Weight;
    if c in lives[i] {
      assert |lives[i] - {c}| - |lives[i]| == -1;
      WeightUpdate(lives, |lives|, i, lives[i] - {c});
    } else {
      assert |lives[i] + {c}| - |lives[i]| == 1;
      WeightUpdate(lives, |lives|, i, lives[i] + {c});
    }
  }

  lemma {:induction false} WeightZero(lives: seq<set<nat>>, n: nat)
    requires n <= |lives| && forall i :: 0 <= i < n ==> lives[i] == {}
    ensures Weight(lives, n) == 0
  {
    if n > 0 {
      WeightZero(lives, n - 1);
    }
  }

  lemma LargeUntagged(headers: map<nat, nat>, large: map<nat, nat>, a: nat, n: nat)
    requires (forall p :: p in headers ==> Apart(a, n, p, PAGE)) && n > 0
    ensures PageBase(a) !in headers
  {
  }

  ghost predicate SbaOk(lives: seq<set<nat>>, pages: seq<set<nat>>, headers: map<nat, nat>, large: map<nat, nat>) {
    HeadersOk(pages, headers) && LivesOk(lives, pages) && LargeOk(headers, large)
  }

  /** No parent block starts in a tagged page, and none starts in an unused range. */
  lemma LargeElsewhere(headers: map<nat, nat>, large: map<nat, nat>)
    requires LargeOk(headers, large)
    ensures forall a :: a in large ==> PageBase(a) !in headers
  {
    forall a | a in large
      ensures PageBase(a) !in headers
    {
      LargeUntagged(headers, large, a, large[a]);
    }
  }

  lemma NewPageEmpty(headers: map<nat, nat>, large: map<nat, nat>, page: nat)
    requires LargeOk(headers, large) && Unused(headers, large, page, PAGE)
    ensures page !in headers && forall a :: a in large ==> PageBase(a) != page
  {
    forall a | a in large
      ensures PageBase(a) != page
    {
      assert Apart(page, PAGE, a, large[a]);
    }
  }

  lemma AcquireKeeps(lives: seq<set<nat>>, pages: seq<set<nat>>, headers: map<nat, nat>, large: map<nat, nat>,
                     i: nat, c: nat, page: nat, mine: set<nat>)
    requires SbaOk(lives, pages, headers, large) && i < BIN_COUNT
    requires page > 0 && page % PAGE == 0 && Unused(headers, large, page, PAGE)
    requires (mine == pages[i] || mine == pages[i] + {page}) && PageBase(c) in mine
    ensures SbaOk(lives[i := lives[i] + {c}], pages[i := mine], if page in mine then headers[page := i] else headers, large)
  {
    NewPageEmpty(headers, large, page);
    hide PageBase;
    assert HeadersOk(pages[i := mine], if page in mine then headers[page := i] else headers);
    assert LivesOk(lives[i := lives[i] + {c}], pages[i := mine]);
  }

  /** A bin hands out a chunk, on an old page or on a new one. */
  lemma AcquireSmall(lives: seq<set<nat>>, pages: seq<set<nat>>, headers: map<nat, nat>, large: map<nat, nat>,
                     i: nat, c: nat, page: nat, mine: set<nat>)
    requires SbaOk(lives, pages, headers, large) && i < BIN_COUNT && c !in lives[i]
    requires page > 0 && page % PAGE == 0 && Unused(headers, large, page, PAGE)
    requires (mine == pages[i] || mine == pages[i] + {page}) && PageBase(c) in mine
    ensures var headers' := if page in mine then headers[page := i] else headers;
            && SbaOk(lives[i := lives[i] + {c}], pages[i := mine], headers', large)
            && (forall a :: Held(lives[i := lives[i] + {c}], headers', large, a) <==> Held(lives, headers, large, a) || a == c)
            && !Held(lives, headers, large, c) && CapacityOf(headers', large, c) == BinSize(i)
            && forall a :: Held(lives, headers, large, a) ==>
                             CapacityOf(headers', large, a) == CapacityOf(headers, large, a)
  {
    AcquireKeeps(lives, pages, headers, large, i, c, page, mine);
    LargeElsewhere(headers, large);
    NewPageEmpty(headers, large, page);
    hide PageBase, BinSize, Unused, LargeOk;
    var headers' := if page in mine then headers[page := i] else headers;
    var lives' := lives[i := lives[i] + {c}];
    forall a
      ensures Held(lives', headers', large, a) <==> Held(lives, headers, large, a) || a == c
    {
      var p := PageBase(a);
      if p in headers' {
        var j := headers'[p];
        assert a in lives'[j] <==> a in lives[j] || (j == i && a == c);
        assert a == c ==> p in pages[i := mine][i];
      }
    }
  }

  lemma LivePage(lives: seq<set<nat>>, pages: seq<set<nat>>, headers: map<nat, nat>, i: nat, c: nat)
    requires HeadersOk(pages, headers) && LivesOk(lives, pages) && i < BIN_COUNT && c in lives[i]
    ensures |lives| == |pages| == BIN_COUNT
    ensures PageBase(c) in pages[i] && PageBase(c) in headers && headers[PageBase(c)] == i
  {
    hide PageBase;
  }

  /** A bin that gives up a page takes its header with it. */
  lemma ReleaseHeaders(pages: seq<set<nat>>, headers: map<nat, nat>, i: nat, page: nat, mine: set<nat>)
    requires HeadersOk(pages, headers) && i < BIN_COUNT && page in pages[i]
    requires mine == pages[i] || mine == pages[i] - {page}
    ensures HeadersOk(pages[i := mine], if page in mine then headers else headers - {page})
  {
    var headers' := if page in mine then headers else headers - {page};
    var pages' := pages[i := mine];
    forall p | p in headers'
      ensures headers'[p] < BIN_COUNT && p in pages'[headers'[p]]
    {
      assert p in headers && p in pages[headers[p]];
    }
    forall j, p | 0 <= j < BIN_COUNT && p in pages'[j]
      ensures p in headers' && headers'[p] == j
    {
      assert p in headers && headers[p] == j && headers[page] == i;
    }
  }

  lemma ReleaseLives(lives: seq<set<nat>>, pages: seq<set<nat>>, i: nat, c: nat, mine: set<nat>)
    requires |pages| == BIN_COUNT && LivesOk(lives, pages) && i < BIN_COUNT
    requires forall a :: a in lives[i] - {c} ==> PageBase(a) in mine
    ensures LivesOk(lives[i := lives[i] - {c}], pages[i := mine])
  {
    hide PageBase;
  }

  lemma FewerHeaders(headers: map<nat, nat>, headers': map<nat, nat>, large: map<nat, nat>)
    requires LargeOk(headers, large) && headers'.Keys <= headers.Keys
    ensures LargeOk(headers', large)
  {
    assert forall p :: p in headers' ==> p in headers;
  }

  lemma ReleaseHeld(lives: seq<set<nat>>, headers: map<nat, nat>, large: map<nat, nat>, i: nat, c: nat, mine: set<nat>, a: nat)
    requires i < |lives| && PageBase(c) in headers && headers[PageBase(c)] == i && c in lives[i]
    requires forall b :: b in lives[i] - {c} ==> PageBase(b) in mine
    requires a in large ==> PageBase(a) !in headers
    ensures var headers' := if PageBase(c) in mine then headers else headers - {PageBase(c)};
            && (Held(lives[i := lives[i] - {c}], headers', large, a) <==> Held(lives, headers, large, a) && a != c)
            && (Held(lives, headers, large, a) && a != c ==> CapacityOf(headers', large, a) == CapacityOf(headers, large, a))
  {
    hide PageBase, BinSize;
  }

  /** A bin takes a chunk back, and perhaps gives up its page. */
  lemma ReleaseSmall(lives: seq<set<nat>>, pages: seq<set<nat>>, headers: map<nat, nat>, large: map<nat, nat>,
                     i: nat, c: nat, mine: set<nat>)
    requires SbaOk(lives, pages, headers, large) && i < BIN_COUNT && c in lives[i]
    requires mine == pages[i] || mine == pages[i] - {PageBase(c)}
    requires forall a :: a in lives[i] - {c} ==> PageBase(a) in mine
    ensures var headers' := if PageBase(c) in mine then headers else headers - {PageBase(c)};
            && SbaOk(lives[i := lives[i] - {c}], pages[i := mine], headers', large)
            && (forall a :: Held(lives[i := lives[i] - {c}], headers', large, a) <==> Held(lives, headers, large, a) && a != c)
            && forall a :: Held(lives, headers, large, a) && a != c ==>
                             CapacityOf(headers', large, a) == CapacityOf(headers, large, a)
  {
    hide HeadersOk, LivesOk, LargeOk, Held, CapacityOf, PageBase;
    var page := PageBase(c);
    var headers' := if page in mine then headers else headers - {page};
    LivePage(lives, pages, headers, i, c);
    ReleaseHeaders(pages, headers, i, page, mine);
    ReleaseLives(lives, pages, i, c, mine);
    FewerHeaders(headers, headers', large);
    LargeElsewhere(headers, large);
    forall a
      ensures Held(lives[i := lives[i] - {c}], headers', large, a) <==> Held(lives, headers, large, a) && a != c
      ensures Held(lives, headers, large, a) && a != c ==> CapacityOf(headers', large, a) == CapacityOf(headers, large, a)
    {
      ReleaseHeld(lives, headers, large, i, c, mine, a);
    }
  }

  /** The parent hands out a block. */
  lemma AcquireLarge(lives: seq<set<nat>>, pages: seq<set<nat>>, headers: map<nat, nat>, large: map<nat, nat>,
                     b: nat, n: nat)
    requires SbaOk(lives, pages, headers, large) && b > 0 && n > MAX_BIN_SIZE && Unused(headers, large, b, n)
    ensures var large' := large[b := n];
            && SbaOk(lives, pages, headers, large')
            && (forall a :: Held(lives, headers, large', a) <==> Held(lives, headers, large, a) || a == b)
            && !Held(lives, headers, large, b) && CapacityOf(headers, large', b) == n
            && forall a :: Held(lives, headers, large, a) ==>
                             CapacityOf(headers, large', a) == CapacityOf(headers, large, a)
  {
    LargeUntagged(headers, large, b, n);
    assert b !in large by {
      assert b in large ==> Apart(b, n, b, large[b]);
    }
    hide PageBase, BinSize;
  }

  /** The parent takes a block back. */
  lemma ReleaseLarge(lives: seq<set<nat>>, pages: seq<set<nat>>, headers: map<nat, nat>, large: map<nat, nat>, b: nat)
    requires SbaOk(lives, pages, headers, large) && PageBase(b) !in headers
    ensures var large' := large - {b};
            && SbaOk(lives, pages, headers, large')
            && (forall a :: Held(lives, headers, large', a) <==> Held(lives, headers, large, a) && a != b)
            && forall a :: Held(lives, headers, large, a) && a != b ==>
                             CapacityOf(headers, large', a) == CapacityOf(headers, large, a)
  {
    hide PageBase, BinSize;
  }

  /** A bin of the given chunk size with the given live chunks and pages. */
  ghost predicate Serves(bin: Bin, size: nat, live: set<nat>, keys: set<nat>)
    reads bin
    ensures Serves(bin, size, live, keys) ==> bin.Valid() && bin.size == size && bin.live == live && bin.carved.Keys == keys
  {
    bin.Valid() && bin.size == size && bin.live == live && bin.carved.Keys == keys
  }

  lemma ServesNow(bin: Bin)
    requires bin.Valid()
    ensures Serves(bin, bin.size, bin.live, bin.carved.Keys)
  {
    hide Bin.Valid;
  }

  /** s_sba_init: one bin for each size. */
  method NewBins() returns (bins: seq<Bin>)
    ensures |bins| == BIN_COUNT && fresh(bins)
    ensures forall i, j :: 0 <= i < j < BIN_COUNT ==> bins[i] != bins[j]
    ensures forall i :: 0 <= i < BIN_COUNT ==> Serves(bins[i], BinSize(i), {}, {})
  {
    hide Bin.Valid, BinSize;
    BinSizes();
    bins := [];
    for k := 0 to BIN_COUNT
      invariant |bins| == k && fresh(bins)
      invariant forall i, j :: 0 <= i < j < k ==> bins[i] != bins[j]
      invariant forall i :: 0 <= i < k ==> Serves(bins[i], BinSize(i), {}, {})
    {
      var bin := new Bin(BinSize(k));
      bins := bins + [bin];
    }
  }

  class Allocator {
    const bins: seq<Bin>
    var headers: map<nat, nat>
    var large: map<nat, nat>
    ghost var lives: seq<set<nat>>
    ghost var pages: seq<set<nat>>

    ghost predicate BinsOk()
      reads this, bins
    {
      && |bins| == |lives| == |pages| == BIN_COUNT
      && (forall i, j :: 0 <= i < j < BIN_COUNT ==> bins[i] != bins[j])
      && (forall i :: 0 <= i < BIN_COUNT ==> Serves(bins[i], BinSize(i), lives[i], pages[i]))
    }

    ghost predicate Valid()
      reads this, bins
    {
      BinsOk() && SbaOk(lives, pages, headers, large)
    }

    ghost predicate IsHeld(a: nat)
      reads this
    {
      Held(lives, headers, large, a)
    }

    ghost function Capacity(a: nat): nat
      reads this
    {
      CapacityOf(headers, large, a)
    }

    /** The bin has neither a free chunk nor room in its working page. */
    ghost predicate NeedsPage(i: nat)
      reads this, bins
    {
      i < |bins| && bins[i].free == [] && bins[i].cursor == 0
    }

    /** The block is the last on its page, and the page is not the working one. */
    ghost predicate FreesPage(i: nat, addr: nat)
      reads this, bins
    {
      i < |bins| && Emptied(bins[i].View(), addr)
    }

    /** The summed chunk sizes of the live small blocks. */
    ghost function SmallBytes(): nat
      reads this
    {
      Weight(lives, |lives|)
    }

    /** Every small block was released. */
    ghost predicate NoSmall()
      reads this
    {
      forall i :: 0 <= i < |lives| ==> lives[i] == {}
    }

    /** Any two blocks handed out are disjoint, small or large. */
    lemma BlocksDisjoint(a: nat, b: nat)
      requires Valid() && IsHeld(a) && IsHeld(b) && a != b
      ensures Apart(a, Capacity(a), b, Capacity(b))
    {
      hide Bin.Valid, PageBase, BinSize;
      var p, q := PageBase(a), PageBase(b);
      if p in headers {
        var i := headers[p];
        InsidePage(bins[i], a);
        if q in headers {
          var j := headers[q];
          InsidePage(bins[j], b);
          if i == j {
            SameBinApart(bins[i], a, b);
          } else {
            PagesApart(p, q);
          }
        }
      } else if q in headers {
        var j := headers[q];
        InsidePage(bins[j], b);
      }
    }

    constructor ()
      ensures Valid() && large == map[] && SmallBytes() == 0
      ensures forall a :: !IsHeld(a)
      ensures fresh(bins)
    {
      hide Bin.Valid, BinSize, SbaOk, Held, Weight, Serves;
      var five := NewBins();
      bins := five;
      headers, large := map[], map[];
      lives, pages := [{}, {}, {}, {}, {}], [{}, {}, {}, {}, {}];
      new;
      EmptyAllocator(lives, pages);
    }

    /** The bin's part of s_sba_alloc, and the header of a page the bin adopts. */
    method AcquireFrom(size: nat, newPage: nat) returns (ptr: nat)
      requires Valid() && size <= MAX_BIN_SIZE
      requires newPage > 0 && newPage % PAGE == 0 && Unused(headers, large, newPage, PAGE)
      modifies this, bins
      ensures Valid() && ptr != 0 && !old(IsHeld(ptr)) && large == old(large)
      ensures forall a :: IsHeld(a) <==> old(IsHeld(a)) || a == ptr
      ensures forall a :: old(IsHeld(a)) ==> Capacity(a) == old(Capacity(a))
      ensures Capacity(ptr) == BinSize(FindBin(size)) >= size
      ensures SmallBytes() == old(SmallBytes()) + Capacity(ptr)
      ensures FindBin(size) < |bins|
      ensures headers == if old(NeedsPage(FindBin(size))) then old(headers)[newPage := FindBin(size)] else old(headers)
      ensures newPage !in old(headers)
    {
      hide SbaOk, Held, CapacityOf, Unused, Weight, Bin.Valid, BinSize, FindBin, PageBase, HeadersOk, LivesOk, LargeOk, Serves;
      BinFits(size);
      var i := FindBin(size);
      NewPageUnowned(lives, pages, headers, large, newPage, i);
      var bin := bins[i];
      assert bin.Valid();
      ptr := bin.Alloc(newPage);
      BinPages(bin);
      AcquireSmall(lives, pages, headers, large, i, ptr, newPage, bin.carved.Keys);
      WeightAdd(lives, i, ptr);
      if newPage in bin.counts {
        headers := headers[newPage := i];
      }
      ServesNow(bin);
      lives, pages := lives[i := bin.live], pages[i := bin.carved.Keys];
    }

    /** s_sba_alloc; newPage and newBlock are where the system and the parent put fresh memory, should it be needed. */
    method Acquire(size: nat, newPage: nat, newBlock: nat) returns (ptr: nat)
      requires Valid()
      requires size <= MAX_BIN_SIZE ==> newPage > 0 && newPage % PAGE == 0 && Unused(headers, large, newPage, PAGE)
      requires size > MAX_BIN_SIZE ==> newBlock > 0 && Unused(headers, large, newBlock, size)
      modifies this, bins
      ensures Valid() && ptr != 0 && !old(IsHeld(ptr))
      ensures forall a :: IsHeld(a) <==> old(IsHeld(a)) || a == ptr
      ensures forall a :: old(IsHeld(a)) ==> Capacity(a) == old(Capacity(a))
      ensures size > MAX_BIN_SIZE ==> Capacity(ptr) == size && SmallBytes() == old(SmallBytes())
      ensures size <= MAX_BIN_SIZE ==>
                Capacity(ptr) == BinSize(FindBin(size)) >= size && SmallBytes() == old(SmallBytes()) + Capacity(ptr)
      ensures |headers| == |old(headers)| + (if size <= MAX_BIN_SIZE && old(NeedsPage(FindBin(size))) then 1 else 0)
    {
      hide SbaOk, Held, CapacityOf, Unused, Weight;
      if size <= MAX_BIN_SIZE {
        ptr := AcquireFrom(size, newPage);
      } else {
        AcquireLarge(lives, pages, headers, large, newBlock, size);
        large := large[newBlock := size];
        ptr := newBlock;
      }
    }

    /** The bin's part of s_sba_free, and the erased header of a page the bin gives back. */
    method ReleaseTo(i: nat, addr: nat)
      requires Valid() && i < BIN_COUNT && addr in lives[i]
      modifies this, bins
      ensures Valid() && large == old(large)
      ensures forall a :: IsHeld(a) <==> old(IsHeld(a)) && a != addr
      ensures forall a :: old(IsHeld(a)) && a != addr ==> Capacity(a) == old(Capacity(a))
      ensures SmallBytes() == old(SmallBytes()) - BinSize(i)
      ensures headers == if old(FreesPage(i, addr)) then old(headers) - {PageBase(addr)} else old(headers)
      ensures PageBase(addr) in old(headers)
    {
      hide SbaOk, Held, CapacityOf, Weight, Bin.Valid, BinOk, BinSize, PageBase, Serves;
      var bin := bins[i];
      SmallPage(lives, pages, headers, large, i, addr);
      bin.Free(addr);
      BinPages(bin);
      ReleaseSmall(lives, pages, headers, large, i, addr, bin.carved.Keys);
      WeightAdd(lives, i, addr);
      if PageBase(addr) !in bin.counts {
        headers := headers - {PageBase(addr)};
      }
      ServesNow(bin);
      lives, pages := lives[i := bin.live], pages[i := bin.carved.Keys];
    }

    /** s_sba_free: a tagged page names the bin, anything else belongs to the parent. */
    method Release(addr: nat)
      requires Valid() && (addr == 0 || IsHeld(addr))
      modifies this, bins
      ensures Valid()
      ensures forall a :: IsHeld(a) <==> old(IsHeld(a)) && (addr == 0 || a != addr)
      ensures forall a :: old(IsHeld(a)) && (addr == 0 || a != addr) ==> Capacity(a) == old(Capacity(a))
      ensures SmallBytes() == old(SmallBytes()) - (if addr != 0 && PageBase(addr) in old(headers) then old(Capacity(addr)) else 0)
      ensures |headers| == |old(headers)| -
                           (if addr != 0 && PageBase(addr) in old(headers) && old(FreesPage(headers[PageBase(addr)], addr)) then 1 else 0)
    {
      hide SbaOk, Held, CapacityOf, Weight, BinSize, PageBase, FreesPage, Serves, Bin.Valid;
      if addr == 0 {
        return;
      }
      var page: nat := PageBase(addr);
      if page in headers {
        HeldTag(lives, pages, headers, large, addr);
        ReleaseTo(headers[page], addr);
        return;
      }
      ReleaseLarge(lives, pages, headers, large, addr);
      large := large - {addr};
    }

    /**
      s_sba_mem_realloc. The caller names a block of at least oldSize bytes, or
      NULL. The old block goes away exactly when the new size is zero or a new
      block was taken and the old size was not given as zero.
     */
    method Realloc(oldPtr: nat, oldSize: nat, newSize: nat, newPage: nat, newBlock: nat) returns (ptr: nat)
      requires Valid() && (oldPtr != 0 ==> IsHeld(oldPtr) && Capacity(oldPtr) >= oldSize)
      requires newSize <= MAX_BIN_SIZE ==> newPage > 0 && newPage % PAGE == 0 && Unused(headers, large, newPage, PAGE)
      requires newSize > MAX_BIN_SIZE && oldSize > MAX_BIN_SIZE ==> newBlock > 0 && Unused(headers, large - {oldPtr}, newBlock, newSize)
      requires newSize > MAX_BIN_SIZE && oldSize <= MAX_BIN_SIZE ==> newBlock > 0 && Unused(headers, large, newBlock, newSize)
      modifies this, bins
      ensures Valid()
      ensures newSize == 0 ==> ptr == 0 && forall a :: IsHeld(a) <==> old(IsHeld(a)) && (oldPtr == 0 || a != oldPtr)
      ensures Shrinks(oldSize, newSize) ==> ptr == oldPtr && forall a :: IsHeld(a) <==> old(IsHeld(a))
      ensures newSize != 0 && !Shrinks(oldSize, newSize) ==>
                && ptr != 0 && Capacity(ptr) >= newSize
                && forall a :: IsHeld(a) <==> a == ptr || (old(IsHeld(a)) && (a != oldPtr || oldPtr == 0 || oldSize == 0))
      ensures forall a :: old(IsHeld(a)) && a != oldPtr ==> Capacity(a) == old(Capacity(a))
      ensures Shrinks(oldSize, newSize) || (newSize != 0 && oldSize == 0) ==>
                forall a :: old(IsHeld(a)) ==> Capacity(a) == old(Capacity(a))
      ensures SmallBytes() == old(SmallBytes())
                + (if newSize != 0 && !Shrinks(oldSize, newSize) && newSize <= MAX_BIN_SIZE then Capacity(ptr) else 0)
                - (if oldPtr != 0 && OldGoes(oldSize, newSize) && old(Capacity(oldPtr)) <= MAX_BIN_SIZE then old(Capacity(oldPtr)) else 0)
    {
      hide SbaOk, Held, CapacityOf, Unused, Weight, BinSize, PageBase, FindBin;
      TaggedIsSmall(oldPtr);
      if oldSize > MAX_BIN_SIZE && newSize > MAX_BIN_SIZE {
        ReleaseLarge(lives, pages, headers, large, oldPtr);
        AcquireLarge(lives, pages, headers, large - {oldPtr}, newBlock, newSize);
        large := (large - {oldPtr})[newBlock := newSize];
        return newBlock;
      }
      if newSize == 0 {
        Release(oldPtr);
        return 0;
      }
      if oldSize > newSize {
        return oldPtr;
      }
      ptr := Acquire(newSize, newPage, newBlock);
      TaggedIsSmall(oldPtr);
      if oldPtr != 0 && oldSize != 0 {
        Release(oldPtr);
      }
    }

    /** aws_small_block_allocator_bytes_active. */
    method BytesActive() returns (used: nat)
      requires Valid()
      ensures used == SmallBytes()
      ensures NoSmall() ==> used == 0
    {
      hide SbaOk, Bin.Valid, BinSize, Held;
      used := 0;
      for i := 0 to BIN_COUNT
        invariant used == Weight(lives, i)
      {
        var n := bins[i].BytesActive();
        used := used + n;
      }
      if NoSmall() {
        WeightZero(lives, |lives|);
      }
    }

    /** aws_small_block_allocator_bytes_reserved. */
    method BytesReserved() returns (used: nat)
      requires Valid()
      ensures used == |headers| * PAGE
      ensures NoSmall() ==> used <= BIN_COUNT * PAGE
    {
      hide Bin.Valid, BinSize, Held, HeadersOk, LivesOk, LargeOk;
      PagesAreTagged(pages, headers);
      used := 0;
      for i := 0 to BIN_COUNT
        invariant used == PageSum(pages, i) * PAGE
        invariant NoSmall() ==> used <= i * PAGE
      {
        var n := bins[i].BytesReserved();
        used := used + n;
      }
    }

    /** A held block lies on a tagged page exactly when it is small. */
    lemma TaggedIsSmall(a: nat)
      requires Valid() && (a != 0 ==> IsHeld(a))
      ensures a != 0 ==> (PageBase(a) in headers <==> Capacity(a) <= MAX_BIN_SIZE)
      ensures a == 0 ==> PageBase(a) !in headers
      ensures !IsHeld(0)
    {
      hide Bin.Valid, BinSize, Serves;
      SmallBins();
      assert PageBase(0) == 0;
    }
  }

  /** The reallocation keeps the block it has. */
  predicate Shrinks(oldSize: nat, newSize: nat) {
    0 < newSize < oldSize && newSize <= MAX_BIN_SIZE
  }

  /** The reallocation gives the old block back. */
  predicate OldGoes(oldSize: nat, newSize: nat) {
    newSize == 0 || (oldSize != 0 && !Shrinks(oldSize, newSize))
  }

  lemma SmallBins()
    ensures forall i: nat :: i < BIN_COUNT ==> BinSize(i) <= MAX_BIN_SIZE
  {
    Pow2Small();
    forall i: nat | i < BIN_COUNT
      ensures BinSize(i) <= MAX_BIN_SIZE
    {
      Pow2Monotone(i + 5, 9);
    }
  }

  lemma EmptyAllocator(lives: seq<set<nat>>, pages: seq<set<nat>>)
    requires lives == [{}, {}, {}, {}, {}] == pages
    ensures SbaOk(lives, pages, map[], map[]) && Weight(lives, |lives|) == 0
    ensures forall a :: !Held(lives, map[], map[], a)
  {
    WeightZero(lives, |lives|);
  }

  lemma BinPages(bin: Bin)
    requires bin.Valid()
    ensures forall a :: a in bin.live ==> a > 0 && PageBase(a) in bin.carved
    ensures bin.counts.Keys == bin.carved.Keys
  {
    hide PageBase, BinOk;
    LivePages(bin.size, bin.View());
  }

  lemma SmallPage(lives: seq<set<nat>>, pages: seq<set<nat>>, headers: map<nat, nat>, large: map<nat, nat>, i: nat, c: nat)
    requires SbaOk(lives, pages, headers, large) && i < BIN_COUNT && i < |lives| && c in lives[i]
    ensures i < |pages| && PageBase(c) in pages[i] && PageBase(c) in headers && headers[PageBase(c)] == i
  {
    hide HeadersOk, LivesOk, LargeOk, PageBase;
    LivePage(lives, pages, headers, i, c);
  }

  /** The tag of a held block names the bin that has it. */
  lemma HeldTag(lives: seq<set<nat>>, pages: seq<set<nat>>, headers: map<nat, nat>, large: map<nat, nat>, a: nat)
    requires SbaOk(lives, pages, headers, large) && Held(lives, headers, large, a) && PageBase(a) in headers
    ensures var i := headers[PageBase(a)];
            i < BIN_COUNT && i < |lives| && a in lives[i] && CapacityOf(headers, large, a) == BinSize(i)
  {
    hide PageBase, BinSize;
  }

  lemma NewPageUnowned(lives: seq<set<nat>>, pages: seq<set<nat>>, headers: map<nat, nat>, large: map<nat, nat>,
                       page: nat, i: nat)
    requires SbaOk(lives, pages, headers, large) && Unused(headers, large, page, PAGE) && i < BIN_COUNT
    ensures page !in pages[i] && page !in headers
  {
    NewPageEmpty(headers, large, page);
  }

  lemma InsidePage(bin: Bin, a: nat)
    requires bin.Valid() && a in bin.live
    ensures PageBase(a) % PAGE == 0 && PageBase(a) + HEADER <= a && a + bin.size <= PageBase(a) + PAGE
  {
    hide PageBase, BinOk;
    var p, k := PlaceOf(bin.size, bin.View(), a);
  }

  lemma SameBinApart(bin: Bin, a: nat, b: nat)
    requires bin.Valid() && a in bin.live && b in bin.live && a != b
    ensures Apart(a, bin.size, b, bin.size)
  {
    hide PageBase, BinOk;
    BlocksApart(bin.size, bin.View(), a, b);
  }
}
