/** What a sequence of `getPage` calls does, starting from a new pool. */
module FetchSequence {
  import opened Types
  import opened Files
  import opened PoolSpec
  import opened PoolLemmas

  /** `s` in reverse order. */
  function Reversed(s: seq<PageId>): (r: seq<PageId>)
    ensures |r| == |s|
  {
    if s == [] then [] else [s[|s| - 1]] + Reversed(s[..|s| - 1])
  }

  /** The last element of the reversal is the first element. */
  lemma {:induction false} ReversedLast(s: seq<PageId>)
    requires s != []
    ensures Reversed(s)[|s| - 1] == s[0]
    decreases |s|
  {
    if |s| > 1 {
      ReversedLast(s[..|s| - 1]);
    }
  }

  /** The reversal holds the same elements. */
  lemma {:induction false} ReversedElements(s: seq<PageId>)
    ensures forall p :: p in Reversed(s) <==> p in s
    decreases |s|
  {
    if s != [] {
      ReversedElements(s[..|s| - 1]);
      assert s == s[..|s| - 1] + [s[|s| - 1]];
    }
  }

  /** `pid`'s file is registered and holds the page. */
  ghost predicate Available(files: map<string, DbFile>, pid: PageId) {
    pid.file in files && pid.page in files[pid.file].pages
  }

  /**
   * Fetches the pages of `ps` one after another, stopping at the first
   * failure; the result is Pass when every fetch succeeded.
   */
  ghost function FetchAll(s: Pool, files: map<string, DbFile>, ps: seq<PageId>): (r: Step<Outcome>)
    requires Inv(s)
    ensures r.result.Pass? ==> Inv(r.pool)
    decreases |ps|
  {
    if ps == [] then Step(Pass, s, files, [])
    else
      var prev := FetchAll(s, files, ps[..|ps| - 1]);
      if prev.result.Fail? then prev
      else
        var st := Fetch(prev.pool, prev.files, ps[|ps| - 1]);
        FetchKeepsInv(prev.pool, prev.files, ps[|ps| - 1]);
        Step(if st.result.Success? then Pass else Fail(st.result.error), st.pool, st.files, prev.io + st.io)
  }

  /** Fetching a list is fetching all but its last page, then the last page. */
  lemma FetchAllSnoc(s: Pool, files: map<string, DbFile>, ps: seq<PageId>)
    requires Inv(s) && ps != []
    ensures var prev := FetchAll(s, files, ps[..|ps| - 1]);
      prev.result.Pass? ==>
        var st := Fetch(prev.pool, prev.files, ps[|ps| - 1]);
        FetchAll(s, files, ps) ==
          Step(if st.result.Success? then Pass else Fail(st.result.error), st.pool, st.files, prev.io + st.io)
  {
  }

  /**
   * Fetching one more page that is not resident while a slot is free: the
   * result of the previous fetches, with the page read into the top free slot.
   */
  lemma FetchAllMissFree(s: Pool, files: map<string, DbFile>, ps: seq<PageId>)
    requires Inv(s) && ps != []
    requires var prev := FetchAll(s, files, ps[..|ps| - 1]);
      && prev.result.Pass? && ps[|ps| - 1] !in prev.pool.index && |prev.pool.free| > 0
      && Available(prev.files, ps[|ps| - 1])
    ensures var prev := FetchAll(s, files, ps[..|ps| - 1]);
      var r := FetchAll(s, files, ps);
      var x := ps[|ps| - 1];
      var slot := prev.pool.free[|prev.pool.free| - 1];
      && r.result == Pass
      && r.files == prev.files
      && r.io == prev.io + [Read(x)]
      && r.pool.frames == prev.pool.frames[slot := prev.files[x.file].pages[x.page]]
      && r.pool.free == prev.pool.free[..|prev.pool.free| - 1]
      && r.pool.index == prev.pool.index[x := slot]
      && r.pool.lru == [x] + prev.pool.lru
      && r.pool.dirty == prev.pool.dirty
  {
    var prev := FetchAll(s, files, ps[..|ps| - 1]);
    FetchMissFree(prev.pool, prev.files, ps[|ps| - 1]);
    FetchAllSnoc(s, files, ps);
  }

  /**
   * Fetching one more page that is not resident while no slot is free and the
   * least recently used page is clean: that page leaves, the new one is read
   * into its slot, and nothing is written.
   */
  lemma FetchAllEvictClean(s: Pool, files: map<string, DbFile>, ps: seq<PageId>)
    requires Inv(s) && ps != []
    requires var prev := FetchAll(s, files, ps[..|ps| - 1]);
      && prev.result.Pass? && ps[|ps| - 1] !in prev.pool.index
      && prev.pool.free == [] && |prev.pool.lru| > 0
      && prev.pool.lru[|prev.pool.lru| - 1] !in prev.pool.dirty
      && Available(prev.files, ps[|ps| - 1])
    ensures var prev := FetchAll(s, files, ps[..|ps| - 1]);
      var r := FetchAll(s, files, ps);
      var x := ps[|ps| - 1];
      var victim := prev.pool.lru[|prev.pool.lru| - 1];
      && r.result == Pass
      && r.files == prev.files
      && r.io == prev.io + [Read(x)]
      && r.pool.index == (prev.pool.index - {victim})[x := prev.pool.index[victim]]
  {
    var prev := FetchAll(s, files, ps[..|ps| - 1]);
    FetchEvict(prev.pool, prev.files, ps[|ps| - 1]);
    FetchAllSnoc(s, files, ps);
  }

  /** Reading one more page extends a log of one read per page, in order. */
  lemma ReadsSnoc(io: seq<IoEvent>, ps: seq<PageId>)
    requires ps != [] && |io| == |ps| - 1
    requires forall i :: 0 <= i < |ps| - 1 ==> io[i] == Read(ps[i])
    ensures var io' := io + [Read(ps[|ps| - 1])];
      |io'| == |ps| && forall i :: 0 <= i < |ps| ==> io'[i] == Read(ps[i])
  {
  }

  /**
   * Fetching distinct available pages into a pool where nothing is resident
   * and no slot is lost, while they fit, succeeds, reads nothing but these
   * pages and evicts nothing: all of them are resident, none is dirty, and
   * each took one free slot.
   */
  lemma {:induction false} FillResident(s: Pool, files: map<string, DbFile>, ps: seq<PageId>)
    requires Inv(s) && Conserved(s) && s.index == map[] && s.lru == [] && s.dirty == {}
    requires Distinct(ps) && |ps| <= CAPACITY
    requires forall p :: p in ps ==> Available(files, p)
    ensures var st := FetchAll(s, files, ps);
      && st.result == Pass
      && st.files == files
      && (forall p :: p in st.pool.index <==> p in ps)
      && Conserved(st.pool)
      && |st.pool.index| == |ps|
      && st.pool.dirty == {}
    decreases |ps|
  {
    if ps != [] {
      var init := ps[..|ps| - 1];
      var x := ps[|ps| - 1];
      SnocMembers(ps);
      FillResident(s, files, init);
      var prev := FetchAll(s, files, init);
      assert x !in init;
      FetchAllMissFree(s, files, ps);
      var slot := prev.pool.free[|prev.pool.free| - 1];
      MapAddSize(prev.pool.index, x, slot);
    }
  }

  /** The distinct pages a run of fetches touches. */
  ghost function Touched(ps: seq<PageId>): (r: set<PageId>)
    ensures forall p :: p in r <==> p in ps
  {
    set p | p in ps
  }

  /** A run touches the pages of all but its last fetch, and the last page. */
  lemma TouchedSnoc(ps: seq<PageId>)
    requires ps != []
    ensures Touched(ps) == Touched(ps[..|ps| - 1]) + {ps[|ps| - 1]}
    ensures ps[|ps| - 1] !in ps[..|ps| - 1] ==> |Touched(ps)| == |Touched(ps[..|ps| - 1])| + 1
    ensures |Touched(ps[..|ps| - 1])| <= |Touched(ps)|
  {
    SnocMembers(ps);
  }

  /**
   * A miss on an available page while a slot is free and none is lost: it
   * succeeds, evicts nothing and adds the page to the resident ones.
   */
  lemma FetchIntoFreeSlot(t: Pool, files: map<string, DbFile>, x: PageId)
    requires Inv(t) && Conserved(t) && Available(files, x)
    requires x !in t.index && |t.index| < CAPACITY
    ensures var st := Fetch(t, files, x);
      && st.result.Success?
      && st.files == files
      && st.pool.index.Keys == t.index.Keys + {x}
      && Conserved(st.pool)
      && st.pool.dirty == t.dirty
  {
    FetchMissFree(t, files, x);
    MapAddSize(t.index, x, t.free[|t.free| - 1]);
  }

  /**
   * One more fetch, of an available page that is resident or fits, after a
   * run that left nothing dirty and no slot lost: it succeeds and adds the
   * page to the resident ones.
   */
  lemma FetchAllWithoutEviction(s: Pool, files: map<string, DbFile>, ps: seq<PageId>)
    requires Inv(s) && ps != []
    requires var prev := FetchAll(s, files, ps[..|ps| - 1]);
      var x := ps[|ps| - 1];
      && prev.result == Pass && prev.files == files
      && Conserved(prev.pool) && prev.pool.dirty == {}
      && Available(files, x)
      && (x !in prev.pool.index ==> |prev.pool.index| < CAPACITY)
    ensures var prev := FetchAll(s, files, ps[..|ps| - 1]);
      var st := FetchAll(s, files, ps);
      && st.result == Pass
      && st.files == files
      && st.pool.index.Keys == prev.pool.index.Keys + {ps[|ps| - 1]}
      && Conserved(st.pool)
      && st.pool.dirty == {}
  {
    var prev := FetchAll(s, files, ps[..|ps| - 1]);
    var x := ps[|ps| - 1];
    if x in prev.pool.index {
      FetchHit(prev.pool, prev.files, x);
    } else {
      FetchIntoFreeSlot(prev.pool, prev.files, x);
    }
    FetchAllSnoc(s, files, ps);
  }

  /**
   * Any run of fetches of available pages, repeats included, that touches
   * at most CAPACITY distinct pages, into a pool where nothing is resident
   * and no slot is lost: every fetch succeeds, nothing is evicted, and the
   * resident pages are exactly those touched, none of them dirty.
   */
  lemma {:induction false} FillWithRepeats(s: Pool, files: map<string, DbFile>, ps: seq<PageId>)
    requires Inv(s) && Conserved(s) && s.index == map[] && s.lru == [] && s.dirty == {}
    requires forall p :: p in ps ==> Available(files, p)
    requires |Touched(ps)| <= CAPACITY
    ensures var st := FetchAll(s, files, ps);
      && st.result == Pass
      && st.files == files
      && st.pool.index.Keys == Touched(ps)
      && Conserved(st.pool)
      && st.pool.dirty == {}
    decreases |ps|
  {
    if ps != [] {
      var init := ps[..|ps| - 1];
      SnocMembers(ps);
      TouchedSnoc(ps);
      FillWithRepeats(s, files, init);
      FetchAllWithoutEviction(s, files, ps);
    }
  }

  /**
   * After fetching distinct available pages into an empty conserved pool (as
   * in FillResident), the recency list holds the pages most recent first,
   * and the transfers are exactly one read per page, in order.
   */
  lemma {:induction false} FillOrder(s: Pool, files: map<string, DbFile>, ps: seq<PageId>)
    requires Inv(s) && Conserved(s) && s.index == map[] && s.lru == [] && s.dirty == {}
    requires Distinct(ps) && |ps| <= CAPACITY
    requires forall p :: p in ps ==> Available(files, p)
    ensures var st := FetchAll(s, files, ps);
      && st.pool.lru == Reversed(ps)
      && |st.io| == |ps|
      && (forall i :: 0 <= i < |ps| ==> st.io[i] == Read(ps[i]))
    decreases |ps|
  {
    if ps != [] {
      var init := ps[..|ps| - 1];
      var x := ps[|ps| - 1];
      SnocMembers(ps);
      FillResident(s, files, init);
      FillOrder(s, files, init);
      assert x !in init;
      FetchAllMissFree(s, files, ps);
      ReadsSnoc(FetchAll(s, files, init).io, ps);
    }
  }

  /** A new pool filled with distinct available pages, while they fit. */
  lemma FillFromEmpty(files: map<string, DbFile>, ps: seq<PageId>)
    requires Distinct(ps) && |ps| <= CAPACITY
    requires forall p :: p in ps ==> Available(files, p)
    ensures var st := FetchAll(Init(), files, ps);
      && st.result == Pass
      && st.files == files
      && st.pool.lru == Reversed(ps)
      && (forall p :: p in st.pool.lru <==> p in ps)
      && (forall p :: p in st.pool.index <==> p in ps)
      && |st.pool.free| == CAPACITY - |ps|
      && st.pool.dirty == {}
      && |st.io| == |ps|
      && (forall i :: 0 <= i < |ps| ==> st.io[i] == Read(ps[i]))
  {
    FillResident(Init(), files, ps);
    FillOrder(Init(), files, ps);
    ReversedElements(ps);
  }

  /**
   * Replacing the first of distinct resident pages by one more page leaves
   * exactly the later pages resident.
   */
  lemma ReplaceFirst<S>(index: map<PageId, S>, ps: seq<PageId>, slot: S)
    requires Distinct(ps) && |ps| > 1
    requires forall p :: p in index <==> p in ps[..|ps| - 1]
    ensures var index' := (index - {ps[0]})[ps[|ps| - 1] := slot];
      && ps[0] !in index'
      && forall i :: 1 <= i < |ps| ==> ps[i] in index'
  {
    forall i | 1 <= i < |ps| - 1 ensures ps[i] in index {
      assert ps[i] == ps[..|ps| - 1][i];
    }
  }

  /**
   * CAPACITY fetches of distinct available pages fill a new pool: no slot
   * is free, nothing is dirty, exactly those pages are resident and the
   * first one fetched is the least recently used.
   */
  lemma FullFromEmpty(files: map<string, DbFile>, ps: seq<PageId>)
    requires Distinct(ps) && |ps| == CAPACITY
    requires forall p :: p in ps ==> Available(files, p)
    ensures var st := FetchAll(Init(), files, ps);
      && st.result == Pass
      && st.files == files
      && st.pool.free == []
      && st.pool.dirty == {}
      && (forall p :: p in st.pool.index <==> p in ps)
      && |st.pool.lru| > 0 && st.pool.lru[|st.pool.lru| - 1] == ps[0]
  {
    FillResident(Init(), files, ps);
    FillOrder(Init(), files, ps);
    ReversedLast(ps);
  }

  /**
   * After CAPACITY + 1 fetches of distinct available pages into a new pool,
   * all succeed, the first page fetched (the least recently used) has been
   * evicted and every later one is resident.
   */
  lemma FirstFetchedEvicted(files: map<string, DbFile>, ps: seq<PageId>)
    requires Distinct(ps) && |ps| == CAPACITY + 1
    requires forall p :: p in ps ==> Available(files, p)
    ensures var st := FetchAll(Init(), files, ps);
      && st.result == Pass
      && ps[0] !in st.pool.index
      && (forall i :: 1 <= i < |ps| ==> ps[i] in st.pool.index)
  {
    var init := ps[..CAPACITY];
    var x := ps[CAPACITY];
    assert forall p :: p in init ==> p in ps;
    FullFromEmpty(files, init);
    assert x !in init;
    FetchAllEvictClean(Init(), files, ps);
    var prev := FetchAll(Init(), files, init);
    ReplaceFirst(prev.pool.index, ps, prev.pool.index[ps[0]]);
  }

  /**
   * In the same situation, no page was ever dirty, so the eviction wrote
   * nothing back: the transfers are exactly one read per page, in order.
   */
  lemma FirstFetchedEvictedReads(files: map<string, DbFile>, ps: seq<PageId>)
    requires Distinct(ps) && |ps| == CAPACITY + 1
    requires forall p :: p in ps ==> Available(files, p)
    ensures var st := FetchAll(Init(), files, ps);
      && |st.io| == |ps|
      && (forall i :: 0 <= i < |ps| ==> st.io[i] == Read(ps[i]))
  {
    var init := ps[..CAPACITY];
    var x := ps[CAPACITY];
    assert forall p :: p in init ==> p in ps;
    FillFromEmpty(files, init);
    assert x !in init;
    FetchAllEvictClean(Init(), files, ps);
    ReadsSnoc(FetchAll(Init(), files, init).io, ps);
  }
}
