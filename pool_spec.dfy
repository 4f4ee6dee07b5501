/**
 * The buffer pool's bookkeeping as a value, and each pool operation as a
 * function from the state before the call to the state after it.
 */
module PoolSpec {
  import opened Types
  import opened Files

  /**
   * The state of a BufferPool: the contents of its slots (`pages_`), the
   * stack of free slot numbers whose top is the last element (`free_`), the
   * slot of every resident page (`index_`), the resident pages from most to
   * least recently used (`lru_`) and the dirty pages (`dirty_`).
   */
  datatype Pool = Pool(
    frames: seq<Page>,
    free: seq<nat>,
    index: map<PageId, nat>,
    lru: seq<PageId>,
    dirty: set<PageId>)

  /**
   * What one call does: its result, the pool and the catalog after it, and
   * the transfers it performed, in order.
   */
  datatype Step<T> = Step(result: T, pool: Pool, files: map<string, DbFile>, io: seq<IoEvent>)

  /** Every resident page names an existing slot. */
  ghost predicate IndexInRange(s: Pool) {
    forall p :: p in s.index ==> s.index[p] < |s.frames|
  }

  /**
   * The invariant every successful operation keeps: slots are in range, free
   * slots are distinct and not occupied, occupied slots and resident pages
   * are in bijection, the recency list holds each resident page exactly once
   * and only resident pages are dirty.
   */
  ghost predicate Inv(s: Pool) {
    && |s.frames| == CAPACITY
    && IndexInRange(s)
    && Distinct(s.free)
    && (forall i :: 0 <= i < |s.free| ==> s.free[i] < CAPACITY)
    && (forall p :: p in s.index ==> s.index[p] !in s.free)
    && (forall p, q :: p in s.index && q in s.index && s.index[p] == s.index[q] ==> p == q)
    && Distinct(s.lru)
    && (forall p :: p in s.lru <==> p in s.index)
    && s.dirty <= s.index.Keys
  }

  /** No slot has been lost: free and occupied slots number CAPACITY. */
  ghost predicate Conserved(s: Pool) {
    |s.free| + |s.index| == CAPACITY
  }

  /** `order` lists the elements of `pages`, each exactly once. */
  ghost predicate Enumerates(order: seq<PageId>, pages: set<PageId>) {
    Distinct(order) && forall p :: p in order <==> p in pages
  }

  /** The dirty pages that belong to `file`. */
  function DirtyOf(dirty: set<PageId>, file: string): set<PageId> {
    set p | p in dirty && p.file == file
  }

  /** A freshly constructed pool: every slot free, nothing resident. */
  function Init(): (r: Pool)
    ensures Inv(r) && Conserved(r)
    ensures |r.free| == CAPACITY && r.index == map[] && r.lru == [] && r.dirty == {}
  {
    Pool(seq(CAPACITY, _ => EMPTY_PAGE), seq(CAPACITY, i => i), map[], [], {})
  }

  /** `s` without `x`; the recency list's `erase`. */
  function Erase(s: seq<PageId>, x: PageId): (r: seq<PageId>)
    ensures forall y :: y in r <==> y in s && y != x
    ensures Distinct(s) ==> Distinct(r)
    ensures |r| <= |s|
  {
    if s == [] then []
    else
      var rest := Erase(s[1..], x);
      assert Distinct(s) ==> s[0] !in s[1..];
      if s[0] == x then rest else [s[0]] + rest
  }

  /** `markDirty`: marks `pid` dirty when it is resident, else does nothing. */
  function MarkDirty(s: Pool, pid: PageId): (r: Pool)
    ensures r == s.(dirty := r.dirty)
    ensures s.dirty <= r.dirty <= s.dirty + {pid}
    ensures pid in r.dirty <==> pid in s.dirty || pid in s.index
  {
    if pid in s.index then s.(dirty := s.dirty + {pid}) else s
  }

  /**
   * `discardPage`: forgets a resident page without writing it back and
   * pushes its slot on the free stack; does nothing for a page not resident.
   */
  function Discard(s: Pool, pid: PageId): (r: Pool)
    ensures pid !in s.index ==> r == s
    ensures r.frames == s.frames
    ensures r.index.Keys == s.index.Keys - {pid}
    ensures forall q :: q in r.index ==> r.index[q] == s.index[q]
    ensures pid in s.index ==>
      && r.free == s.free + [s.index[pid]]
      && r.dirty == s.dirty - {pid}
      && (forall q :: q in r.lru <==> q in s.lru && q != pid)
  {
    if pid !in s.index then s
    else s.(free := s.free + [s.index[pid]],
            lru := Erase(s.lru, pid),
            dirty := s.dirty - {pid},
            index := s.index - {pid})
  }

  /**
   * `flushPage`: when `pid` is resident and dirty, writes its slot to its
   * file and clears its dirty mark; otherwise does nothing. Fails, changing
   * nothing, when the file is not in the catalog.
   */
  function FlushPage(s: Pool, files: map<string, DbFile>, pid: PageId): (r: Step<Outcome>)
    requires IndexInRange(s)
    ensures r.pool == s.(dirty := r.pool.dirty)
    ensures r.pool.dirty <= s.dirty
    ensures forall q :: q in s.dirty && q != pid ==> q in r.pool.dirty
    ensures r.files.Keys == files.Keys
    ensures r.result.Fail? ==> r.result.error == NoSuchFile(pid.file) && pid.file !in files
  {
    if pid !in s.index then Step(Pass, s, files, [])
    else if pid !in s.dirty then Step(Pass, s, files, [])
    else
      match Lookup(files, pid.file)
      case Failure(e) => Step(Fail(e), s, files, [])
      case Success(f) =>
        var data := s.frames[s.index[pid]];
        Step(Pass, s.(dirty := s.dirty - {pid}),
             files[pid.file := WritePage(f, pid.page, data)], [Write(pid, data)])
  }

  /**
   * Flushes the pages of `order` one after another, stopping at the first
   * failure; the second loop of `flushFile` and of the destructor.
   */
  function FlushAll(s: Pool, files: map<string, DbFile>, order: seq<PageId>): (r: Step<Outcome>)
    requires IndexInRange(s)
    ensures r.pool == s.(dirty := r.pool.dirty)
    ensures r.pool.dirty <= s.dirty
    ensures forall q :: q in s.dirty && q !in order ==> q in r.pool.dirty
    ensures r.files.Keys == files.Keys
    ensures r.result.Fail? ==> r.result.error.NoSuchFile? && r.result.error.name !in files
    decreases |order|
  {
    if order == [] then Step(Pass, s, files, [])
    else
      var prev := FlushAll(s, files, order[..|order| - 1]);
      if prev.result.Fail? then prev
      else
        var st := FlushPage(prev.pool, prev.files, order[|order| - 1]);
        Step(st.result, st.pool, st.files, prev.io + st.io)
  }

  /**
   * The second half of a miss: looks the file up, reads the page into `slot`
   * and makes `pid` resident and most recently used. A failed lookup or read
   * leaves the claimed slot neither free nor occupied.
   */
  function Load(s: Pool, files: map<string, DbFile>, pid: PageId, slot: nat, io: seq<IoEvent>)
    : (r: Step<Result<nat>>)
    requires slot < |s.frames|
    ensures r.files == files
    ensures r.result.Success? <==> pid.file in files && pid.page in files[pid.file].pages
  {
    match Lookup(files, pid.file)
    case Failure(e) => Step(Failure(e), s, files, io)
    case Success(f) =>
      match ReadPage(f, pid.page)
      case Failure(e) => Step(Failure(e), s, files, io)
      case Success(data) =>
        Step(Success(slot),
             s.(frames := s.frames[slot := data], index := s.index[pid := slot], lru := [pid] + s.lru),
             files, io + [Read(pid)])
  }

  /**
   * `getPage`: the slot holding `pid`, which becomes most recently used.
   * A hit only moves `pid` to the front. A miss takes the top free slot, or,
   * when none is free, evicts the back of the recency list, writing it back
   * first when dirty; the victim leaves the recency list before that write,
   * so a failed write leaves it resident and dirty but no longer listed.
   */
  function Fetch(s: Pool, files: map<string, DbFile>, pid: PageId): (r: Step<Result<nat>>)
    requires Inv(s)
    ensures r.result.Success? ==> r.result.value < CAPACITY
  {
    if pid in s.index then
      Step(Success(s.index[pid]), s.(lru := [pid] + Erase(s.lru, pid)), files, [])
    else if |s.free| > 0 then
      Load(s.(free := s.free[..|s.free| - 1]), files, pid, s.free[|s.free| - 1], [])
    else if |s.lru| == 0 then
      Step(Failure(NoFreeSlot), s, files, [])
    else
      var victim := s.lru[|s.lru| - 1];
      var slot := s.index[victim];
      var s1 := s.(lru := s.lru[..|s.lru| - 1]);
      var wb := if victim in s.dirty then FlushPage(s1, files, victim) else Step(Pass, s1, files, []);
      if wb.result.Fail? then Step(Failure(wb.result.error), wb.pool, wb.files, wb.io)
      else
        Load(wb.pool.(index := wb.pool.index - {victim}, dirty := wb.pool.dirty - {victim}),
             wb.files, pid, slot, wb.io)
  }
}
