/**
 * The buffer pool and the database as objects whose fields change in place.
 * Every operation is proved against the function of PoolSpec or Files that
 * says what it does to the state, so the lemmas about those functions carry
 * over to the objects.
 */
module Db {
  import opened Types
  import opened Files
  import opened PoolSpec
  import opened PoolLemmas
  import opened FlushLemmas

  /**
   * A page cache of CAPACITY slots. A caller reads and writes the page held
   * in the slot returned by GetPage through `pages`.
   */
  class BufferPool {
    /** The slots; `pages_`. */
    const pages: array<Page>
    /** Free slot numbers; the last one is taken first. */
    var free: seq<nat>
    /** The slot of every resident page. */
    var index: map<PageId, nat>
    /** The resident pages, most recently used first. */
    var lru: seq<PageId>
    /** The resident pages changed since they were last written back. */
    var dirty: set<PageId>
    /** Every transfer between the pool and the files so far, in order. */
    ghost var log: seq<IoEvent>

    /** The pool's bookkeeping as a value. */
    ghost function State(): Pool
      reads this, pages
    {
      Pool(pages[..], free, index, lru, dirty)
    }

    ghost predicate Valid()
      reads this, pages
    {
      Inv(State())
    }

    /**
     * The pool, the catalog of `db` and the transfer log are those of `st`,
     * the transfers appended to `log0`.
     */
    ghost predicate Reflects<T>(st: Step<T>, db: Database, log0: seq<IoEvent>)
      reads this, pages, db
    {
      State() == st.pool && db.catalog == st.files && log == log0 + st.io
    }

    /** Every slot free, pushed in increasing order; nothing resident. */
    constructor()
      ensures State() == Init() && log == []
      ensures fresh(pages)
    {
      var slotArray := new Page[CAPACITY](_ => EMPTY_PAGE);
      assert slotArray[..] == seq(CAPACITY, _ => EMPTY_PAGE);
      pages := slotArray;
      var slots: seq<nat> := [];
      var i := 0;
      while i < CAPACITY
        invariant 0 <= i <= CAPACITY
        invariant slots == seq(i, j => j)
      {
        slots := slots + [i];
        i := i + 1;
      }
      free := slots;
      index := map[];
      lru := [];
      dirty := {};
      log := [];
    }

    /**
     * `getPage`: the slot holding `pid`, which becomes most recently used.
     * A page not resident is read from its file into a free slot or, when
     * none is left, into the slot of the least recently used page, which is
     * first written back if dirty.
     */
    method GetPage(pid: PageId, db: Database) returns (r: Result<nat>)
      requires Valid()
      modifies this, pages, db`catalog
      ensures var st := Fetch(old(State()), old(db.catalog), pid);
        r == st.result && Reflects(st, db, old(log))
      ensures old(db.Valid()) ==> db.Valid()
    {
      FetchKeepsNames(State(), db.catalog, pid);
      if pid in index {
        lru := [pid] + Erase(lru, pid);
        return Success(index[pid]);
      }
      var slot: nat;
      if |free| > 0 {
        slot := free[|free| - 1];
        free := free[..|free| - 1];
      } else {
        if |lru| == 0 {
          return Failure(NoFreeSlot);
        }
        var victim := lru[|lru| - 1];
        lru := lru[..|lru| - 1];
        slot := index[victim];
        if victim in dirty {
          var o := FlushPage(victim, db);
          if o.Fail? {
            return Failure(o.error);
          }
        }
        index := index - {victim};
        dirty := dirty - {victim};
      }
      var f := db.Get(pid.file);
      if f.Failure? {
        return Failure(f.error);
      }
      var data := ReadPage(f.value, pid.page);
      if data.Failure? {
        return Failure(data.error);
      }
      pages[slot] := data.value;
      index := index[pid := slot];
      lru := [pid] + lru;
      log := log + [Read(pid)];
      return Success(slot);
    }

    /** `markDirty`: marks `pid` dirty when it is resident. */
    method MarkDirty(pid: PageId)
      modifies this
      ensures State() == PoolSpec.MarkDirty(old(State()), pid) && log == old(log)
      ensures old(Valid()) ==> Valid()
    {
      if Valid() {
        MarkDirtyKeepsInv(State(), pid);
      }
      if pid in index {
        dirty := dirty + {pid};
      }
    }

    /** `isDirty`: only a resident page can be dirty. */
    function IsDirty(pid: PageId): (r: bool)
      reads this, pages
      ensures Valid() && r ==> Contains(pid)
    {
      pid in dirty
    }

    /** `contains`: a page is resident exactly when it is in the recency list. */
    function Contains(pid: PageId): (r: bool)
      reads this, pages
      ensures Valid() ==> (r <==> pid in lru)
    {
      pid in index
    }

    /** `discardPage`: forgets a resident page without writing it back. */
    method DiscardPage(pid: PageId)
      modifies this
      ensures State() == Discard(old(State()), pid) && log == old(log)
      ensures old(Valid()) ==> Valid()
    {
      if Valid() {
        DiscardKeepsInv(State(), pid);
      }
      if pid !in index {
        return;
      }
      var slot := index[pid];
      free := free + [slot];
      lru := Erase(lru, pid);
      dirty := dirty - {pid};
      index := index - {pid};
    }

    /**
     * `flushPage`: writes a resident dirty page to its file and clears its
     * dirty mark. Also called in the middle of an eviction, when the victim
     * has already left the recency list, so it asks only that slots are in
     * range.
     */
    method FlushPage(pid: PageId, db: Database) returns (o: Outcome)
      requires IndexInRange(State())
      modifies this, db`catalog
      ensures var st := PoolSpec.FlushPage(old(State()), old(db.catalog), pid);
        o == st.result && Reflects(st, db, old(log))
      ensures old(Valid()) ==> Valid()
      ensures old(db.Valid()) ==> db.Valid()
    {
      FlushPageSpec(State(), db.catalog, pid);
      if pid !in index || pid !in dirty {
        return Pass;
      }
      var f := db.Get(pid.file);
      if f.Failure? {
        return Fail(f.error);
      }
      var data := pages[index[pid]];
      db.catalog := db.catalog[pid.file := WritePage(f.value, pid.page, data)];
      dirty := dirty - {pid};
      log := log + [Write(pid, data)];
      return Pass;
    }

    /**
     * Flushes the pages of `order` one after another and stops at the first
     * that fails, as the second loop of `flushFile` and of the destructor do.
     */
    method FlushEach(order: seq<PageId>, db: Database) returns (o: Outcome)
      requires IndexInRange(State())
      modifies this, db`catalog
      ensures var st := FlushAll(old(State()), old(db.catalog), order);
        o == st.result && Reflects(st, db, old(log))
      ensures old(db.Valid()) ==> db.Valid()
    {
      ghost var s0 := State();
      ghost var files0 := db.catalog;
      ghost var log0 := log;
      ghost var done := FlushAll(s0, files0, []);
      var i := 0;
      while i < |order|
        invariant 0 <= i <= |order|
        invariant done == FlushAll(s0, files0, order[..i])
        invariant done.result == Pass && Reflects(done, db, log0)
      {
        FlushAllPrefix(s0, files0, order, i);
        ghost var step := PoolSpec.FlushPage(done.pool, done.files, order[i]);
        o := FlushPage(order[i], db);
        AppendAssoc(log0, done.io, step.io);
        done := FlushAll(s0, files0, order[..i + 1]);
        if o.Fail? {
          FlushAllAfterFail(s0, files0, order, i + 1);
          FlushAllKeepsNames(s0, files0, order);
          return;
        }
        i := i + 1;
      }
      assert order[..i] == order;
      FlushAllKeepsNames(s0, files0, order);
      return Pass;
    }

    /**
     * `flushFile`: collects the dirty pages of `file`, in the unspecified
     * order `order` of the dirty set, then flushes them one by one.
     */
    method FlushFile(file: string, db: Database) returns (o: Outcome, ghost order: seq<PageId>)
      requires IndexInRange(State())
      modifies this, db`catalog
      ensures Enumerates(order, DirtyOf(old(dirty), file))
      ensures var st := FlushAll(old(State()), old(db.catalog), order);
        o == st.result && Reflects(st, db, old(log))
      ensures old(Valid()) ==> Valid()
      ensures old(db.Valid()) ==> db.Valid()
    {
      var toFlush: seq<PageId> := [];
      var rest := dirty;
      while rest != {}
        modifies {}
        invariant rest <= dirty
        invariant Distinct(toFlush)
        invariant forall p :: p in toFlush <==> p in dirty && p !in rest && p.file == file
        decreases |rest|
      {
        var p :| p in rest;
        if p.file == file {
          DistinctSnoc(toFlush, p);
          toFlush := toFlush + [p];
        }
        rest := rest - {p};
      }
      order := toFlush;
      o := FlushEach(toFlush, db);
      if old(Valid()) {
        CleanerKeepsInv(old(State()), dirty);
      }
    }

    /**
     * The destructor: collects every dirty page, in the unspecified order
     * `order` of the dirty set, then flushes them one by one.
     */
    method Close(db: Database) returns (o: Outcome, ghost order: seq<PageId>)
      requires IndexInRange(State())
      modifies this, db`catalog
      ensures Enumerates(order, old(dirty))
      ensures var st := FlushAll(old(State()), old(db.catalog), order);
        o == st.result && Reflects(st, db, old(log))
      ensures old(db.Valid()) ==> db.Valid()
    {
      var toFlush: seq<PageId> := [];
      var rest := dirty;
      while rest != {}
        modifies {}
        invariant rest <= dirty
        invariant Distinct(toFlush)
        invariant forall p :: p in toFlush <==> p in dirty && p !in rest
        decreases |rest|
      {
        var p :| p in rest;
        DistinctSnoc(toFlush, p);
        toFlush := toFlush + [p];
        rest := rest - {p};
      }
      order := toFlush;
      o := FlushEach(toFlush, db);
    }
  }

  /** The catalog of files, and the buffer pool that caches their pages. */
  class Database {
    /** Every registered file under its name. */
    var catalog: map<string, DbFile>
    /** The pool; `getBufferPool`. */
    const bufferPool: BufferPool

    ghost predicate Valid()
      reads this
    {
      WellNamed(catalog)
    }

    /**
     * `get`: the file registered under `name`, which carries that name, or
     * NoSuchFile; changes nothing.
     */
    function Get(name: string): (r: Result<DbFile>)
      reads this
      ensures r.Success? <==> name in catalog
      ensures r.Success? ==> r.value == catalog[name]
      ensures Valid() && r.Success? ==> r.value.name == name
      ensures r.Failure? ==> r.error == NoSuchFile(name)
    {
      Lookup(catalog, name)
    }

    /** An empty catalog and a new pool. */
    constructor()
      ensures catalog == map[] && Valid()
      ensures fresh(bufferPool) && fresh(bufferPool.pages)
      ensures bufferPool.State() == Init() && bufferPool.log == []
    {
      catalog := map[];
      bufferPool := new BufferPool();
    }

    /** `add`: registers a file under its own name. */
    method Add(file: Option<DbFile>) returns (o: Outcome)
      modifies this`catalog
      ensures var r := AddFile(old(catalog), file);
        && (r.Success? ==> o == Pass && catalog == r.value)
        && (r.Failure? ==> o == Fail(r.error) && catalog == old(catalog))
      ensures old(Valid()) ==> Valid()
    {
      var r := AddFile(catalog, file);
      if r.Failure? {
        return Fail(r.error);
      }
      catalog := r.value;
      return Pass;
    }

    /**
     * `remove`: flushes the dirty pages of the file, then hands it back and
     * unregisters it. Its pages stay resident in the pool, and clean.
     */
    method Remove(name: string) returns (r: Result<DbFile>, ghost order: seq<PageId>)
      requires IndexInRange(bufferPool.State()) && bufferPool.dirty <= bufferPool.index.Keys
      modifies this`catalog, bufferPool
      ensures old(bufferPool.Valid()) ==> bufferPool.Valid()
      ensures old(Valid()) ==> Valid()
      ensures name !in old(catalog) ==>
        && r == Failure(NoSuchFile(name)) && catalog == old(catalog)
        && bufferPool.State() == old(bufferPool.State()) && bufferPool.log == old(bufferPool.log)
      ensures name in old(catalog) ==>
        && Enumerates(order, DirtyOf(old(bufferPool.dirty), name))
        && var st := FlushAll(old(bufferPool.State()), old(catalog), order);
        && st.result == Pass
        && r.Success? && RemoveFile(st.files, name) == Success(Removal(r.value, catalog))
        && bufferPool.State() == st.pool && bufferPool.log == old(bufferPool.log) + st.io
      ensures name in old(catalog) ==>
        && r.Success?
        && bufferPool.index == old(bufferPool.index) && bufferPool.lru == old(bufferPool.lru)
        && (forall p: PageId :: p.file == name ==> p !in bufferPool.dirty)
        && (forall p: PageId :: p.file != name ==> (p in bufferPool.dirty <==> p in old(bufferPool.dirty)))
        && (forall p :: p in DirtyOf(old(bufferPool.dirty), name) ==>
              ReadPage(r.value, p.page) == Success(bufferPool.pages[bufferPool.index[p]]))
    {
      var found := RemoveFile(catalog, name);
      if found.Failure? {
        return Failure(found.error), [];
      }
      var o;
      o, order := bufferPool.FlushFile(name, this);
      FlushFileSpec(old(bufferPool.State()), old(catalog), name, order);
      FlushAllDisk(old(bufferPool.State()), old(catalog), order);
      var removed := RemoveFile(catalog, name);
      r := Success(removed.value.file);
      catalog := removed.value.catalog;
    }
  }
}
