/** What flushing several pages in a row guarantees: `flushFile` and the destructor. */
module FlushLemmas {
  import opened Types
  import opened Files
  import opened PoolSpec
  import opened PoolLemmas

  /**
   * Flushing one more page that is resident, dirty and of a registered file,
   * after flushes that succeeded: it is written with its slot's contents and
   * only its dirty mark is cleared.
   */
  lemma FlushAllWriteStep(s: Pool, files: map<string, DbFile>, order: seq<PageId>)
    requires IndexInRange(s) && order != []
    requires var prev := FlushAll(s, files, order[..|order| - 1]);
      var x := order[|order| - 1];
      prev.result.Pass? && x in s.index && x in prev.pool.dirty && x.file in prev.files
    ensures var prev := FlushAll(s, files, order[..|order| - 1]);
      var r := FlushAll(s, files, order);
      var x := order[|order| - 1];
      var data := s.frames[s.index[x]];
      && r.result == Pass
      && r.pool.dirty == prev.pool.dirty - {x}
      && r.io == prev.io + [Write(x, data)]
      && r.files == prev.files[x.file := WritePage(prev.files[x.file], x.page, data)]
  {
  }

  /** Writing one more page extends a log of one write per page, in order. */
  lemma WritesSnoc(io: seq<IoEvent>, order: seq<PageId>, data: PageId -> Page)
    requires order != [] && |io| == |order| - 1
    requires forall i :: 0 <= i < |order| - 1 ==> io[i] == Write(order[i], data(order[i]))
    ensures var x := order[|order| - 1];
      var io' := io + [Write(x, data(x))];
      |io'| == |order| && forall i :: 0 <= i < |order| ==> io'[i] == Write(order[i], data(order[i]))
  {
  }

  /** The set of a list's elements, one more element at a time. */
  lemma ElementsSnoc(order: seq<PageId>, init: seq<PageId>)
    requires order != [] && init == order[..|order| - 1]
    ensures (set p | p in order) == (set p | p in init) + {order[|order| - 1]}
  {
    SnocMembers(order);
  }

  /**
   * Flushing distinct resident dirty pages of registered files succeeds,
   * writes each page exactly once in the given order with the contents of
   * its slot and clears exactly their dirty marks.
   */
  lemma {:induction false} FlushAllWritesEach(s: Pool, files: map<string, DbFile>, order: seq<PageId>)
    requires IndexInRange(s) && Distinct(order)
    requires forall p :: p in order ==> p in s.index && p in s.dirty && p.file in files
    ensures var st := FlushAll(s, files, order);
      && st.result == Pass
      && st.pool.dirty == s.dirty - (set p | p in order)
      && |st.io| == |order|
      && (forall i :: 0 <= i < |order| ==> st.io[i] == Write(order[i], s.frames[s.index[order[i]]]))
    decreases |order|
  {
    if order != [] {
      var init := order[..|order| - 1];
      SnocMembers(order);
      FlushAllWritesEach(s, files, init);
      FlushAllWriteStep(s, files, order);
      ElementsSnoc(order, init);
      WritesSnoc(FlushAll(s, files, init).io, order, p => if p in s.index then s.frames[s.index[p]] else EMPTY_PAGE);
    }
  }

  /**
   * Flushing distinct resident dirty pages of registered files leaves, for
   * each of them, the slot's contents in its file, changes no other page of
   * any file and keeps every file's name.
   */
  lemma {:induction false} FlushAllDisk(s: Pool, files: map<string, DbFile>, order: seq<PageId>)
    requires IndexInRange(s) && Distinct(order)
    requires forall p :: p in order ==> p in s.index && p in s.dirty && p.file in files
    ensures var st := FlushAll(s, files, order);
      && (forall n :: n in files ==> st.files[n].name == files[n].name)
      && (forall p :: p in order ==> ReadPage(st.files[p.file], p.page) == Success(s.frames[s.index[p]]))
      && (forall n, m :: n in files && PageId(n, m) !in order ==> ReadPage(st.files[n], m) == ReadPage(files[n], m))
    decreases |order|
  {
    if order != [] {
      var init := order[..|order| - 1];
      var x := order[|order| - 1];
      assert Distinct(init);
      assert forall p :: p in init ==> p in order;
      FlushAllWritesEach(s, files, init);
      FlushAllDisk(s, files, init);
      var prev := FlushAll(s, files, init);
      assert x !in init;
      assert prev.pool.frames == s.frames && prev.pool.index == s.index;
      assert x in prev.pool.dirty && x.file in prev.files;
      var st := FlushPage(prev.pool, prev.files, x);
      FlushPageDisk(prev.pool, prev.files, x);
      FlushAllSnoc(s, files, order);
      forall n | n in files ensures st.files[n].name == files[n].name {
      }
      forall p | p in order ensures ReadPage(st.files[p.file], p.page) == Success(s.frames[s.index[p]]) {
        if p != x {
          assert p in init;
          assert PageId(p.file, p.page) == p;
        }
      }
      forall n, m | n in files && PageId(n, m) !in order
        ensures ReadPage(st.files[n], m) == ReadPage(files[n], m)
      {
        assert PageId(n, m) !in init;
      }
    }
  }

  /**
   * Flushing writes pages only into files already registered under their own
   * names, so every file stays registered under its own name.
   */
  lemma {:induction false} FlushAllKeepsNames(s: Pool, files: map<string, DbFile>, order: seq<PageId>)
    requires IndexInRange(s)
    ensures WellNamed(files) ==> WellNamed(FlushAll(s, files, order).files)
    decreases |order|
  {
    if order != [] {
      FlushAllKeepsNames(s, files, order[..|order| - 1]);
    }
  }

  /** Flushing a list is flushing all but its last page, then the last page. */
  lemma FlushAllSnoc(s: Pool, files: map<string, DbFile>, order: seq<PageId>)
    requires IndexInRange(s) && order != []
    ensures var prev := FlushAll(s, files, order[..|order| - 1]);
      prev.result.Pass? ==>
        var last := FlushPage(prev.pool, prev.files, order[|order| - 1]);
        FlushAll(s, files, order) == Step(last.result, last.pool, last.files, prev.io + last.io)
  {
  }

  /**
   * Flushing a resident dirty page of a registered file stores the slot's
   * contents as that page of the file and changes nothing else in the catalog.
   */
  lemma FlushPageDisk(s: Pool, files: map<string, DbFile>, pid: PageId)
    requires IndexInRange(s) && pid in s.index && pid in s.dirty && pid.file in files
    ensures var st := FlushPage(s, files, pid);
      && st.files == files[pid.file := WritePage(files[pid.file], pid.page, s.frames[s.index[pid]])]
  {
  }

  /** When the first page cannot be flushed, nothing at all is flushed. */
  lemma {:induction false} FlushAllStopsAtFirst(s: Pool, files: map<string, DbFile>, order: seq<PageId>)
    requires IndexInRange(s) && order != []
    requires order[0] in s.index && order[0] in s.dirty && order[0].file !in files
    ensures FlushAll(s, files, order) == Step(Fail(NoSuchFile(order[0].file)), s, files, [])
    decreases |order|
  {
    if |order| > 1 {
      FlushAllStopsAtFirst(s, files, order[..|order| - 1]);
    }
  }

  /** Flushing one more page of `order` after a prefix that succeeded. */
  lemma FlushAllPrefix(s: Pool, files: map<string, DbFile>, order: seq<PageId>, i: nat)
    requires IndexInRange(s) && i < |order|
    requires FlushAll(s, files, order[..i]).result.Pass?
    ensures var prev := FlushAll(s, files, order[..i]);
      var st := FlushPage(prev.pool, prev.files, order[i]);
      FlushAll(s, files, order[..i + 1]) == Step(st.result, st.pool, st.files, prev.io + st.io)
  {
    assert order[..i + 1][..i] == order[..i];
  }

  /** Once a flush has failed, flushing further pages changes nothing more. */
  lemma {:induction false} FlushAllAfterFail(s: Pool, files: map<string, DbFile>, order: seq<PageId>, i: nat)
    requires IndexInRange(s) && i <= |order|
    requires FlushAll(s, files, order[..i]).result.Fail?
    ensures FlushAll(s, files, order) == FlushAll(s, files, order[..i])
    decreases |order|
  {
    if i < |order| {
      var init := order[..|order| - 1];
      assert init[..i] == order[..i];
      FlushAllAfterFail(s, files, init, i);
    } else {
      assert order[..i] == order;
    }
  }

  /**
   * Flushing distinct resident dirty pages succeeds only when the file of
   * every one of them is registered.
   */
  lemma {:induction false} FlushAllPassNeedsFiles(s: Pool, files: map<string, DbFile>, order: seq<PageId>)
    requires IndexInRange(s) && Distinct(order)
    requires forall p :: p in order ==> p in s.index && p in s.dirty
    ensures FlushAll(s, files, order).result.Pass? ==> forall p :: p in order ==> p.file in files
    decreases |order|
  {
    if order != [] {
      var init := order[..|order| - 1];
      var x := order[|order| - 1];
      assert forall p :: p in init ==> p in order;
      FlushAllPassNeedsFiles(s, files, init);
      assert x !in init;
      var prev := FlushAll(s, files, init);
      FlushPageSpec(prev.pool, prev.files, x);
    }
  }

  /**
   * `flushFile(file)`: with `order` any listing of the file's dirty pages,
   * flushing succeeds when the file is registered or has no dirty page; then
   * each of its dirty pages is written exactly once with its slot's contents,
   * none of its pages stays dirty, the pages stay resident, and the dirty
   * marks of other files' pages are unchanged. When the file is not
   * registered but has dirty pages, the call fails and changes nothing.
   */
  lemma FlushFileSpec(s: Pool, files: map<string, DbFile>, file: string, order: seq<PageId>)
    requires IndexInRange(s) && s.dirty <= s.index.Keys
    requires Enumerates(order, DirtyOf(s.dirty, file))
    ensures forall p :: p in order ==> p in s.index
    ensures var st := FlushAll(s, files, order);
      && (file in files || order == [] ==>
            && st.result == Pass
            && st.pool == s.(dirty := st.pool.dirty)
            && (forall p: PageId :: p.file == file ==> p !in st.pool.dirty)
            && (forall p: PageId :: p.file != file ==> (p in st.pool.dirty <==> p in s.dirty))
            && |st.io| == |order|
            && (forall i :: 0 <= i < |order| ==> st.io[i] == Write(order[i], s.frames[s.index[order[i]]]))
            && (forall p :: p in DirtyOf(s.dirty, file) ==> ReadPage(st.files[file], p.page) == Success(s.frames[s.index[p]])))
      && (file !in files && order != [] ==> st == Step(Fail(NoSuchFile(file)), s, files, []))
  {
    if file in files || order == [] {
      FlushAllWritesEach(s, files, order);
      FlushAllDisk(s, files, order);
    } else {
      assert order[0] in order;
      FlushAllStopsAtFirst(s, files, order);
    }
  }

  /**
   * The destructor: with `order` any listing of the dirty pages, flushing
   * succeeds exactly when the file of every dirty page is registered; then
   * every dirty page is written exactly once with its slot's contents and no
   * page stays dirty. A failure names an unregistered file.
   */
  lemma CloseSpec(s: Pool, files: map<string, DbFile>, order: seq<PageId>)
    requires IndexInRange(s) && s.dirty <= s.index.Keys
    requires Enumerates(order, s.dirty)
    ensures forall p :: p in order ==> p in s.index
    ensures var st := FlushAll(s, files, order);
      && (st.result.Pass? <==> forall p :: p in s.dirty ==> p.file in files)
      && (st.result.Pass? ==>
            && st.pool.dirty == {}
            && st.pool == s.(dirty := {})
            && |st.io| == |order|
            && (forall i :: 0 <= i < |order| ==> st.io[i] == Write(order[i], s.frames[s.index[order[i]]]))
            && (forall p :: p in s.dirty ==> ReadPage(st.files[p.file], p.page) == Success(s.frames[s.index[p]])))
      && (st.result.Fail? ==> st.result.error.NoSuchFile? && st.result.error.name !in files)
  {
    FlushAllPassNeedsFiles(s, files, order);
    if forall p :: p in s.dirty ==> p.file in files {
      FlushAllWritesEach(s, files, order);
      FlushAllDisk(s, files, order);
    }
  }
}
