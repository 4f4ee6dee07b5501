/** What the pool operations of PoolSpec guarantee. */
module PoolLemmas {
  import opened Types
  import opened Files
  import opened PoolSpec

  /** Erasing an element that does not occur changes nothing. */
  lemma {:induction false} EraseAbsent(s: seq<PageId>, x: PageId)
    requires x !in s
    ensures Erase(s, x) == s
  {
    if s != [] {
      EraseAbsent(s[1..], x);
      assert s == [s[0]] + s[1..];
    }
  }

  /**
   * A hit returns the page's slot and moves it to the front of the recency
   * list; the other pages keep their relative order, and neither the slots,
   * the index, the dirty set nor the catalog change; nothing is read or written.
   */
  lemma FetchHit(s: Pool, files: map<string, DbFile>, pid: PageId)
    requires Inv(s) && pid in s.index
    ensures var st := Fetch(s, files, pid);
      && st.result == Success(s.index[pid])
      && st.pool.lru[0] == pid
      && Erase(st.pool.lru, pid) == Erase(s.lru, pid)
      && st.pool == s.(lru := st.pool.lru)
      && st.files == files
      && st.io == []
      && Inv(st.pool)
      && (Conserved(s) ==> Conserved(st.pool))
  {
    var rest := Erase(s.lru, pid);
    assert pid !in rest;
    EraseAbsent(rest, pid);
    assert Erase([pid] + rest, pid) == Erase(rest, pid) by {
      assert ([pid] + rest)[1..] == rest;
    }
  }

  /** Popping the free stack keeps the invariant; the popped slot is unused. */
  lemma PopFree(s: Pool)
    requires Inv(s) && |s.free| > 0
    ensures var slot := s.free[|s.free| - 1];
      var t := s.(free := s.free[..|s.free| - 1]);
      && Inv(t) && slot < CAPACITY && slot !in t.free
      && (forall p :: p in t.index ==> t.index[p] != slot)
  {
    var n := |s.free|;
    var slot := s.free[n - 1];
    var free' := s.free[..n - 1];
    assert slot !in free' by {
      forall i | 0 <= i < n - 1 ensures free'[i] != slot {
        assert free'[i] == s.free[i];
      }
    }
    assert slot in s.free;
  }

  /** Putting a page that is not listed in front of a recency list keeps it free of repetitions. */
  lemma PushFront(lru: seq<PageId>, pid: PageId)
    requires Distinct(lru) && pid !in lru
    ensures Distinct([pid] + lru)
    ensures forall p :: p in [pid] + lru <==> p == pid || p in lru
  {
    var l := [pid] + lru;
    forall i, j | 0 <= i < j < |l| ensures l[i] != l[j] {
      assert l[j] == lru[j - 1];
      if i > 0 {
        assert l[i] == lru[i - 1];
      }
    }
  }

  /** Mapping one more page adds one entry. */
  lemma MapAddSize(m: map<PageId, nat>, k: PageId, v: nat)
    requires k !in m
    ensures |m[k := v]| == |m| + 1
  {
    assert m[k := v].Keys == m.Keys + {k};
  }

  /** Unmapping a mapped page removes one entry. */
  lemma MapRemoveSize(m: map<PageId, nat>, k: PageId)
    requires k in m
    ensures |m - {k}| == |m| - 1
  {
    assert (m - {k}).Keys == m.Keys - {k};
  }

  /**
   * Loading `pid` into an unused slot keeps the invariant and makes one more
   * page resident.
   */
  lemma InsertKeepsInv(t: Pool, pid: PageId, slot: nat, data: Page)
    requires Inv(t) && pid !in t.index && slot < CAPACITY && slot !in t.free
    requires forall p :: p in t.index ==> t.index[p] != slot
    ensures var u := t.(frames := t.frames[slot := data], index := t.index[pid := slot], lru := [pid] + t.lru);
      Inv(u) && |u.index| == |t.index| + 1
  {
    PushFront(t.lru, pid);
    MapAddSize(t.index, pid, slot);
  }

  /** What `Load` does: read and register on success, nothing else on failure. */
  lemma LoadResult(t: Pool, files: map<string, DbFile>, pid: PageId, slot: nat, io: seq<IoEvent>)
    requires slot < |t.frames|
    ensures var st := Load(t, files, pid, slot, io);
      && st.files == files
      && (st.result.Success? <==> pid.file in files && pid.page in files[pid.file].pages)
      && (st.result.Success? ==>
            && st.result.value == slot
            && st.pool == t.(frames := t.frames[slot := files[pid.file].pages[pid.page]],
                             index := t.index[pid := slot], lru := [pid] + t.lru)
            && st.io == io + [Read(pid)])
      && (st.result.Failure? ==>
            && st.result.error == (if pid.file in files then ReadFailed(files[pid.file].name, pid.page) else NoSuchFile(pid.file))
            && st.pool == t
            && st.io == io)
  {
  }

  /**
   * A miss with a free slot takes the top of the free stack. When the file is
   * registered and holds the page, the page is read into that slot, `pid` is
   * mapped to it and becomes most recently used, and nothing is evicted;
   * otherwise the call fails and the slot is lost: it is neither free nor
   * occupied, so the invariant holds but one slot fewer is accounted for.
   */
  lemma FetchMissFree(s: Pool, files: map<string, DbFile>, pid: PageId)
    requires Inv(s) && pid !in s.index && |s.free| > 0
    ensures var st := Fetch(s, files, pid);
      var slot := s.free[|s.free| - 1];
      && st.pool.free == s.free[..|s.free| - 1]
      && st.pool.dirty == s.dirty
      && st.files == files
      && Inv(st.pool)
      && (st.result.Success? <==> pid.file in files && pid.page in files[pid.file].pages)
      && (st.result.Success? ==>
            && st.result.value == slot
            && st.pool.index == s.index[pid := slot]
            && st.pool.lru == [pid] + s.lru
            && st.pool.frames == s.frames[slot := files[pid.file].pages[pid.page]]
            && st.io == [Read(pid)]
            && (Conserved(s) ==> Conserved(st.pool)))
      && (st.result.Failure? ==>
            && st.result.error == (if pid.file in files then ReadFailed(files[pid.file].name, pid.page) else NoSuchFile(pid.file))
            && st.pool == s.(free := st.pool.free)
            && st.io == []
            && |st.pool.free| + |st.pool.index| == |s.free| + |s.index| - 1)
  {
    var slot := s.free[|s.free| - 1];
    var t := s.(free := s.free[..|s.free| - 1]);
    PopFree(s);
    LoadResult(t, files, pid, slot, []);
    if pid.file in files && pid.page in files[pid.file].pages {
      InsertKeepsInv(t, pid, slot, files[pid.file].pages[pid.page]);
    }
  }

  /**
   * Taking the back of the recency list out of the index and the dirty set
   * keeps the invariant and leaves the victim's slot unused.
   */
  lemma DropVictim(s: Pool)
    requires Inv(s) && |s.lru| > 0
    ensures var victim := s.lru[|s.lru| - 1];
      var t := s.(lru := s.lru[..|s.lru| - 1], index := s.index - {victim}, dirty := s.dirty - {victim});
      && victim in s.index
      && victim !in t.lru
      && Inv(t) && s.index[victim] < CAPACITY && s.index[victim] !in t.free
      && (forall p :: p in t.index ==> t.index[p] != s.index[victim])
      && |t.index| == |s.index| - 1
  {
    var n := |s.lru|;
    var victim := s.lru[n - 1];
    var lru' := s.lru[..n - 1];
    assert victim in s.lru;
    assert victim !in lru' by {
      forall i | 0 <= i < n - 1 ensures lru'[i] != victim {
        assert lru'[i] == s.lru[i];
      }
    }
    forall p ensures p in lru' <==> p in s.lru && p != victim {
      if p in s.lru && p != victim {
        var k :| 0 <= k < n && s.lru[k] == p;
        assert lru'[k] == p;
      }
    }
    MapRemoveSize(s.index, victim);
  }

  /**
   * The write-back step of an eviction: a dirty victim of a registered file
   * is written with its slot's contents; a clean one is not written at all.
   */
  lemma WriteBackVictim(s: Pool, files: map<string, DbFile>)
    requires Inv(s) && |s.lru| > 0
    requires s.lru[|s.lru| - 1] in s.dirty ==> s.lru[|s.lru| - 1].file in files
    ensures var victim := s.lru[|s.lru| - 1];
      var slot := s.index[victim];
      var s1 := s.(lru := s.lru[..|s.lru| - 1]);
      var wb := if victim in s.dirty then FlushPage(s1, files, victim) else Step(Pass, s1, files, []);
      && wb.result == Pass
      && wb.pool.(index := wb.pool.index - {victim}, dirty := wb.pool.dirty - {victim})
         == s.(lru := s.lru[..|s.lru| - 1], index := s.index - {victim}, dirty := s.dirty - {victim})
      && wb.files == (if victim in s.dirty
        then files[victim.file := WritePage(files[victim.file], victim.page, s.frames[slot])]
        else files)
      && wb.io == (if victim in s.dirty then [Write(victim, s.frames[slot])] else [])
  {
    assert s.lru[|s.lru| - 1] in s.lru;
  }

  /**
   * A miss on a full pool evicts the back of the recency list. A dirty victim
   * is written back exactly once, with the contents of its slot, before its
   * slot is refilled; afterwards the victim is neither resident nor dirty,
   * and on success the new page occupies the victim's slot. A failed lookup
   * or read after the eviction loses that slot.
   */
  lemma FetchEvict(s: Pool, files: map<string, DbFile>, pid: PageId)
    requires Inv(s) && pid !in s.index && s.free == [] && |s.lru| > 0
    requires s.lru[|s.lru| - 1] in s.dirty ==> s.lru[|s.lru| - 1].file in files
    ensures var victim := s.lru[|s.lru| - 1];
      var slot := s.index[victim];
      var st := Fetch(s, files, pid);
      var wfiles := if victim in s.dirty
        then files[victim.file := WritePage(files[victim.file], victim.page, s.frames[slot])]
        else files;
      var wio := if victim in s.dirty then [Write(victim, s.frames[slot])] else [];
      && st.files == wfiles
      && victim !in st.pool.index && victim !in st.pool.lru && victim !in st.pool.dirty
      && Inv(st.pool)
      && st.pool.free == []
      && st.pool.dirty == s.dirty - {victim}
      && (st.result.Success? <==> pid.file in wfiles && pid.page in wfiles[pid.file].pages)
      && (st.result.Success? ==>
            && st.result.value == slot
            && st.pool.index == (s.index - {victim})[pid := slot]
            && st.pool.lru == [pid] + s.lru[..|s.lru| - 1]
            && st.pool.frames == s.frames[slot := wfiles[pid.file].pages[pid.page]]
            && st.io == wio + [Read(pid)]
            && (Conserved(s) ==> Conserved(st.pool)))
      && (st.result.Failure? ==>
            && st.pool.index == s.index - {victim}
            && st.pool.lru == s.lru[..|s.lru| - 1]
            && st.pool.frames == s.frames
            && st.io == wio)
  {
    var victim := s.lru[|s.lru| - 1];
    var slot := s.index[victim];
    var t := s.(lru := s.lru[..|s.lru| - 1], index := s.index - {victim}, dirty := s.dirty - {victim});
    DropVictim(s);
    WriteBackVictim(s, files);
    var wfiles := if victim in s.dirty
      then files[victim.file := WritePage(files[victim.file], victim.page, s.frames[slot])]
      else files;
    var wio := if victim in s.dirty then [Write(victim, s.frames[slot])] else [];
    LoadResult(t, wfiles, pid, slot, wio);
    if pid.file in wfiles && pid.page in wfiles[pid.file].pages {
      InsertKeepsInv(t, pid, slot, wfiles[pid.file].pages[pid.page]);
    }
  }

  /**
   * When the write-back of a dirty victim fails because its file is no
   * longer registered, the victim has already left the recency list but is
   * still resident and dirty, so the invariant no longer holds. Its slot is
   * still in range and every dirty page still resident, which is all that
   * `flushFile` and the destructor need.
   */
  lemma FetchEvictWriteBackFails(s: Pool, files: map<string, DbFile>, pid: PageId)
    requires Inv(s) && pid !in s.index && s.free == [] && |s.lru| > 0
    requires s.lru[|s.lru| - 1] in s.dirty && s.lru[|s.lru| - 1].file !in files
    ensures var victim := s.lru[|s.lru| - 1];
      var st := Fetch(s, files, pid);
      && st.result == Failure(NoSuchFile(victim.file))
      && st.pool == s.(lru := s.lru[..|s.lru| - 1])
      && st.files == files
      && st.io == []
      && victim in st.pool.index && victim in st.pool.dirty && victim !in st.pool.lru
      && !Inv(st.pool)
      && IndexInRange(st.pool) && st.pool.dirty <= st.pool.index.Keys
  {
    DropVictim(s);
  }

  /**
   * `getPage` raises the "no free slots" logic error exactly when no slot is
   * free and nothing is resident, which only happens after misses whose
   * lookups failed have lost every slot; while no slot is lost it never does.
   */
  lemma NoFreeSlotOnlyWhenAllLost(s: Pool, files: map<string, DbFile>, pid: PageId)
    requires Inv(s)
    ensures Fetch(s, files, pid).result == Failure(NoFreeSlot) <==> s.free == [] && s.index == map[]
    ensures Conserved(s) ==> Fetch(s, files, pid).result != Failure(NoFreeSlot)
  {
    if s.free == [] && s.index != map[] {
      var p :| p in s.index;
      assert p in s.lru;
    }
  }

  /**
   * `getPage` changes the catalog only by writing a victim back into its own
   * file, so every file stays registered under its own name.
   */
  lemma FetchKeepsNames(s: Pool, files: map<string, DbFile>, pid: PageId)
    requires Inv(s)
    ensures WellNamed(files) ==> WellNamed(Fetch(s, files, pid).files)
  {
  }

  /**
   * `getPage` keeps the invariant except when the write-back of an evicted
   * dirty page fails; on success `pid` is resident at the returned slot, is
   * most recently used, and no slot is lost.
   */
  lemma FetchKeepsInv(s: Pool, files: map<string, DbFile>, pid: PageId)
    requires Inv(s)
    ensures var st := Fetch(s, files, pid);
      && (Inv(st.pool) ||
          (pid !in s.index && s.free == [] && |s.lru| > 0 &&
           s.lru[|s.lru| - 1] in s.dirty && s.lru[|s.lru| - 1].file !in files))
      && (st.result.Success? ==>
            && Inv(st.pool)
            && pid in st.pool.index && st.pool.index[pid] == st.result.value
            && st.pool.lru[0] == pid
            && (Conserved(s) ==> Conserved(st.pool)))
  {
    if pid in s.index {
      FetchHit(s, files, pid);
    } else if |s.free| > 0 {
      FetchMissFree(s, files, pid);
    } else if |s.lru| == 0 {
    } else if s.lru[|s.lru| - 1] in s.dirty && s.lru[|s.lru| - 1].file !in files {
      FetchEvictWriteBackFails(s, files, pid);
    } else {
      FetchEvict(s, files, pid);
    }
  }

  /**
   * `markDirty` marks `pid` dirty exactly when it is resident, changes no
   * other dirty mark and keeps the invariant.
   */
  lemma MarkDirtyKeepsInv(s: Pool, pid: PageId)
    requires Inv(s)
    ensures var t := MarkDirty(s, pid);
      && Inv(t) && (Conserved(s) ==> Conserved(t))
      && t == s.(dirty := t.dirty)
      && (pid in t.dirty <==> pid in s.index)
      && (forall q :: q != pid ==> (q in t.dirty <==> q in s.dirty))
  {
  }

  /**
   * `discardPage` forgets a resident page without any write: its slot goes
   * back on the free stack, it leaves the index, the recency list and the
   * dirty set, and every other page keeps its slot, its dirty mark and its
   * place in the recency order. A page that is not resident changes nothing.
   */
  lemma DiscardKeepsInv(s: Pool, pid: PageId)
    requires Inv(s)
    ensures var t := Discard(s, pid);
      && Inv(t) && (Conserved(s) ==> Conserved(t))
      && pid !in t.index && pid !in t.lru && pid !in t.dirty
      && t.frames == s.frames
      && (pid !in s.index ==> t == s)
      && (pid in s.index ==> t.free == s.free + [s.index[pid]] && t.lru == Erase(s.lru, pid))
      && (forall q :: q != pid ==>
            && (q in t.index <==> q in s.index)
            && (q in t.index ==> t.index[q] == s.index[q])
            && (q in t.dirty <==> q in s.dirty))
  {
    if pid in s.index {
      var t := Discard(s, pid);
      var slot := s.index[pid];
      assert slot !in s.free;
      assert Distinct(t.free) by {
        forall i, j | 0 <= i < j < |t.free| ensures t.free[i] != t.free[j] {
          if j == |s.free| {
            assert t.free[i] == s.free[i];
          } else {
            assert t.free[i] == s.free[i] && t.free[j] == s.free[j];
          }
        }
      }
      forall p | p in t.index ensures t.index[p] !in t.free {
        assert t.index[p] == s.index[p] && t.index[p] != slot;
      }
      forall i | 0 <= i < |t.free| ensures t.free[i] < CAPACITY {
        if i < |s.free| {
          assert t.free[i] == s.free[i];
        }
      }
      MapRemoveSize(s.index, pid);
    }
  }

  /** Clearing dirty marks keeps the invariant and loses no slot. */
  lemma CleanerKeepsInv(s: Pool, dirty: set<PageId>)
    requires Inv(s) && dirty <= s.dirty
    ensures Inv(s.(dirty := dirty))
    ensures Conserved(s) ==> Conserved(s.(dirty := dirty))
  {
  }

  /**
   * `flushPage` performs exactly one write when `pid` is resident, dirty and
   * its file is registered, and none otherwise; after the write the file
   * holds the slot's contents for that page and every other page of every
   * file is untouched. Only the dirty mark of `pid` can be cleared. A page
   * that is not resident or not dirty is a no-op; with an unregistered file
   * it fails without changing anything, so `pid` stays dirty.
   */
  lemma FlushPageSpec(s: Pool, files: map<string, DbFile>, pid: PageId)
    requires IndexInRange(s)
    ensures var st := FlushPage(s, files, pid);
      var writes := pid in s.index && pid in s.dirty && pid.file in files;
      && |st.io| <= 1
      && (|st.io| == 1 <==> writes)
      && (writes ==> st.io == [Write(pid, s.frames[s.index[pid]])])
      && (writes ==> ReadPage(st.files[pid.file], pid.page) == Success(s.frames[s.index[pid]]))
      && (forall n, m :: n in files && PageId(n, m) != pid ==> ReadPage(st.files[n], m) == ReadPage(files[n], m))
      && (forall n :: n in files ==> st.files[n].name == files[n].name)
      && (st.result.Fail? <==> pid in s.index && pid in s.dirty && pid.file !in files)
      && (Inv(s) && st.result.Pass? ==> pid !in st.pool.dirty)
      && (forall q :: q != pid ==> (q in st.pool.dirty <==> q in s.dirty))
      && (Inv(s) ==> Inv(st.pool))
      && (Conserved(s) ==> Conserved(st.pool))
      && (!(pid in s.index && pid in s.dirty) ==> st == Step(Pass, s, files, []))
      && (st.result.Fail? ==> st == Step(st.result, s, files, []))
  {
  }
}
