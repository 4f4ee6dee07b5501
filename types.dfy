/** Value types shared by the buffer pool and the file catalog. */
module Types {

  /** Number of page slots in a buffer pool (`DEFAULT_NUM_PAGES`). */
  const CAPACITY: nat := 50

  /** Identifies a page by the name of its file and its index inside that file. */
  datatype PageId = PageId(file: string, page: nat)

  /** The contents of one page; the pool never looks inside it. */
  datatype Page = Page(bytes: seq<bv8>)

  /** The contents of a slot that has never been filled. */
  const EMPTY_PAGE: Page := Page([])

  /** The exceptions the core can raise. */
  datatype Error =
    | NullFile                          // `add` was given no file
    | DuplicateName(name: string)       // `add` of a name already registered
    | NoSuchFile(name: string)          // `get`/`remove` of an unregistered name
    | ReadFailed(name: string, page: nat) // the file cannot produce that page
    | NoFreeSlot                        // no free slot and nothing to evict

  /** One completed transfer between the pool and a file. */
  datatype IoEvent = Read(pid: PageId) | Write(pid: PageId, data: Page)

  datatype Option<T> = None | Some(value: T)

  /** A value, or the error that was raised instead. */
  datatype Result<T> = Success(value: T) | Failure(error: Error)

  /** Normal completion, or the error that was raised. */
  datatype Outcome = Pass | Fail(error: Error)

  /** No element occurs twice. */
  predicate Distinct<T(==)>(s: seq<T>) {
    forall i, j :: 0 <= i < j < |s| ==> s[i] != s[j]
  }

  /**
   * The elements of a non-empty list are those before its last one and its
   * last one; without repetitions, the last one is not among the others.
   */
  lemma SnocMembers<T>(s: seq<T>)
    requires s != []
    ensures forall x :: x in s <==> x in s[..|s| - 1] || x == s[|s| - 1]
    ensures Distinct(s) ==> Distinct(s[..|s| - 1]) && s[|s| - 1] !in s[..|s| - 1]
  {
    assert s == s[..|s| - 1] + [s[|s| - 1]];
  }

  /** Concatenation of logs is associative. */
  lemma AppendAssoc<T>(a: seq<T>, b: seq<T>, c: seq<T>)
    ensures (a + b) + c == a + (b + c)
  {
  }

  /** Appending an element not yet listed keeps a list free of repetitions. */
  lemma DistinctSnoc<T>(s: seq<T>, x: T)
    requires Distinct(s) && x !in s
    ensures Distinct(s + [x])
  {
    var t := s + [x];
    forall i, j | 0 <= i < j < |t| ensures t[i] != t[j] {
      assert t[i] == s[i];
    }
  }
}

