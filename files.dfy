/**
 * The file capability and the catalog lookup the pool relies on.
 * A file is represented by its logical name and the contents of its pages;
 * the on-disk format is not part of this model.
 */
module Files {
  import opened Types

  /** A database file: its name and the page contents stored at each page index. */
  datatype DbFile = DbFile(name: string, pages: map<nat, Page>)

  /** Reads page `n` of `f`; fails when the file holds no such page. */
  function ReadPage(f: DbFile, n: nat): (r: Result<Page>)
    ensures r.Success? <==> n in f.pages
    ensures r.Success? ==> r.value == f.pages[n]
    ensures r.Failure? ==> r.error == ReadFailed(f.name, n)
  {
    if n in f.pages then Success(f.pages[n]) else Failure(ReadFailed(f.name, n))
  }

  /** Stores `data` as page `n` of `f`. */
  function WritePage(f: DbFile, n: nat, data: Page): (r: DbFile)
    ensures r.name == f.name
    ensures ReadPage(r, n) == Success(data)
    ensures forall m :: m != n ==> ReadPage(r, m) == ReadPage(f, m)
  {
    f.(pages := f.pages[n := data])
  }

  /** Every catalog entry is registered under the name of its file. */
  ghost predicate WellNamed(catalog: map<string, DbFile>) {
    forall name :: name in catalog ==> catalog[name].name == name
  }

  /** `Database::get`: the file registered under `name`, or NoSuchFile. */
  function Lookup(catalog: map<string, DbFile>, name: string): (r: Result<DbFile>)
    ensures r.Success? <==> name in catalog
    ensures r.Success? ==> r.value == catalog[name]
    ensures WellNamed(catalog) && r.Success? ==> r.value.name == name
    ensures r.Failure? ==> r.error == NoSuchFile(name)
  {
    if name in catalog then Success(catalog[name]) else Failure(NoSuchFile(name))
  }

  /**
   * `Database::add`: registers `file` under its own name. Fails with
   * NullFile when there is no file and with DuplicateName when the name is
   * taken; then the catalog is unchanged.
   */
  function AddFile(catalog: map<string, DbFile>, file: Option<DbFile>): (r: Result<map<string, DbFile>>)
    ensures r.Success? <==> file.Some? && file.value.name !in catalog
    ensures r.Success? ==> Lookup(r.value, file.value.name) == Success(file.value)
    ensures r.Success? ==> forall n :: n != file.value.name ==> Lookup(r.value, n) == Lookup(catalog, n)
    ensures r.Success? && WellNamed(catalog) ==> WellNamed(r.value)
    ensures file.None? ==> r == Failure(NullFile)
    ensures file.Some? && file.value.name in catalog ==> r == Failure(DuplicateName(file.value.name))
  {
    match file
    case None => Failure(NullFile)
    case Some(f) =>
      if f.name in catalog then Failure(DuplicateName(f.name))
      else Success(catalog[f.name := f])
  }

  /** A file taken out of the catalog, and the catalog without it. */
  datatype Removal = Removal(file: DbFile, catalog: map<string, DbFile>)

  /**
   * The catalog half of `Database::remove`: hands back the file registered
   * under `name` and unregisters it; fails with NoSuchFile when there is none.
   */
  function RemoveFile(catalog: map<string, DbFile>, name: string): (r: Result<Removal>)
    ensures r.Success? <==> name in catalog
    ensures r.Success? ==> Success(r.value.file) == Lookup(catalog, name)
    ensures r.Success? ==> Lookup(r.value.catalog, name) == Failure(NoSuchFile(name))
    ensures r.Success? ==> forall n :: n != name ==> Lookup(r.value.catalog, n) == Lookup(catalog, n)
    ensures r.Success? && WellNamed(catalog) ==> WellNamed(r.value.catalog)
    ensures r.Failure? ==> r.error == NoSuchFile(name)
  {
    if name in catalog then Success(Removal(catalog[name], catalog - {name}))
    else Failure(NoSuchFile(name))
  }

  /** Removing a file just added gives back that file and the catalog before. */
  lemma AddThenRemove(catalog: map<string, DbFile>, f: DbFile)
    requires f.name !in catalog
    ensures AddFile(catalog, Some(f)).Success?
    ensures RemoveFile(AddFile(catalog, Some(f)).value, f.name) == Success(Removal(f, catalog))
  {
    assert catalog[f.name := f] - {f.name} == catalog;
  }

  /** Adding back a file just removed from a well-named catalog restores it. */
  lemma RemoveThenAdd(catalog: map<string, DbFile>, name: string)
    requires WellNamed(catalog) && name in catalog
    ensures var r := RemoveFile(catalog, name);
      r.Success? && AddFile(r.value.catalog, Some(r.value.file)) == Success(catalog)
  {
    assert (catalog - {name})[name := catalog[name]] == catalog;
  }
}

