/**
 * The transaction state machine of a connection (chiffondb-core/src/api/mod.rs): begin takes a
 * snapshot, commit flushes, rollback restores, and close rolls back what is pending before it flushes.
 */
module Connection {
  import opened Types
  import opened Header
  import opened Layout
  import opened Backends
  import opened DatabaseFile

  class Connection {
    var inner: DatabaseFile?
    var pending: Option<FileSnapshot>

    /** The pages and the layout that the pending snapshot stands for. */
    ghost var savedPages: seq<Page>
    ghost var savedLayout: Layout

    ghost function Repr(): set<object>
      reads this
    {
      if inner == null then {} else inner.Repr()
    }

    ghost predicate Valid()
      reads this, Repr()
    {
      && this !in Repr()
      && if inner == null then pending == None
         else inner.Consistent() && (pending.Some? ==> Saved(inner, pending.value))
    }

    ghost predicate Saved(file: DatabaseFile, snap: FileSnapshot)
      requires file.Valid()
      reads this, file.Repr()
    {
      && file.Remembers(snap, savedPages)
      && LayoutOk(savedPages, snap.header, savedLayout)
      && savedPages[0] == Serialize(snap.header)
    }

    constructor (file: DatabaseFile)
      requires file.Consistent()
      ensures Valid() && inner == file && pending == None
    {
      hide DatabaseFile.Valid, DatabaseFile.Pages, DatabaseFile.Remembers, LayoutOk, DatabaseFile.Consistent;
      inner, pending := file, None;
      new;
      assert this !in file.Repr();
    }

    method BeginTransaction() returns (r: Result<()>)
      requires Valid()
      modifies this
      ensures Valid() && inner == old(inner)
      ensures r == (if old(pending).Some? then Err(TransactionInProgress) else if inner == null then Err(Closed) else Ok(()))
      ensures if r.Ok? then pending.Some? && pending.value.header == inner.header
                            && savedPages == inner.Pages() && savedLayout == inner.layout
              else pending == old(pending) && savedPages == old(savedPages) && savedLayout == old(savedLayout)
    {
      hide DatabaseFile.Valid, DatabaseFile.Pages, DatabaseFile.Remembers, LayoutOk;
      if pending.Some? {
        return Err(TransactionInProgress);
      }
      if inner == null {
        return Err(Closed);
      }
      var snap := inner.TakeSnapshot();
      savedPages, savedLayout := inner.Pages(), inner.layout;
      pending := Some(snap);
      r := Ok(());
    }

    /** The writes of the transaction stay, and reach the main file. */
    method CommitTransaction() returns (r: Result<()>)
      requires Valid()
      modifies this, Repr()
      ensures Valid() && inner == old(inner) && pending == None
      ensures r == if old(pending).Some? then Ok(()) else Err(NoTransaction)
      ensures inner != null ==> inner.Pages() == old(inner.Pages()) && inner.header == old(inner.header)
                                && inner.layout == old(inner.layout)
      ensures r.Ok? && inner.backend.FileBackend? ==>
        inner.backend.store.wal.entries == [] && inner.backend.store.main == inner.Pages()
    {
      hide DatabaseFile.Valid, DatabaseFile.Pages, DatabaseFile.Remembers, LayoutOk;
      if pending.None? {
        return Err(NoTransaction);
      }
      pending := None;
      if inner == null {
        return Err(Closed);
      }
      inner.Flush();
      r := Ok(());
    }

    /** Pages, page count, header and directories are those held at begin. */
    method RollbackTransaction() returns (r: Result<()>)
      requires Valid()
      modifies this, Repr()
      ensures Valid() && inner == old(inner) && pending == None
      ensures r == if old(pending).Some? then Ok(()) else Err(NoTransaction)
      ensures inner != null ==>
        if old(pending).Some?
        then inner.Pages() == old(savedPages) && inner.header == old(pending).value.header && inner.layout == old(savedLayout)
        else inner.Pages() == old(inner.Pages()) && inner.header == old(inner.header) && inner.layout == old(inner.layout)
    {
      hide DatabaseFile.Valid, DatabaseFile.Pages, DatabaseFile.Remembers, LayoutOk;
      if pending.None? {
        return Err(NoTransaction);
      }
      var snap := pending.value;
      pending := None;
      if inner == null {
        return Err(Closed);
      }
      inner.Restore(snap, savedPages, savedLayout);
      r := Ok(());
    }

    /** A pending transaction is discarded; what is left reaches the main file, with an empty log. */
    method Close() returns (r: Result<()>)
      requires Valid()
      modifies this, Repr()
      ensures Valid() && inner == null && r == Ok(())
      ensures old(inner) != null && old(inner).backend.FileBackend? ==>
        && old(inner).backend.store.wal.entries == []
        && old(inner).backend.store.main == if old(pending).Some? then old(savedPages) else old(inner.Pages())
    {
      hide DatabaseFile.Valid, DatabaseFile.Pages, DatabaseFile.Remembers, LayoutOk;
      var _ := RollbackTransaction();
      if inner != null {
        inner.Flush();
        inner := null;
      }
      r := Ok(());
    }

    // ---- Work inside or outside a transaction ----

    /** Overwrites a logical page; the pending snapshot still stands for the pages held at begin. */
    method WriteLogicalPage(kind: Kind, logical: nat, data: Page) returns (r: Result<()>)
      requires Valid() && (kind == Property && inner != null ==> logical !in inner.layout.free)
      modifies Repr()
      ensures Valid() && inner == old(inner) && pending == old(pending)
      ensures savedPages == old(savedPages) && savedLayout == old(savedLayout)
      ensures inner == null ==> r == Err(Closed)
      ensures inner != null && r.Ok? ==> PreservesOthers(old(inner.Current()), inner.Current(), kind, logical, data)
    {
      hide DatabaseFile.Valid, DatabaseFile.Pages, DatabaseFile.Remembers, DirsOk, FreeList;
      if inner == null {
        return Err(Closed);
      }
      r := inner.WriteLogicalPage(kind, logical, data);
    }

    /** Maps one more logical page; the pending snapshot still stands for the pages held at begin. */
    method AllocMappedPage(kind: Kind, data: Page) returns (r: Result<nat>)
      requires Valid() && (inner != null ==> HasRoom(inner.Current()))
      modifies Repr()
      ensures Valid() && inner == old(inner) && pending == old(pending)
      ensures savedPages == old(savedPages) && savedLayout == old(savedLayout)
      ensures inner == null ==> r == Err(Closed)
      ensures inner != null ==> r == Ok(LenOf(old(inner.header), kind)) && Preserves(old(inner.Current()), inner.Current())
    {
      hide DatabaseFile.Valid, DatabaseFile.Pages, DatabaseFile.Remembers, LayoutOk;
      if inner == null {
        return Err(Closed);
      }
      r := inner.AllocMappedPage(kind, data);
    }
  }
}
