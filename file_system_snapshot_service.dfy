/**
 * The snapshot service of an archive file: it publishes the latest file
 * allocation table, lets at most one edit transaction run at a time, and
 * keeps the list of live read transactions, each of which goes on seeing
 * the table that was published when it began.
 *
 * The edit slot's monitor is a flag, `slotHeld`; whether an attempt to
 * enter it succeeds within the timeout is decided by other threads, so it
 * is a parameter. An exception becomes an outcome value.
 */
module StorageFile {

  /** A published snapshot of the file allocation table, known here only
      by its version. */
  datatype AllocationTable = AllocationTable(version: nat)

  /** The disk IO subsystem, as far as the service uses it: its mode, the
      table header last committed to it, and how often it was disposed. */
  class DiskIO {
    const isReadOnly: bool
    var committedTable: AllocationTable
    var disposeCount: nat

    constructor (isReadOnly: bool, header: AllocationTable)
      ensures this.isReadOnly == isReadOnly && committedTable == header && disposeCount == 0
    {
      this.isReadOnly := isReadOnly;
      committedTable := header;
      disposeCount := 0;
    }

    /** Writes a table header, as a committing edit does. */
    method WriteHeader(table: AllocationTable)
      modifies this
      ensures committedTable == table && disposeCount == old(disposeCount)
    {
      committedTable := table;
    }

    method Dispose()
      modifies this
      ensures disposeCount == old(disposeCount) + 1 && committedTable == old(committedTable)
    {
      disposeCount := disposeCount + 1;
    }
  }

  /** An edit transaction; it starts from the table published when it began. */
  class TransactionalEdit {
    const table: AllocationTable

    constructor (table: AllocationTable)
      ensures this.table == table
    {
      this.table := table;
    }
  }

  /** A read transaction; it sees the table published when it began. */
  class TransactionalRead {
    const table: AllocationTable

    constructor (table: AllocationTable)
      ensures this.table == table
    {
      this.table := table;
    }
  }

  /** What an attempt to begin an edit leads to. */
  datatype EditOutcome =
    | Started(edit: TransactionalEdit)
    | TimedOut                 // the slot was not entered in time: null
    | ReadOnlyFile             // exception: the file is read-only
    | AlreadyStarted           // exception: an edit is already open
    | DiskClosed               // the disk was released by Dispose

  /** What a transaction's event handler leads to. */
  datatype Status =
    | Done
    | NotCurrentTransaction    // exception: the sender is not the open edit
    | DiskClosed               // the disk was released by Dispose

  /** First position of `x` in `s`. */
  function IndexOf<T(==)>(s: seq<T>, x: T): (i: nat)
    requires x in s
    ensures i < |s| && s[i] == x && x !in s[..i]
  {
    if s[0] == x then 0
    else
      assert s == [s[0]] + s[1..];
      1 + IndexOf(s[1..], x)
  }

  /** `s` without its first `x`, as removal from a list does; unchanged
      when `x` does not occur. */
  function RemoveFirst<T(==)>(s: seq<T>, x: T): (r: seq<T>)
    ensures x !in s ==> r == s
    ensures x in s ==> |r| == |s| - 1
  {
    if s == [] then []
    else if s[0] == x then
      assert s == [s[0]] + s[1..];
      s[1..]
    else
      assert s == [s[0]] + s[1..];
      [s[0]] + RemoveFirst(s[1..], x)
  }

  /** The removal takes out exactly the element at the first position of
      `x` and keeps the others in order. */
  lemma {:induction false} RemoveFirstAtIndex<T>(s: seq<T>, x: T)
    requires x in s
    ensures RemoveFirst(s, x) == s[..IndexOf(s, x)] + s[IndexOf(s, x) + 1..]
  {
    assert s == [s[0]] + s[1..];
    if s[0] != x {
      var tail := s[1..];
      assert x in tail;
      var j := IndexOf(tail, x);
      assert IndexOf(s, x) == j + 1;
      RemoveFirstAtIndex(tail, x);
      assert RemoveFirst(s, x) == [s[0]] + (tail[..j] + tail[j + 1..]);
      assert [s[0]] + tail[..j] == s[..j + 1];
      assert tail[j + 1..] == s[j + 2..];
    }
  }

  /** The removal takes away one occurrence of `x`, if there is one, and
      nothing else. */
  lemma {:induction false} RemoveFirstMultiset<T>(s: seq<T>, x: T)
    ensures multiset(RemoveFirst(s, x)) == multiset(s) - multiset{x}
  {
    if s != [] {
      assert s == [s[0]] + s[1..];
      RemoveFirstMultiset(s[1..], x);
    }
  }

  /** No element occurs twice in `s`. */
  predicate Distinct<T(==)>(s: seq<T>)
  {
    forall i, j | 0 <= i < j < |s| :: s[i] != s[j]
  }

  /** From a list without repeats the removal takes `x` out entirely, and
      leaves a list without repeats. */
  lemma RemoveFirstDistinct<T>(s: seq<T>, x: T)
    requires Distinct(s)
    ensures x !in RemoveFirst(s, x) && Distinct(RemoveFirst(s, x))
  {
    if x in s {
      var i := IndexOf(s, x);
      RemoveFirstAtIndex(s, x);
      var r := s[..i] + s[i + 1..];
      assert forall k | 0 <= k < |r| :: r[k] == s[if k < i then k else k + 1];
    }
  }

  class FileSystemSnapshotService {
    var disposed: bool
    var diskIO: DiskIO?
    var fileAllocationTable: AllocationTable
    var slotHeld: bool
    var currentTransaction: TransactionalEdit?
    var readTransactions: seq<TransactionalRead>
    /** The disk the service was opened on. */
    ghost const disk: DiskIO

    /** An open edit holds the slot; no read is listed twice, as each one
        begun is a new object; until disposal the service uses its own
        disk, which has not been disposed; afterwards the disk is gone and
        was disposed exactly once. */
    ghost predicate Valid()
      reads this, disk
    {
      (currentTransaction != null ==> slotHeld) &&
      Distinct(readTransactions) &&
      (!disposed ==> diskIO == disk && disk.disposeCount == 0) &&
      (disposed ==> diskIO == null && disk.disposeCount == 1)
    }

    /** Opens an existing archive on `diskIO` and publishes its table. */
    constructor Open(diskIO: DiskIO)
      requires diskIO.disposeCount == 0
      ensures Valid() && disk == diskIO && this.diskIO == diskIO && !disposed
      ensures fileAllocationTable == diskIO.committedTable
      ensures !slotHeld && currentTransaction == null && readTransactions == []
    {
      disposed := false;
      this.diskIO := diskIO;
      disk := diskIO;
      fileAllocationTable := diskIO.committedTable;
      slotHeld := false;
      currentTransaction := null;
      readTransactions := [];
    }

    /** Creates a new archive on `diskIO`: writes its first table and
        publishes it. */
    constructor Create(diskIO: DiskIO, initial: AllocationTable)
      requires diskIO.disposeCount == 0
      modifies diskIO
      ensures Valid() && disk == diskIO && this.diskIO == diskIO && !disposed
      ensures diskIO.committedTable == initial && fileAllocationTable == initial
      ensures !slotHeld && currentTransaction == null && readTransactions == []
    {
      diskIO.WriteHeader(initial);
      disposed := false;
      this.diskIO := diskIO;
      disk := diskIO;
      fileAllocationTable := diskIO.committedTable;
      slotHeld := false;
      currentTransaction := null;
      readTransactions := [];
    }

    /**
     * Begins an edit. A read-only file is refused before the slot is
     * tried; `acquired` is whether the slot was entered in time. Entering
     * the slot while an edit is open is an error (the slot stays entered);
     * otherwise a new edit over the published table becomes current.
     */
    method BeginEditTransaction(acquired: bool) returns (outcome: EditOutcome)
      requires Valid()
      modifies this
      ensures Valid()
      ensures old(diskIO) == null ==> outcome == EditOutcome.DiskClosed && unchanged(this)
      ensures old(diskIO) != null && old(diskIO).isReadOnly ==> outcome == ReadOnlyFile && unchanged(this)
      ensures old(diskIO) != null && !old(diskIO).isReadOnly && !acquired ==> outcome == TimedOut && unchanged(this)
      ensures old(diskIO) != null && !old(diskIO).isReadOnly && acquired && old(currentTransaction) != null ==>
                outcome == AlreadyStarted && slotHeld && currentTransaction == old(currentTransaction)
      ensures old(diskIO) != null && !old(diskIO).isReadOnly && acquired && old(currentTransaction) == null ==>
                outcome.Started? && fresh(outcome.edit) && outcome.edit.table == old(fileAllocationTable) &&
                currentTransaction == outcome.edit && slotHeld
      ensures fileAllocationTable == old(fileAllocationTable) && readTransactions == old(readTransactions)
      ensures disposed == old(disposed) && diskIO == old(diskIO)
    {
      if diskIO == null {
        return EditOutcome.DiskClosed;
      }
      if diskIO.isReadOnly {
        return ReadOnlyFile;
      }
      if !acquired {
        return TimedOut;
      }
      slotHeld := true;
      if currentTransaction != null {
        return AlreadyStarted;
      }
      var edit := new TransactionalEdit(fileAllocationTable);
      currentTransaction := edit;
      return Started(edit);
    }

    /** Begins a read over the published table and lists it as live. */
    method BeginReadTransaction() returns (read: TransactionalRead)
      requires Valid()
      modifies this
      ensures Valid()
      ensures fresh(read) && read.table == fileAllocationTable
      ensures readTransactions == old(readTransactions) + [read]
      ensures fileAllocationTable == old(fileAllocationTable) && currentTransaction == old(currentTransaction)
      ensures slotHeld == old(slotHeld) && disposed == old(disposed) && diskIO == old(diskIO)
    {
      read := new TransactionalRead(fileAllocationTable);
      readTransactions := readTransactions + [read];
    }

    /** A read was disposed: it leaves the list of live reads. */
    method OnReadTransactionDisposed(sender: TransactionalRead)
      requires Valid()
      modifies this
      ensures Valid()
      ensures readTransactions == RemoveFirst(old(readTransactions), sender)
      ensures sender !in readTransactions
      ensures sender !in old(readTransactions) ==> readTransactions == old(readTransactions)
      ensures fileAllocationTable == old(fileAllocationTable) && currentTransaction == old(currentTransaction)
      ensures slotHeld == old(slotHeld) && disposed == old(disposed) && diskIO == old(diskIO)
    {
      RemoveFirstDistinct(readTransactions, sender);
      readTransactions := RemoveFirst(readTransactions, sender);
    }

    /** The open edit was disposed: the slot is released for the next one. */
    method OnEditTransactionDisposed(sender: TransactionalEdit) returns (status: Status)
      requires Valid()
      modifies this
      ensures Valid()
      ensures old(currentTransaction) != sender ==> status == NotCurrentTransaction && unchanged(this)
      ensures old(currentTransaction) == sender ==> status == Done && currentTransaction == null && !slotHeld
      ensures fileAllocationTable == old(fileAllocationTable) && readTransactions == old(readTransactions)
      ensures disposed == old(disposed) && diskIO == old(diskIO)
    {
      if currentTransaction != sender {
        return NotCurrentTransaction;
      }
      currentTransaction := null;
      slotHeld := false;
      return Done;
    }

    /** The open edit committed: the table last written to disk becomes the
        published one. Reads already begun keep the table they captured. */
    method OnTransactionCommitted(sender: TransactionalEdit) returns (status: Status)
      requires Valid()
      modifies this
      ensures Valid()
      ensures old(currentTransaction) != sender ==> status == NotCurrentTransaction && unchanged(this)
      ensures old(currentTransaction) == sender && old(diskIO) == null ==> status == Status.DiskClosed && unchanged(this)
      ensures old(currentTransaction) == sender && old(diskIO) != null ==>
                status == Done && fileAllocationTable == old(diskIO).committedTable
      ensures readTransactions == old(readTransactions) && currentTransaction == old(currentTransaction)
      ensures slotHeld == old(slotHeld) && disposed == old(disposed) && diskIO == old(diskIO)
    {
      if currentTransaction != sender {
        return NotCurrentTransaction;
      }
      if diskIO == null {
        return Status.DiskClosed;
      }
      fileAllocationTable := diskIO.committedTable;
      return Done;
    }

    /** The open edit rolled back: nothing changes. */
    method OnTransactionRolledBack(sender: TransactionalEdit) returns (status: Status)
      requires Valid()
      ensures status == (if currentTransaction != sender then NotCurrentTransaction else Done)
    {
      if currentTransaction != sender {
        return NotCurrentTransaction;
      }
      return Done;
    }

    /** Releases the disk the first time; later calls do nothing. */
    method Dispose(disposing: bool)
      requires Valid()
      modifies this, disk
      ensures Valid() && disposed && diskIO == null && disk.disposeCount == 1
      ensures old(disposed) ==> unchanged(this, disk)
      ensures fileAllocationTable == old(fileAllocationTable) && readTransactions == old(readTransactions)
      ensures currentTransaction == old(currentTransaction) && slotHeld == old(slotHeld)
      ensures disk.committedTable == old(disk.committedTable)
    {
      if !disposed {
        if diskIO != null {
          diskIO.Dispose();
        }
        diskIO := null;
        disposed := true;
      }
    }
  }
}
