/**
 The banks of a DDR4 channel and the row table of its controller (lab 3): which command a request needs
 first, what a command does to the banks, and the table that must agree with them.
 A path names a node of the DRAM tree below the channel: rank, bank group, bank.
 */
module RowTable {
  type Path = seq<nat>

  const RANK_LEVEL: nat := 1
  const BANK_LEVEL: nat := 3

  datatype Command = Activate | Precharge | PrechargeAll | Read | Write | Refresh

  /** The state of a bank: open or closed, and the rows recorded as open. */
  datatype BankState = BankState(isOpen: bool, rows: set<nat>)

  const CLOSED := BankState(false, {})

  type Banks = map<Path, BankState>

  datatype Entry = Entry(row: nat, hits: nat)

  type Table = map<Path, Entry>

  // ---- the banks ----

  /** The node at a level on the way to a bank; a path to a rank is a node itself. */
  function Prefix(path: Path, level: nat): Path {
    if level <= |path| then path[..level] else path
  }

  predicate AnyOpen(banks: Banks, rank: Path) {
    exists p :: p in banks && Prefix(p, RANK_LEVEL) == rank && banks[p].isOpen
  }

  /** The first command that a read or write needs. */
  function FirstForAccess(banks: Banks, path: Path, row: nat, access: Command): Command
    requires path in banks
  {
    if !banks[path].isOpen then Activate
    else if row in banks[path].rows then access
    else Precharge
  }

  /** The first command that the refresh of a rank needs. */
  function FirstForRefresh(banks: Banks, rank: Path): Command {
    if AnyOpen(banks, rank) then PrechargeAll else Refresh
  }

  function BanksAfter(banks: Banks, cmd: Command, path: Path, row: nat): (after: Banks)
    requires cmd.Activate? ==> path in banks
  {
    match cmd
    case Activate => banks[path := BankState(true, banks[path].rows + {row})]
    case Precharge => banks[path := CLOSED]
    case PrechargeAll => map p | p in banks :: if Prefix(p, RANK_LEVEL) == path then CLOSED else banks[p]
    case Read => banks
    case Write => banks
    case Refresh => banks
  }

  /** What the banks must be like for a command to make sense. */
  predicate Fits(banks: Banks, cmd: Command, path: Path, row: nat) {
    match cmd
    case Activate => path in banks && !banks[path].isOpen
    case Precharge => path in banks && banks[path].isOpen
    case PrechargeAll => AnyOpen(banks, path)
    case Read => path in banks && banks[path].isOpen && row in banks[path].rows
    case Write => path in banks && banks[path].isOpen && row in banks[path].rows
    case Refresh => !AnyOpen(banks, path)
  }

  lemma FirstFits(banks: Banks, path: Path, row: nat, access: Command)
    requires access.Read? || access.Write?
    ensures path in banks ==> Fits(banks, FirstForAccess(banks, path, row, access), path, row)
    ensures Fits(banks, FirstForRefresh(banks, path), path, row)
  {
  }

  // ---- agreement ----

  /** A bank is in the table iff it is open, and its entry names its only open row. */
  ghost predicate Agrees(table: Table, banks: Banks) {
    && (forall p :: p in table ==> p in banks)
    && (forall p :: p in banks ==>
          && |p| == BANK_LEVEL
          && (banks[p].isOpen <==> p in table)
          && banks[p].rows == if p in table then {table[p].row} else {})
  }

  function TableAfter(table: Table, cmd: Command, path: Path, row: nat): Table
    requires cmd.Read? || cmd.Write? ==> path in table
  {
    match cmd
    case Activate => if path in table then table else table[path := Entry(row, 0)]
    case Precharge => table - {path}
    case PrechargeAll => map p | p in table && Prefix(p, RANK_LEVEL) != path :: table[p]
    case Read => table[path := table[path].(hits := table[path].hits + 1)]
    case Write => table[path := table[path].(hits := table[path].hits + 1)]
    case Refresh => table
  }

  /** A fitting command finds in the table what it needs: no entry before an activation, the entry with
      the same row before an access, and at least one entry to remove before a precharge. */
  lemma FitsTable(table: Table, banks: Banks, cmd: Command, path: Path, row: nat)
    requires Agrees(table, banks) && Fits(banks, cmd, path, row)
    ensures cmd.Activate? ==> path !in table
    ensures cmd.Precharge? ==> path in table
    ensures cmd.PrechargeAll? ==> exists p :: p in table && Prefix(p, RANK_LEVEL) == path
    ensures cmd.Read? || cmd.Write? ==> path in table && table[path].row == row
  {
  }

  lemma AgreesAfter(table: Table, banks: Banks, cmd: Command, path: Path, row: nat)
    requires Agrees(table, banks) && Fits(banks, cmd, path, row)
    ensures cmd.Read? || cmd.Write? ==> path in table
    ensures Agrees(TableAfter(table, cmd, path, row), BanksAfter(banks, cmd, path, row))
  {
    FitsTable(table, banks, cmd, path, row);
  }

  lemma CloseOne(table: Table, banks: Banks, path: Path)
    requires Agrees(table, banks)
    ensures (map p | p in table && Prefix(p, BANK_LEVEL) != path :: table[p]) == table - {path}
    ensures path in table ==> Prefix(path, BANK_LEVEL) == path
  {
    assert forall p :: p in table ==> p[..BANK_LEVEL] == p;
  }

  /** How often the open row of a bank has been accessed; of this row, unless `anyRow`. */
  function HitsOf(table: Table, path: Path, row: nat, anyRow: bool): nat {
    if path !in table || (!anyRow && table[path].row != row) then 0 else table[path].hits
  }

  predicate IsOpening(cmd: Command) {
    cmd.Activate?
  }

  predicate IsAccessing(cmd: Command) {
    cmd.Read? || cmd.Write?
  }

  predicate IsClosing(cmd: Command) {
    cmd.Precharge? || cmd.PrechargeAll?
  }

  class RowTable {
    var table: Table

    constructor ()
      ensures table == map[]
    {
      table := map[];
    }

    /** The assertions are those of the source: they hold whenever the table agrees with the banks, as
        they were before the command, and the command fits them. */
    method Update(cmd: Command, path: Path, row: nat, ghost banks: Banks)
      requires Agrees(table, banks) && Fits(banks, cmd, path, row)
      modifies this
      ensures IsAccessing(cmd) ==> path in old(table)
      ensures table == TableAfter(old(table), cmd, path, row)
    {
      FitsTable(table, banks, cmd, path, row);
      if IsOpening(cmd) && path !in table {
        table := table[path := Entry(row, 0)];
      }
      if IsAccessing(cmd) {
        assert path in table;
        assert table[path].row == row;
        table := table[path := Entry(row, table[path].hits + 1)];
      }
      if IsClosing(cmd) {
        CloseOne(table, banks, path);
        var removed := Remove(if cmd.Precharge? then BANK_LEVEL else RANK_LEVEL, path);
        assert removed > 0;
      }
    }

    /** Remove the entries of the banks below a node, and count them. */
    method Remove(level: nat, path: Path) returns (removed: nat)
      modifies this
      ensures table == map p | p in old(table) && Prefix(p, level) != path :: old(table)[p]
      ensures removed > 0 <==> exists p :: p in old(table) && Prefix(p, level) == path
    {
      removed := 0;
      var left := table.Keys;
      while left != {}
        invariant left <= old(table).Keys
        invariant table == map p | p in old(table) && (p in left || Prefix(p, level) != path) :: old(table)[p]
        invariant removed > 0 <==> exists p :: p in old(table).Keys - left && Prefix(p, level) == path
        decreases |left|
      {
        var p :| p in left;
        if Prefix(p, level) == path {
          table := table - {p};
          removed := removed + 1;
        }
        left := left - {p};
      }
    }

    function GetHits(path: Path, row: nat, anyRow: bool): nat
      reads this
    {
      HitsOf(table, path, row, anyRow)
    }
  }
}
