/**
 * The row store: a fixed arena of 4096 slots of 72 bytes and a count of the
 * slots in use, filled front to back by insert and read back by select.
 */
module Store {
  import opened Rows
  import opened Text
  import opened Parser

  const TABLE_MAX_ROWS: nat := 4096
  const MEMORY_SIZE: nat := TABLE_MAX_ROWS * ROW_SIZE

  /** What one executed command reports to the console. */
  datatype Report =
    | Status(text: string)   // the status line printed after an insert
    | Listing(rows: seq<Row>) // the rows printed by a select, in order
    | Failure(error: Error)  // a parse error, printed as `Error: <kind>`

  /** The status line printed for the outcome of an insert. */
  function StatusText(res: Result<()>): (text: string)
    ensures text == "OK" <==> res.Ok?
  {
    match res
    case Ok(_) => "OK"
    case Err(SyntaxError) => "Syntax error"
    case Err(UnknownCommand) => "Unknown command"
    case Err(InternalError) => "Internal error"
  }

  /** The byte range of slot `n` in the arena. */
  function SlotStart(n: nat): nat {
    n * ROW_SIZE
  }

  /** Slot `n` of an arena image. */
  function SlotOf(mem: seq<byte>, n: nat): (b: seq<byte>)
    requires SlotStart(n) + ROW_SIZE <= |mem|
    ensures |b| == ROW_SIZE
  {
    mem[SlotStart(n) .. SlotStart(n) + ROW_SIZE]
  }

  /** Every slot below |rows| holds the encoding of the row at that position. */
  ghost predicate SlotsHold(mem: seq<byte>, rows: seq<Row>) {
    && |rows| <= TABLE_MAX_ROWS
    && |mem| == MEMORY_SIZE
    && forall i :: 0 <= i < |rows| ==> SlotOf(mem, i) == EncodeRow(rows[i])
  }

  /** The arena image with slot `n` overwritten by `b`. */
  function WriteSlot(mem: seq<byte>, n: nat, b: seq<byte>): (r: seq<byte>)
    requires SlotStart(n) + ROW_SIZE <= |mem| && |b| == ROW_SIZE
    ensures |r| == |mem|
    ensures SlotOf(r, n) == b
    ensures forall k :: 0 <= k < |mem| && !(SlotStart(n) <= k < SlotStart(n) + ROW_SIZE) ==> r[k] == mem[k]
  {
    mem[..SlotStart(n)] + b + mem[SlotStart(n) + ROW_SIZE..]
  }

  /** Appending a row in the first free slot keeps every earlier slot. */
  lemma SlotsHoldAfterWrite(mem: seq<byte>, rows: seq<Row>, row: Row)
    requires SlotsHold(mem, rows) && |rows| < TABLE_MAX_ROWS
    ensures SlotsHold(WriteSlot(mem, |rows|, EncodeRow(row)), rows + [row])
  {
    var n := |rows|;
    var after := WriteSlot(mem, n, EncodeRow(row));
    forall i | 0 <= i < n
      ensures SlotOf(after, i) == SlotOf(mem, i)
    {
      assert SlotStart(i) + ROW_SIZE <= SlotStart(n);
    }
  }

  class Table {
    var len: nat
    const memory: array<byte>
    /** The rows stored so far, in insertion order. */
    ghost var rows: seq<Row>

    /** Slot i, for i < len, holds the encoding of the i-th inserted row. */
    ghost predicate Valid()
      reads this, memory
    {
      && memory.Length == MEMORY_SIZE
      && |rows| == len
      && SlotsHold(memory[..], rows)
    }

    /** A table with no rows over a zeroed arena. */
    constructor ()
      ensures Valid() && fresh(memory)
      ensures len == 0 && rows == []
      ensures forall k :: 0 <= k < memory.Length ==> memory[k] == 0
    {
      len := 0;
      memory := new byte[MEMORY_SIZE](_ => 0);
      rows := [];
    }

    /**
     * Writes the encoded row into slot `len` and counts it. The source has
     * no capacity check: with the arena full the slot lies out of bounds.
     */
    method Insert(row: Row) returns (res: Result<()>)
      requires Valid()
      requires len < TABLE_MAX_ROWS
      modifies this, memory
      ensures Valid()
      ensures res == Ok(())
      ensures len == old(len) + 1
      ensures rows == old(rows) + [row]
      ensures memory[..] == WriteSlot(old(memory[..]), old(len), EncodeRow(row))
    {
      var rowBytes := EncodeRow(row);
      var memOffset := len * ROW_SIZE;
      ghost var image := WriteSlot(memory[..], len, rowBytes);
      SlotsHoldAfterWrite(memory[..], rows, row);
      forall k | 0 <= k < ROW_SIZE {
        memory[memOffset + k] := rowBytes[k];
      }
      assert memory[..] == image by {
        forall k | 0 <= k < MEMORY_SIZE
          ensures memory[k] == image[k]
        {
          if memOffset <= k < memOffset + ROW_SIZE {
            assert image[k] == SlotOf(image, len)[k - memOffset];
          }
        }
      }
      len := len + 1;
      rows := rows + [row];
      res := Ok(());
    }

    /** Decodes slots 0 .. len-1 in order. */
    method Select() returns (res: Result<seq<Row>>)
      requires Valid()
      ensures res == Ok(rows)
      ensures |res.value| == len
      ensures forall i :: 0 <= i < len ==> DecodeRow(SlotOf(memory[..], i)) == Some(res.value[i])
    {
      var out: seq<Row> := [];
      for i := 0 to len
        invariant out == rows[..i]
      {
        var pageOffset := i * ROW_SIZE;
        var rowBytes := memory[pageOffset .. pageOffset + ROW_SIZE];
        assert rowBytes == SlotOf(memory[..], i);
        RowRoundTrip(rows[i]);
        match DecodeRow(rowBytes)
        case Some(row) =>
          out := out + [row];
        case None =>
          assert false;
          return Err(InternalError);
      }
      assert out == rows;
      return Ok(out);
    }
  }

  /**
   * Runs one command line against the table: a parse error is reported and
   * touches nothing, an insert stores its row and reports "OK", a select
   * lists the rows in insertion order and touches nothing.
   */
  method Execute(command: string, table: Table) returns (report: Report)
    requires table.Valid()
    requires FieldsFit(command)
    requires Parse(command).Ok? && Parse(command).value.Insert? ==> table.len < TABLE_MAX_ROWS
    modifies table, table.memory
    ensures table.Valid()
    ensures Parse(command).Err? ==>
              && report == Failure(Parse(command).error)
              && table.len == old(table.len) && table.rows == old(table.rows)
              && table.memory[..] == old(table.memory[..])
    ensures Parse(command) == Ok(Select) ==>
              && report == Listing(old(table.rows))
              && table.len == old(table.len) && table.rows == old(table.rows)
              && table.memory[..] == old(table.memory[..])
    ensures Parse(command).Ok? && Parse(command).value.Insert? ==>
              && report == Status("OK")
              && table.len == old(table.len) + 1
              && table.rows == old(table.rows) + [Parse(command).value.row]
  {
    var stmt := ParseStatement(command);
    match stmt
    case Ok(Insert(row)) =>
      var res := table.Insert(row);
      report := Status(StatusText(res));
    case Ok(Select) =>
      var rows := table.Select();
      report := Listing(rows.value);
    case Err(error) =>
      report := Failure(error);
  }
}
