/**
 * A console session against a fresh table: two inserts, a select with an
 * extra argument, an insert with a non-numeric id, then a select that lists
 * the two stored rows in insertion order.
 */
module Session {
  import opened Rows
  import opened Text
  import opened Parser
  import opened Store

  lemma SelectLine()
    ensures FieldsFit("select") && Parse("select") == Ok(Select)
  {
    ParseSelectAlone("", "");
    assert "" + "select" + "" == "select";
  }

  /** The insert line for a row with the given id and names. */
  function InsertLine(id: u64, username: string, email: string): string {
    Unwords(["insert", DecimalString(id), username, email])
  }

  /** The insert line for a row parses to that row, with the id in its shortest spelling. */
  lemma InsertLineParses(id: u64, username: string, email: string)
    requires IsToken(username) && IsToken(email) && FitsField(username) && FitsField(email)
    ensures FieldsFit(InsertLine(id, username, email))
    ensures Parse(InsertLine(id, username, email))
         == Ok(Insert(Row(id, Pad(Utf8(username)), Pad(Utf8(email)))))
  {
    ParseDecimalString(id);
    ParseInsertCommand(DecimalString(id), id, username, email);
  }

  method TwoInsertsThenSelect(
    id1: u64, username1: string, email1: string,
    id2: u64, username2: string, email2: string,
    extra: string, badId: string)
    returns (reports: seq<Report>, count: nat)
    requires IsToken(username1) && IsToken(email1) && FitsField(username1) && FitsField(email1)
    requires IsToken(username2) && IsToken(email2) && FitsField(username2) && FitsField(email2)
    requires IsToken(extra)
    requires IsToken(badId) && ParseU64(badId) == None
    ensures reports == [
      Status("OK"),
      Status("OK"),
      Failure(SyntaxError),
      Failure(SyntaxError),
      Listing([Row(id1, Pad(Utf8(username1)), Pad(Utf8(email1))),
               Row(id2, Pad(Utf8(username2)), Pad(Utf8(email2)))])]
    ensures count == 2
  {
    ghost var first := Row(id1, Pad(Utf8(username1)), Pad(Utf8(email1)));
    ghost var second := Row(id2, Pad(Utf8(username2)), Pad(Utf8(email2)));
    var table := new Table();

    var line1 := InsertLine(id1, username1, email1);
    InsertLineParses(id1, username1, email1);
    var r1 := Execute(line1, table);

    var line2 := InsertLine(id2, username2, email2);
    InsertLineParses(id2, username2, email2);
    var r2 := Execute(line2, table);
    assert table.rows == [first, second] && table.len == 2;

    var line3 := Unwords(["select"] + [extra]);
    ParseSelectExtra([extra]);
    var r3 := Execute(line3, table);

    var line4 := Unwords(["insert", badId, username1, email1]);
    ParseInsertBadId(badId, username1, email1);
    var r4 := Execute(line4, table);

    SelectLine();
    var r5 := Execute("select", table);
    reports := [r1, r2, r3, r4, r5];
    count := table.len;
  }
}
