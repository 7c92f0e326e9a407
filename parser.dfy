/**
 * The command parser: a line of text becomes an insert statement carrying
 * a row, a select statement, or an error kind.
 */
module Parser {
  import opened Rows
  import opened Text

  /** A parsed statement; an insert always carries the row to store. */
  datatype Stmt = Insert(row: Row) | Select

  /** The whitespace-separated tokens of a trimmed line. */
  function Tokens(line: string): seq<string> {
    SplitWhitespace(Trim(line))
  }

  /** Token bytes followed by zero bytes up to the field width. */
  function Pad(b: seq<byte>): (f: Field)
    requires |b| <= FIELD_SIZE
    ensures f[..|b|] == b
    ensures forall i :: |b| <= i < FIELD_SIZE ==> f[i] == 0
  {
    b + seq(FIELD_SIZE - |b|, _ => 0)
  }

  predicate ZeroFree(b: seq<byte>) {
    forall i :: 0 <= i < |b| ==> b[i] != 0
  }

  /**
   * Padding loses nothing for bytes without a zero byte: two such byte
   * strings give the same field only if they are equal.
   */
  lemma PadInjective(a: seq<byte>, b: seq<byte>)
    requires |a| <= FIELD_SIZE && |b| <= FIELD_SIZE
    requires ZeroFree(a) && ZeroFree(b)
    requires Pad(a) == Pad(b)
    ensures a == b
  {
    PadFirstZero(a);
    PadFirstZero(b);
    assert |a| < FIELD_SIZE ==> Pad(b)[|a|] == 0;
    assert |b| < FIELD_SIZE ==> Pad(a)[|b|] == 0;
    assert a == Pad(a)[..|a|] == Pad(b)[..|b|] == b;
  }

  /** For zero-free bytes, the first zero of the field marks where the bytes end. */
  lemma PadFirstZero(b: seq<byte>)
    requires |b| <= FIELD_SIZE && ZeroFree(b)
    ensures forall k :: 0 <= k < FIELD_SIZE ==> (Pad(b)[k] == 0 <==> k >= |b|)
  {
  }

  /** A trailing zero byte in a name is indistinguishable from padding. */
  lemma PadAbsorbsZero(b: seq<byte>)
    requires |b| < FIELD_SIZE
    ensures Pad(b + [0]) == Pad(b)
  {
    assert forall i :: 0 <= i < FIELD_SIZE ==> Pad(b + [0])[i] == Pad(b)[i];
  }

  predicate FitsField(token: string) {
    |Utf8(token)| <= FIELD_SIZE
  }

  /**
   * The lines the parser can handle without indexing past a field: only a
   * four-token insert with a valid id copies its name tokens into fields,
   * and each must then fit in 32 bytes.
   */
  predicate FieldsFit(line: string) {
    var t := Tokens(line);
    |t| == 4 && t[0] == "insert" && ParseU64(t[1]).Some? ==> FitsField(t[2]) && FitsField(t[3])
  }

  /** What the parser makes of a line. */
  function Parse(line: string): (r: Result<Stmt>)
    requires FieldsFit(line)
    ensures r.Err? ==> r.error != InternalError
    ensures r == Ok(Select) <==> Tokens(line) == ["select"]
  {
    var splitted := Tokens(line);
    if |splitted| == 0 then Err(SyntaxError)
    else if splitted[0] == "insert" then
      if |splitted| != 4 then Err(SyntaxError)
      else match ParseU64(splitted[1])
        case None => Err(SyntaxError)
        case Some(id) => Ok(Insert(Row(id, Pad(Utf8(splitted[2])), Pad(Utf8(splitted[3])))))
    else if splitted[0] == "select" then
      if |splitted| != 1 then Err(SyntaxError) else Ok(Select)
    else Err(UnknownCommand)
  }

  /** Copies the bytes of a token into a zeroed 32-byte field, one by one. */
  method CopyToField(bytes: seq<byte>) returns (field: Field)
    requires |bytes| <= FIELD_SIZE
    ensures field == Pad(bytes)
  {
    var buf := new byte[FIELD_SIZE](_ => 0);
    for i := 0 to |bytes|
      invariant forall k :: 0 <= k < i ==> buf[k] == bytes[k]
      invariant forall k :: i <= k < FIELD_SIZE ==> buf[k] == 0
    {
      buf[i] := bytes[i];
    }
    field := buf[..];
    assert forall k :: 0 <= k < FIELD_SIZE ==> field[k] == Pad(bytes)[k];
  }

  /** The parser as it runs: early returns, then a field copy per name. */
  method ParseStatement(stmt: string) returns (r: Result<Stmt>)
    requires FieldsFit(stmt)
    ensures r == Parse(stmt)
  {
    var splitted := SplitWhitespace(Trim(stmt));
    if |splitted| == 0 {
      return Err(SyntaxError);
    }
    if splitted[0] != "insert" && splitted[0] != "select" {
      return Err(UnknownCommand);
    }
    if splitted[0] == "insert" {
      if |splitted| != 4 {
        return Err(SyntaxError);
      }
      var id := ParseU64(splitted[1]);
      if id.None? {
        return Err(SyntaxError);
      }
      var username := CopyToField(Utf8(splitted[2]));
      var email := CopyToField(Utf8(splitted[3]));
      return Ok(Insert(Row(id.value, username, email)));
    }
    if |splitted| != 1 {
      return Err(SyntaxError);
    }
    return Ok(Select);
  }

  // ---------------------------------------------------------------------
  // Classification of lines
  // ---------------------------------------------------------------------

  /** The tokens of a line joined from tokens are those tokens. */
  lemma TokensOfUnwords(tokens: seq<string>)
    requires forall i :: 0 <= i < |tokens| ==> IsToken(tokens[i])
    ensures Tokens(Unwords(tokens)) == tokens
  {
    SplitTrim(Unwords(tokens));
    SplitUnwords(tokens);
  }

  /** An empty or all-whitespace line is a syntax error. */
  lemma ParseBlankLine(line: string)
    requires AllWhitespace(line)
    ensures FieldsFit(line) && Parse(line) == Err(SyntaxError)
  {
    SplitTrim(line);
    SplitEmptyIffBlank(line);
  }

  /** A line with a token in it is never read as blank. */
  lemma TokensEmptyOnlyIfBlank(line: string)
    requires !AllWhitespace(line)
    ensures Tokens(line) != []
  {
    SplitTrim(line);
    SplitEmptyIffBlank(line);
  }

  /**
   * A first token other than `insert` or `select` is an unknown command,
   * whatever whitespace precedes it and whatever follows it.
   */
  lemma ParseUnknownVerb(pre: string, verb: string, sep: string, rest: string)
    requires AllWhitespace(pre)
    requires IsToken(verb) && verb != "insert" && verb != "select"
    requires sep != [] && AllWhitespace(sep)
    ensures FieldsFit(pre + verb + sep + rest)
    ensures Parse(pre + verb + sep + rest) == Err(UnknownCommand)
  {
    var line := pre + verb + sep + rest;
    assert line == pre + (verb + sep + rest);
    SplitTrim(line);
    LeadingSpaceIgnored(pre, verb + sep + rest);
    SplitConsToken(verb, sep, rest);
  }

  /** An unknown verb on its own, with any whitespace around it, is an unknown command. */
  lemma ParseUnknownVerbAlone(pre: string, verb: string, post: string)
    requires AllWhitespace(pre) && AllWhitespace(post)
    requires IsToken(verb) && verb != "insert" && verb != "select"
    ensures FieldsFit(pre + verb + post)
    ensures Parse(pre + verb + post) == Err(UnknownCommand)
  {
    var line := pre + verb + post;
    assert line == pre + (verb + post);
    SplitTrim(line);
    LeadingSpaceIgnored(pre, verb + post);
    TrailingSpaceIgnored(verb, post);
    TokensOfUnwords([verb]);
    SplitTrim(verb);
  }

  /** `insert` with other than three arguments is a syntax error. */
  lemma ParseInsertArity(args: seq<string>)
    requires forall i :: 0 <= i < |args| ==> IsToken(args[i])
    requires |args| != 3
    ensures FieldsFit(Unwords(["insert"] + args))
    ensures Parse(Unwords(["insert"] + args)) == Err(SyntaxError)
  {
    VerbsAreTokens();
    ConsTokens("insert", args);
    TokensOfUnwords(["insert"] + args);
    InsertWithWrongArity(Unwords(["insert"] + args));
  }

  /** `insert` whose id is not a u64 is a syntax error. */
  lemma ParseInsertBadId(id: string, username: string, email: string)
    requires IsToken(id) && IsToken(username) && IsToken(email)
    requires ParseU64(id) == None
    ensures FieldsFit(Unwords(["insert", id, username, email]))
    ensures Parse(Unwords(["insert", id, username, email])) == Err(SyntaxError)
  {
    VerbsAreTokens();
    TokensOfUnwords(["insert", id, username, email]);
  }

  /** `select` followed by anything is a syntax error. */
  lemma ParseSelectExtra(args: seq<string>)
    requires forall i :: 0 <= i < |args| ==> IsToken(args[i])
    requires args != []
    ensures FieldsFit(Unwords(["select"] + args))
    ensures Parse(Unwords(["select"] + args)) == Err(SyntaxError)
  {
    VerbsAreTokens();
    ConsTokens("select", args);
    TokensOfUnwords(["select"] + args);
    SelectWithArguments(Unwords(["select"] + args));
  }

  /** `select` alone, with any surrounding whitespace, is a select statement. */
  lemma ParseSelectAlone(before: string, after: string)
    requires AllWhitespace(before) && AllWhitespace(after)
    ensures FieldsFit(before + "select" + after)
    ensures Parse(before + "select" + after) == Ok(Select)
  {
    VerbsAreTokens();
    var line := before + "select" + after;
    assert line == before + ("select" + after);
    SplitTrim(line);
    LeadingSpaceIgnored(before, "select" + after);
    TrailingSpaceIgnored("select", after);
    TokensOfUnwords(["select"]);
    SplitTrim("select");
  }

  /**
   * A well-formed insert stores the id its token spells, in any spelling
   * `u64::from_str` accepts, and each name as its UTF-8 bytes followed by
   * zero bytes up to 32.
   */
  lemma ParseInsertCommand(idToken: string, id: u64, username: string, email: string)
    requires ParseU64(idToken) == Some(id)
    requires IsToken(username) && IsToken(email)
    requires FitsField(username) && FitsField(email)
    ensures FieldsFit(Unwords(["insert", idToken, username, email]))
    ensures Parse(Unwords(["insert", idToken, username, email]))
         == Ok(Insert(Row(id, Pad(Utf8(username)), Pad(Utf8(email)))))
  {
    VerbsAreTokens();
    ParsedIdIsToken(idToken);
    TokensOfUnwords(["insert", idToken, username, email]);
  }

  lemma SelectWithArguments(line: string)
    requires |Tokens(line)| > 1 && Tokens(line)[0] == "select"
    ensures FieldsFit(line) && Parse(line) == Err(SyntaxError)
  {
    assert "insert"[0] != "select"[0];
  }

  lemma InsertWithWrongArity(line: string)
    requires |Tokens(line)| != 4 && Tokens(line) != [] && Tokens(line)[0] == "insert"
    ensures FieldsFit(line) && Parse(line) == Err(SyntaxError)
  {
  }

  /** Prepending a token to a list of tokens gives a list of tokens. */
  lemma ConsTokens(w: string, args: seq<string>)
    requires IsToken(w)
    requires forall i :: 0 <= i < |args| ==> IsToken(args[i])
    ensures forall i :: 0 <= i < |[w] + args| ==> IsToken(([w] + args)[i])
  {
  }

  /** Both verbs are single tokens. */
  lemma VerbsAreTokens()
    ensures IsToken("insert") && IsToken("select")
  {
  }
}
