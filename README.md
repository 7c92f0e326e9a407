# Row store and command parser

A model, in Dafny, of the storage core of a tiny line-oriented record
store written in Rust. The program keeps a `Table`: a count `len` and a
fixed arena of 4096 slots of 72 bytes. A command line is either
`insert <id> <username> <email>` or `select`:

- an insert encodes a `Row` into slot `len` and increments `len`;
- a select decodes slots `0 .. len-1` in order.

The model has five modules:

- `Rows` (`rows.dfy`) holds the row layout and its codec. A `Row` is a
  `u64` id and two 32-byte fields. Encoding writes the id as 8
  little-endian bytes, then the raw username bytes, then the raw email
  bytes: 72 bytes, with no length prefixes. Decoding reads that layout
  back. The lemmas prove that the two are inverse in both directions, so
  every 72-byte slot decodes to a row.
- `Text` (`text.dfy`) holds the string functions the parser uses:
  - Rust's `char::is_whitespace` (the Unicode White_Space property);
  - `str::trim` and `str::split_whitespace`;
  - `u64::from_str`;
  - the UTF-8 bytes of a string (RFC 3629, section 3).
  Each has a partner: a joiner that splitting undoes, a decimal printer
  that parsing undoes, and a one-character decoder that undoes the UTF-8
  encoding.
- `Parser` (`parser.dfy`) holds `Parse`, the parser as a function, and
  `ParseStatement`, the parser as the code runs it, with its byte-copy
  loop (`CopyToField`). Lemmas classify lines: blank, unknown verb, wrong
  arity, bad id, extra select arguments, and a well-formed insert.
- `Store` (`table.dfy`) holds the class `Table`. Its `Insert` changes the
  arena in place, and its `Select` is a loop that decodes slots. It also
  holds `Execute`, which runs one command line against a table. A ghost
  field `rows` records the rows inserted so far. `Valid()` ties it to the
  arena: slot `i` holds the encoding of `rows[i]`.
- `Session` (`session.dfy`) is a client of `Execute`. Two inserts, two
  rejected commands and a select report exactly what a console session
  should.

The model follows the code, including where it panics:

- The code has no capacity check. An insert into a full table slices
  past the arena and panics. `Table.Insert` therefore requires
  `len < 4096`, and there is no error value for a full table.
- The code does not shorten long names. It panics when a name's UTF-8
  bytes exceed 32. `Parse` therefore requires `FieldsFit`. This holds
  exactly on the lines whose field copies stay in bounds: every line
  except a four-token insert with a valid id and a name over 32 bytes.
- A field is the name's bytes followed by zero bytes, and nothing else is
  done to it: a zero byte inside a name is stored as it is.
- The source's `Stmt { kind, row: Option<Row> }` always carries a row for
  an insert and none for a select. The model writes it as
  `Insert(row) | Select`.

## Model

| member | source | states |
|---|---|---|
| `Rows.LeBytes` | src/table.rs:37 | the n little-endian bytes of a number below 256^n, exactly n of them; characterised by `LeValueOfLeBytes` and `LeBytesOfLeValue` |
| `Rows.LeValue` | src/table.rs:51 | the number a little-endian byte string denotes, below 256^length; characterised by the same two lemmas |
| `Rows.LeValueOfLeBytes` | src/table.rs:37 | reading back the n little-endian bytes of a number below 256^n gives the number |
| `Rows.LeBytesOfLeValue` | src/table.rs:51 | every byte string is the little-endian image of the number it denotes |
| `Rows.EncodeRow` | src/table.rs:37 | a row encodes to exactly ROW_SIZE = 72 bytes: bytes 0..8 read as a little-endian number give the id, bytes 8..40 are the username, bytes 40..72 are the email |
| `Rows.DecodeRow` | src/table.rs:51 | decoding succeeds exactly on 72-byte input |
| `Rows.RowRoundTrip` | src/table.rs:37-51 | decoding the slot that encoding wrote gives back the same row |
| `Rows.SlotRoundTrip` | src/table.rs:51-57 | every 72-byte slot decodes to a row, and re-encoding that row gives the same bytes, so the deserialize error branch cannot be taken on a slot |
| `Rows.EncodeRowInjective` | src/table.rs:37 | two rows with the same slot image are the same row |
| `Text.IsWhitespace` | src/table.rs:65-66 | definition: the Unicode White_Space characters, the set Rust's `char::is_whitespace` tests, which `trim` and `split_whitespace` split on |
| `Text.Trim` | src/table.rs:65 | the result is no longer than the input and neither starts nor ends with whitespace; `SplitTrim` shows it leaves the tokens unchanged |
| `Text.SplitWhitespace` | src/table.rs:66 | definition: the maximal runs of non-whitespace characters, in order; characterised by `SplitYieldsTokens`, `SplitEmptyIffBlank`, `SplitConsToken` and `SplitUnwords` |
| `Text.TrimStart` | src/table.rs:65 | the result is no longer than the input and does not start with whitespace |
| `Text.TrimEnd` | src/table.rs:65 | the result is no longer than the input and does not end with whitespace |
| `Text.TrimStartDropsWhitespace` | src/table.rs:65 | trimming the start removes a prefix made of whitespace only |
| `Text.TrimEndDropsWhitespace` | src/table.rs:65 | trimming the end removes a suffix made of whitespace only |
| `Text.TrimStartAfterSpace` | src/table.rs:65 | leading whitespace has no effect on what trimming the start leaves |
| `Text.Word` | src/table.rs:66 | the run taken is no longer than the input and is non-empty when the input starts with a non-whitespace character |
| `Text.WordIsMaximalRun` | src/table.rs:66 | a run is a whitespace-free prefix that stops only at whitespace or at the end |
| `Text.SplitYieldsTokens` | src/table.rs:66 | every token of a split is non-empty and holds no whitespace |
| `Text.SplitEmptyIffBlank` | src/table.rs:66-69 | a line splits into no tokens if and only if it is all whitespace |
| `Text.WordOfTokenThenRest` | src/table.rs:66 | a token followed by whitespace or the end is taken as one run |
| `Text.LeadingSpaceIgnored` | src/table.rs:66 | whitespace before a line does not change its tokens |
| `Text.SplitConsToken` | src/table.rs:66 | a token, then whitespace, then any text splits into that token followed by the tokens of the text |
| `Text.SplitUnwords` | src/table.rs:66 | splitting tokens joined by single spaces gives back the tokens |
| `Text.WordBeforeSpace` | src/table.rs:66 | whitespace after a run does not change the run |
| `Text.TrailingSpaceIgnored` | src/table.rs:66 | whitespace after a line does not change its tokens |
| `Text.TrailingSpaceOfRun` | src/table.rs:66 | the same, for a line that starts with a token |
| `Text.SplitTrim` | src/table.rs:65-66 | trimming a line before splitting it does not change its tokens |
| `Text.ParseU64` | src/table.rs:80-84 | an accepted id is an optional `+` followed by a non-empty run of ASCII digits, and its value is the value of those digits |
| `Text.ParsedIdIsToken` | src/table.rs:80-84 | a string `u64::from_str` accepts holds no whitespace, so it is a single token |
| `Text.DigitsValueOfDecimalString` | src/table.rs:80 | the digits printed for n have the value n |
| `Text.ParseDecimalString` | src/table.rs:80-84 | every u64 is read back from its decimal spelling, with or without a leading `+` |
| `Text.ParseU64Overflow` | src/table.rs:80-84 | a decimal of 2^64 or more is refused |
| `Text.Utf8Char` | src/table.rs:85 | a character takes 1 to 4 bytes, and 1 byte exactly when it is ASCII |
| `Text.Utf8CharRoundTrip` | src/table.rs:85 | decoding the UTF-8 bytes of a character gives back its scalar value |
| `Text.Utf8` | src/table.rs:85 | a string of n characters takes between n and 4n bytes |
| `Text.Utf8Ascii` | src/table.rs:85 | an ASCII string's bytes are its character codes, one per character |
| `Parser.Tokens` | src/table.rs:65-66 | definition: the split of the trimmed line; `TokensOfUnwords` shows it gives back the tokens a line was joined from |
| `Parser.FieldsFit` | src/table.rs:85-94 | definition: the lines on which the two field copies stay within 32 bytes, that is every line except a four-token insert with a valid id and a name of more than 32 bytes |
| `Parser.Pad` | src/table.rs:86-89 | the field starts with the given bytes and is zero from there to byte 32 |
| `Parser.PadFirstZero` | src/table.rs:86-89 | for zero-free bytes, a field byte is zero exactly from the end of the bytes on |
| `Parser.PadInjective` | src/table.rs:86-94 | two zero-free byte strings of at most 32 bytes give the same field only if they are equal |
| `Parser.PadAbsorbsZero` | src/table.rs:86-89 | a trailing zero byte in a name cannot be told apart from padding |
| `Parser.CopyToField` | src/table.rs:86-89 | copying the bytes one by one into a zeroed 32-byte array gives the padded field |
| `Parser.Parse` | src/table.rs:64-114 | a parse error is never InternalError, and the result is the select statement exactly when the line's only token is `select` |
| `Parser.ParseStatement` | src/table.rs:64-114 | the parser with its early returns and field copies computes `Parse` on every line it can handle |
| `Parser.TokensOfUnwords` | src/table.rs:65-66 | the tokens of a line built from tokens are those tokens |
| `Parser.ParseBlankLine` | src/table.rs:65-69 | an empty or all-whitespace line is a SyntaxError |
| `Parser.TokensEmptyOnlyIfBlank` | src/table.rs:65-69 | a line that is not all whitespace has at least one token |
| `Parser.ParseUnknownVerb` | src/table.rs:70-74 | a first token other than `insert` or `select`, after any leading whitespace, gives UnknownCommand whatever whitespace and text follow it |
| `Parser.ParseUnknownVerbAlone` | src/table.rs:70-74 | an unknown verb on its own, with any whitespace around it, gives UnknownCommand |
| `Parser.InsertWithWrongArity` | src/table.rs:77-79 | a line whose first token is `insert` and that has other than four tokens is a SyntaxError |
| `Parser.ParseInsertArity` | src/table.rs:77-79 | `insert` followed by other than three arguments is a SyntaxError |
| `Parser.ParseInsertBadId` | src/table.rs:80-84 | `insert` with an id that is not a valid u64 is a SyntaxError |
| `Parser.SelectWithArguments` | src/table.rs:104-107 | a line whose first token is `select` and that has more tokens is a SyntaxError |
| `Parser.ParseSelectExtra` | src/table.rs:104-107 | `select` followed by any argument is a SyntaxError |
| `Parser.ParseSelectAlone` | src/table.rs:104-111 | `select` alone, with any whitespace around it, is the select statement |
| `Parser.ParseInsertCommand` | src/table.rs:80-102 | a four-token insert whose id token `u64::from_str` accepts (leading `+` or zeros included) and whose names fit in 32 bytes yields a row with that id, each name stored as its UTF-8 bytes followed by zero bytes up to 32 |
| `Store.StatusText` | src/table.rs:123-131 | the status line is "OK" exactly when the insert succeeded |
| `Store.SlotOf` | src/table.rs:48-50 | slot n is the 72 bytes from offset n * 72 |
| `Store.WriteSlot` | src/table.rs:38-40 | after writing slot n, slot n holds the new bytes and every byte outside it is unchanged |
| `Store.SlotsHoldAfterWrite` | src/table.rs:36-43 | writing the encoded row into the first free slot keeps every earlier slot, so the arena holds the old rows followed by the new one |
| `Store.Table.Valid` | src/table.rs:30-33 | definition: the arena has 4096 * 72 bytes, `len` counts the stored rows, and slot i holds the encoding of the i-th inserted row; every constructor and method of `Table` establishes or keeps it |
| `Store.Table.constructor` | src/main.rs:8-11 | a new table has len 0, no rows and an all-zero arena of 4096 * 72 bytes |
| `Store.Table.Insert` | src/table.rs:36-43 | given len < 4096: returns Ok, increments len by exactly one, appends the row to the stored rows, and changes the arena in slot len only, where it writes the row's encoding |
| `Store.Table.Select` | src/table.rs:45-61 | returns Ok with exactly len rows, the stored rows in insertion order, where row i is the decoding of slot i; the InternalError branch is unreachable |
| `Store.Execute` | src/table.rs:116-149 | a parse error is reported and leaves the table unchanged; a parsed insert grows len by one, appends its row and reports "OK"; a parsed select reports the stored rows and leaves the table unchanged |
| `Session.InsertLineParses` | src/table.rs:80-102 | `insert`, the shortest decimal spelling of an id and two fitting names, joined by spaces, parse to the row with that id and the padded names |
| `Session.TwoInsertsThenSelect` | src/table.rs:116-149 | on a fresh table: two inserts report "OK"; `select <arg>` and an insert with a non-numeric id report SyntaxError; a final select lists the two rows in insertion order; len is 2 |

## Left out

- src/main.rs: the stdin loop, the trimming of the input line and the
  dispatch of lines starting with `.` are console I/O. Only the initial
  table, with len 0 and a zeroed arena, is modelled, as
  `Table.constructor`.
- src/meta.rs: `.quit` and `.help` only print or exit the process.
- Printing in `execute`: the model returns a `Report` value instead of
  printing. `String::from_utf8_lossy` is not modelled. The model keeps
  the raw 32-byte fields, padding zeros included, which is what gets
  printed.
- The `println!("{:?}", e)` on the deserialize error path is output only.
  The path itself is modelled and proved unreachable.
- bincode and serde are not modelled as libraries. The model states the
  72-byte layout they produce for this row directly.
- Rows.DecodeRow: refuses any input that is not exactly 72 bytes. It does
  not model how bincode treats trailing bytes, because the code only ever
  passes 72-byte slots.
- Table.Insert: requires `len < 4096`. The code panics on a full table
  and has no error for it.
- Parser.Parse: requires `FieldsFit`. The code panics when a name's bytes
  exceed 32, and the model does not model the panic.
- Text.ParseU64: models `u64::from_str` as an optional `+`, then ASCII
  digits, then a 64-bit range check. Its error kinds (empty, invalid
  digit, overflow) are merged into one failure, as the parser discards
  them.
- Single-threaded by construction. No concurrency is modelled.
