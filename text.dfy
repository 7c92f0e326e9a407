/**
 * The text operations the command parser relies on: Rust's notion of a
 * whitespace character, trimming, splitting on runs of whitespace, reading
 * an unsigned 64-bit decimal, and the UTF-8 bytes of a string.
 */
module Text {
  import opened Rows

  /** The Unicode White_Space property, as Rust's `char::is_whitespace`. */
  predicate IsWhitespace(c: char) {
    var n := c as int;
    || 0x09 <= n <= 0x0D
    || n == 0x20
    || n == 0x85
    || n == 0xA0
    || n == 0x1680
    || 0x2000 <= n <= 0x200A
    || n == 0x2028
    || n == 0x2029
    || n == 0x202F
    || n == 0x205F
    || n == 0x3000
  }

  predicate AllWhitespace(s: string) {
    forall i :: 0 <= i < |s| ==> IsWhitespace(s[i])
  }

  predicate NoWhitespace(s: string) {
    forall i :: 0 <= i < |s| ==> !IsWhitespace(s[i])
  }

  // ---------------------------------------------------------------------
  // Trimming
  // ---------------------------------------------------------------------

  /** Drops the leading whitespace. */
  function TrimStart(s: string): (r: string)
    ensures |r| <= |s|
    ensures r == [] || !IsWhitespace(r[0])
  {
    if s != [] && IsWhitespace(s[0]) then TrimStart(s[1..]) else s
  }

  /** Drops the trailing whitespace. */
  function TrimEnd(s: string): (r: string)
    ensures |r| <= |s|
    ensures r == [] || !IsWhitespace(r[|r| - 1])
  {
    if s != [] && IsWhitespace(s[|s| - 1]) then TrimEnd(s[..|s| - 1]) else s
  }

  /** Rust's `str::trim`: both ends. */
  function Trim(s: string): (r: string)
    ensures |r| <= |s|
    ensures r == [] || (!IsWhitespace(r[0]) && !IsWhitespace(r[|r| - 1]))
  {
    var t := TrimStart(s);
    TrimEndDropsWhitespace(t);
    TrimEnd(t)
  }

  /** TrimStart removes a prefix made of whitespace only. */
  lemma {:induction false} TrimStartDropsWhitespace(s: string)
    ensures var r := TrimStart(s);
            s[..|s| - |r|] + r == s && AllWhitespace(s[..|s| - |r|])
  {
    if s != [] && IsWhitespace(s[0]) {
      TrimStartDropsWhitespace(s[1..]);
      var r := TrimStart(s);
      var k := |s| - |r|;
      assert s[1..][..k - 1] == s[1..k];
      assert s[..k] == [s[0]] + s[1..k];
    } else {
      assert s[..0] == [];
    }
  }

  /** TrimEnd removes a suffix made of whitespace only. */
  lemma {:induction false} TrimEndDropsWhitespace(s: string)
    ensures var r := TrimEnd(s);
            r + s[|r|..] == s && AllWhitespace(s[|r|..])
  {
    if s != [] && IsWhitespace(s[|s| - 1]) {
      var p := s[..|s| - 1];
      TrimEndDropsWhitespace(p);
      var r := TrimEnd(p);
      assert TrimEnd(s) == r;
      var tail := s[|r|..];
      assert r + p[|r|..] == p;
      assert tail == p[|r|..] + [s[|s| - 1]];
      assert r + tail == p + [s[|s| - 1]];
      assert p + [s[|s| - 1]] == s;
      forall i | 0 <= i < |tail|
        ensures IsWhitespace(tail[i])
      {
        if i < |tail| - 1 {
          assert tail[i] == p[|r|..][i];
        }
      }
    } else {
      assert s[|s|..] == [];
    }
  }

  /** Whitespace in front of a string does not survive TrimStart. */
  lemma {:induction false} TrimStartAfterSpace(sep: string, rest: string)
    requires AllWhitespace(sep)
    ensures TrimStart(sep + rest) == TrimStart(rest)
  {
    if sep == [] {
      assert sep + rest == rest;
    } else {
      assert (sep + rest)[0] == sep[0];
      assert (sep + rest)[1..] == sep[1..] + rest;
      TrimStartAfterSpace(sep[1..], rest);
    }
  }

  // ---------------------------------------------------------------------
  // Splitting on whitespace
  // ---------------------------------------------------------------------

  /** The longest prefix of `s` that holds no whitespace. */
  function Word(s: string): (w: string)
    ensures |w| <= |s|
    ensures s != [] && !IsWhitespace(s[0]) ==> w != []
  {
    if s == [] || IsWhitespace(s[0]) then [] else [s[0]] + Word(s[1..])
  }

  /**
   * Rust's `str::split_whitespace`: the maximal non-empty runs of
   * non-whitespace characters, in order.
   */
  function SplitWhitespace(s: string): seq<string>
    decreases |s|
  {
    var t := TrimStart(s);
    if t == [] then []
    else
      var w := Word(t);
      [w] + SplitWhitespace(t[|w|..])
  }

  /** Joins tokens with one space between neighbours. */
  function Unwords(tokens: seq<string>): string {
    if |tokens| == 0 then []
    else if |tokens| == 1 then tokens[0]
    else tokens[0] + " " + Unwords(tokens[1..])
  }

  predicate IsToken(w: string) {
    w != [] && NoWhitespace(w)
  }

  /** A word is a whitespace-free prefix ending where the whitespace starts. */
  lemma {:induction false} WordIsMaximalRun(s: string)
    ensures var w := Word(s);
            w == s[..|w|] && NoWhitespace(w) && (|w| < |s| ==> IsWhitespace(s[|w|]))
  {
    if s != [] && !IsWhitespace(s[0]) {
      WordIsMaximalRun(s[1..]);
    }
  }

  /** Every token of a split is non-empty and free of whitespace. */
  lemma {:induction false} SplitYieldsTokens(s: string)
    ensures forall i :: 0 <= i < |SplitWhitespace(s)| ==> IsToken(SplitWhitespace(s)[i])
    decreases |s|
  {
    var t := TrimStart(s);
    if t != [] {
      var w := Word(t);
      WordIsMaximalRun(t);
      SplitYieldsTokens(t[|w|..]);
    }
  }

  /** A line splits into no tokens exactly when it is all whitespace. */
  lemma SplitEmptyIffBlank(s: string)
    ensures SplitWhitespace(s) == [] <==> AllWhitespace(s)
  {
    var t := TrimStart(s);
    TrimStartDropsWhitespace(s);
    var lead := s[..|s| - |t|];
    if t != [] {
      assert s[|lead|] == t[0];
    } else {
      assert s == lead;
    }
  }

  /** A token is one word, whatever whitespace follows it. */
  lemma {:induction false} WordOfTokenThenRest(w: string, rest: string)
    requires IsToken(w)
    requires rest == [] || IsWhitespace(rest[0])
    ensures Word(w + rest) == w
  {
    assert (w + rest)[0] == w[0];
    assert (w + rest)[1..] == w[1..] + rest;
    if |w| == 1 {
      assert w[1..] + rest == rest;
      assert [w[0]] == w;
    } else {
      WordOfTokenThenRest(w[1..], rest);
      assert [w[0]] + w[1..] == w;
    }
  }

  /** Whitespace in front of a line does not change its tokens. */
  lemma LeadingSpaceIgnored(sep: string, rest: string)
    requires AllWhitespace(sep)
    ensures SplitWhitespace(sep + rest) == SplitWhitespace(rest)
  {
    TrimStartAfterSpace(sep, rest);
  }

  /** A token, then whitespace, then anything: the token splits off first. */
  lemma SplitConsToken(w: string, sep: string, rest: string)
    requires IsToken(w)
    requires sep != [] && AllWhitespace(sep)
    ensures SplitWhitespace(w + sep + rest) == [w] + SplitWhitespace(rest)
  {
    var s := w + sep + rest;
    assert s[0] == w[0];
    assert TrimStart(s) == s;
    assert s == w + (sep + rest);
    assert (sep + rest)[0] == sep[0];
    WordOfTokenThenRest(w, sep + rest);
    assert s[|w|..] == sep + rest;
    LeadingSpaceIgnored(sep, rest);
  }

  /** Splitting undoes joining, for tokens a split can produce. */
  lemma {:induction false} SplitUnwords(tokens: seq<string>)
    requires forall i :: 0 <= i < |tokens| ==> IsToken(tokens[i])
    ensures SplitWhitespace(Unwords(tokens)) == tokens
  {
    if |tokens| == 1 {
      var w := tokens[0];
      assert w + [] == w;
      WordOfTokenThenRest(w, []);
      assert w[|w|..] == [];
      assert SplitWhitespace(w) == [w] + SplitWhitespace([]);
    } else if |tokens| > 1 {
      SplitUnwords(tokens[1..]);
      SplitConsToken(tokens[0], " ", Unwords(tokens[1..]));
      assert [tokens[0]] + tokens[1..] == tokens;
    }
  }

  /** Whitespace after a word leaves the word unchanged. */
  lemma {:induction false} WordBeforeSpace(t: string, sep: string)
    requires AllWhitespace(sep)
    ensures Word(t + sep) == Word(t)
  {
    if t == [] {
      assert t + sep == sep;
    } else {
      assert (t + sep)[0] == t[0];
      assert (t + sep)[1..] == t[1..] + sep;
      if !IsWhitespace(t[0]) {
        WordBeforeSpace(t[1..], sep);
      }
    }
  }

  /** Whitespace at the end of a line does not change its tokens. */
  lemma {:induction false} TrailingSpaceIgnored(s: string, sep: string)
    requires AllWhitespace(sep)
    ensures SplitWhitespace(s + sep) == SplitWhitespace(s)
    decreases |s|
  {
    var t := TrimStart(s);
    TrimStartDropsWhitespace(s);
    var lead := s[..|s| - |t|];
    assert s + sep == lead + (t + sep);
    LeadingSpaceIgnored(lead, t + sep);
    LeadingSpaceIgnored(lead, t);
    if t == [] {
      assert t + sep == sep + [];
      LeadingSpaceIgnored(sep, []);
    } else {
      TrailingSpaceOfRun(t, sep);
    }
  }

  /** The step of TrailingSpaceIgnored for a line that starts with a token. */
  lemma {:induction false} TrailingSpaceOfRun(t: string, sep: string)
    requires AllWhitespace(sep)
    requires t != [] && !IsWhitespace(t[0])
    ensures SplitWhitespace(t + sep) == SplitWhitespace(t)
    decreases |t|, 0
  {
    var w := Word(t);
    var tail := t[|w|..];
    assert (t + sep)[0] == t[0];
    assert TrimStart(t + sep) == t + sep;
    WordBeforeSpace(t, sep);
    assert (t + sep)[|w|..] == tail + sep;
    TrailingSpaceIgnored(tail, sep);
  }

  /** Trimming first does not change the tokens of a line. */
  lemma SplitTrim(s: string)
    ensures SplitWhitespace(Trim(s)) == SplitWhitespace(s)
  {
    var t := TrimStart(s);
    TrimStartDropsWhitespace(s);
    LeadingSpaceIgnored(s[..|s| - |t|], t);
    var r := TrimEnd(t);
    TrimEndDropsWhitespace(t);
    TrailingSpaceIgnored(r, t[|r|..]);
  }

  // ---------------------------------------------------------------------
  // Unsigned decimal numbers
  // ---------------------------------------------------------------------

  predicate IsDigit(c: char) {
    '0' <= c <= '9'
  }

  predicate AllDigits(s: string) {
    forall i :: 0 <= i < |s| ==> IsDigit(s[i])
  }

  /** The value of a string of decimal digits, most significant first. */
  function DigitsValue(s: string): nat
    requires AllDigits(s)
  {
    if s == [] then 0
    else DigitsValue(s[..|s| - 1]) * 10 + (s[|s| - 1] as int - '0' as int)
  }

  /**
   * Rust's `u64::from_str`: an optional `+`, then at least one ASCII digit,
   * whose value must fit in 64 bits.
   */
  function ParseU64(s: string): (r: Option<u64>)
    ensures r.Some? ==> exists digits :: AllDigits(digits) && digits != [] &&
                                         (s == digits || s == "+" + digits) &&
                                         DigitsValue(digits) == r.value
  {
    if s == [] then None
    else
      var digits := if s[0] == '+' then s[1..] else s;
      assert s == digits || s == "+" + digits;
      if digits == [] || !AllDigits(digits) then None
      else if DigitsValue(digits) < U64_BOUND then Some(DigitsValue(digits))
      else None
  }

  /** A string `u64::from_str` accepts is a single token: a sign and digits only. */
  lemma ParsedIdIsToken(s: string)
    requires ParseU64(s).Some?
    ensures IsToken(s)
  {
    var digits :| AllDigits(digits) && digits != [] && (s == digits || s == "+" + digits);
    forall i | 0 <= i < |s|
      ensures !IsWhitespace(s[i])
    {
      if s != digits {
        assert s[i] == '+' || s[i] == digits[i - 1];
      }
    }
  }

  /** The shortest decimal spelling of `n`. */
  function DecimalString(n: nat): (s: string)
    ensures s != [] && AllDigits(s)
  {
    if n < 10 then ['0' + n as char]
    else DecimalString(n / 10) + ['0' + (n % 10) as char]
  }

  lemma {:induction false} DigitsValueOfDecimalString(n: nat)
    ensures DigitsValue(DecimalString(n)) == n
  {
    if n >= 10 {
      var s := DecimalString(n);
      DigitsValueOfDecimalString(n / 10);
      assert s[..|s| - 1] == DecimalString(n / 10);
    }
  }

  /** Every u64 is read back from its decimal spelling, signed or not. */
  lemma ParseDecimalString(n: u64)
    ensures ParseU64(DecimalString(n)) == Some(n)
    ensures ParseU64("+" + DecimalString(n)) == Some(n)
  {
    DigitsValueOfDecimalString(n);
    var s := DecimalString(n);
    assert IsDigit(s[0]);
    assert ("+" + s)[1..] == s;
  }

  /** A value of 2^64 or more is refused. */
  lemma ParseU64Overflow(n: nat)
    requires n >= U64_BOUND
    ensures ParseU64(DecimalString(n)) == None
  {
    DigitsValueOfDecimalString(n);
    assert IsDigit(DecimalString(n)[0]);
  }

  // ---------------------------------------------------------------------
  // UTF-8
  // ---------------------------------------------------------------------

  /** The UTF-8 encoding of one scalar value (RFC 3629, section 3). */
  function Utf8Char(c: char): (b: seq<byte>)
    ensures 1 <= |b| <= 4
    ensures |b| == 1 <==> c as int < 0x80
  {
    var n := c as int;
    if n < 0x80 then [n]
    else if n < 0x800 then [0xC0 + n / 64, 0x80 + n % 64]
    else if n < 0x10000 then [0xE0 + n / 4096, 0x80 + (n / 64) % 64, 0x80 + n % 64]
    else [0xF0 + n / 0x40000, 0x80 + (n / 4096) % 64, 0x80 + (n / 64) % 64, 0x80 + n % 64]
  }

  /** The scalar value a well-formed UTF-8 sequence of 1 to 4 bytes denotes. */
  function Utf8Value(b: seq<byte>): int
    requires 1 <= |b| <= 4
  {
    var b0: int := b[0];
    if |b| == 1 then b0
    else
      var b1: int := b[1];
      if |b| == 2 then (b0 - 0xC0) * 64 + (b1 - 0x80)
      else
        var b2: int := b[2];
        if |b| == 3 then (b0 - 0xE0) * 4096 + (b1 - 0x80) * 64 + (b2 - 0x80)
        else
          var b3: int := b[3];
          (b0 - 0xF0) * 0x40000 + (b1 - 0x80) * 4096 + (b2 - 0x80) * 64 + (b3 - 0x80)
  }

  /** Decoding the bytes of a character gives back that character. */
  lemma Utf8CharRoundTrip(c: char)
    ensures Utf8Value(Utf8Char(c)) == c as int
  {
    var n := c as int;
    assert n == (n / 64) * 64 + n % 64;
    assert n / 64 == (n / 4096) * 64 + (n / 64) % 64;
    assert n / 4096 == (n / 0x40000) * 64 + (n / 4096) % 64;
  }

  /** The bytes of a string, as Rust's `String::into_bytes`. */
  function Utf8(s: string): (b: seq<byte>)
    ensures |s| <= |b| <= 4 * |s|
  {
    if s == [] then [] else Utf8Char(s[0]) + Utf8(s[1..])
  }

  predicate IsAscii(s: string) {
    forall i :: 0 <= i < |s| ==> s[i] as int < 0x80
  }

  /** An ASCII string is stored as its own character codes. */
  lemma {:induction false} Utf8Ascii(s: string)
    requires IsAscii(s)
    ensures |Utf8(s)| == |s|
    ensures forall i :: 0 <= i < |s| ==> Utf8(s)[i] == s[i] as int
  {
    if s != [] {
      Utf8Ascii(s[1..]);
    }
  }
}
