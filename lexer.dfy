/** The hand-written scanner of custom_interpreter/src/lexer.rs.

    The input is modelled as a sequence of ASCII characters, so that the
    byte offset `pos` of the Rust code is an index into that sequence and
    every `advance` is a step of one. `Scan` is the specification of one
    call of `next_token`; the class `Lexer` is the imperative cursor walk
    and is proved to agree with it. */
module Lexer {

  const I64_MIN: int := -0x8000_0000_0000_0000
  const I64_MAX: int := 0x7FFF_FFFF_FFFF_FFFF

  predicate IsI64(v: int) { I64_MIN <= v <= I64_MAX }

  datatype Token =
    | Assume
    | Eq
    | Add
    | Sub
    | Mul
    | Div
    | Number(value: int)
    | Identifier(name: string)
    | EndOfFile
    | Invalid
  {
    /** The two tokens after which the scanner makes no more progress. */
    predicate IsFinal() { EndOfFile? || Invalid? }
  }

  /** A number token whose value the Rust `i64` parse accepts (it panics
      through `unwrap` otherwise). */
  predicate Fits(t: Token) { t.Number? ==> IsI64(t.value) }

  // ---------------------------------------------------------------------
  // Character classes (the ASCII part of Rust's `char` predicates)

  predicate IsAscii(s: string) { forall i :: 0 <= i < |s| ==> s[i] as int < 128 }

  /** `char::is_whitespace` on ASCII: space and U+0009 to U+000D. */
  predicate IsWhitespace(c: char) { c == ' ' || '\t' <= c <= '\r' }

  predicate IsDigit(c: char) { '0' <= c <= '9' }

  /** The `'a'..='z' | 'A'..='Z'` arm that starts an identifier. */
  predicate IsLetter(c: char) { 'a' <= c <= 'z' || 'A' <= c <= 'Z' }

  /** `is_alphanumeric() || c == '_'`, which continues an identifier. */
  predicate IsWordChar(c: char) { IsLetter(c) || IsDigit(c) || c == '_' }

  datatype CharClass = Whitespace | Digit | Word

  predicate InClass(cls: CharClass, c: char) {
    match cls
    case Whitespace => IsWhitespace(c)
    case Digit => IsDigit(c)
    case Word => IsWordChar(c)
  }

  /** The end of the maximal run of `cls` characters that starts at `p`. */
  function RunEnd(s: string, p: nat, cls: CharClass): (e: nat)
    requires p <= |s|
    ensures p <= e <= |s|
    ensures forall k :: p <= k < e ==> InClass(cls, s[k])
    ensures e == |s| || !InClass(cls, s[e])
    decreases |s| - p
  {
    if p < |s| && InClass(cls, s[p]) then RunEnd(s, p + 1, cls) else p
  }

  /** The run's end is determined by the two facts the contract of `RunEnd`
      states: `e` is the maximal run end exactly when the characters before
      it are in the class and the one at it (if any) is not. */
  lemma {:induction false} RunEndIsMaximalRun(s: string, p: nat, e: nat, cls: CharClass)
    requires p <= e <= |s|
    requires forall k :: p <= k < e ==> InClass(cls, s[k])
    requires e == |s| || !InClass(cls, s[e])
    ensures RunEnd(s, p, cls) == e
    decreases e - p
  {
    if p < e {
      RunEndIsMaximalRun(s, p + 1, e, cls);
    }
  }

  /** `input[p..].starts_with(w)`. */
  predicate HasPrefixAt(s: string, p: nat, w: string) {
    p + |w| <= |s| && s[p..p + |w|] == w
  }

  // ---------------------------------------------------------------------
  // Decimal literals

  predicate AllDigits(ds: string) { forall i :: 0 <= i < |ds| ==> IsDigit(ds[i]) }

  function DigitValue(c: char): (d: nat)
    requires IsDigit(c)
    ensures d < 10
  {
    c as int - '0' as int
  }

  /** The value `str::parse` gives a string of decimal digits. */
  function DecimalValue(ds: string): nat
    requires AllDigits(ds)
  {
    if ds == [] then 0
    else DecimalValue(ds[..|ds| - 1]) * 10 + DigitValue(ds[|ds| - 1])
  }

  function DigitChar(d: nat): (c: char)
    requires d < 10
    ensures IsDigit(c) && DigitValue(c) == d
  {
    ('0' as int + d) as char
  }

  /** The decimal rendering of `n`, as Rust formats an integer; the partner
      of `DecimalValue`. */
  function Decimal(n: nat): (ds: string)
    ensures |ds| > 0 && AllDigits(ds)
  {
    if n < 10 then [DigitChar(n)] else Decimal(n / 10) + [DigitChar(n % 10)]
  }

  lemma {:induction false} DecimalRoundTrip(n: nat)
    ensures DecimalValue(Decimal(n)) == n
  {
    var ds := Decimal(n);
    if n >= 10 {
      DecimalRoundTrip(n / 10);
      assert ds[..|ds| - 1] == Decimal(n / 10);
    }
  }

  // ---------------------------------------------------------------------
  // The specification of one `next_token` call

  /** The token `next_token` returns when the cursor is at `p`, and the
      cursor afterwards. */
  function Scan(s: string, p: nat): (r: (Token, nat))
    requires p <= |s|
    ensures p <= r.1 <= |s|
    ensures !r.0.IsFinal() ==> p < r.1
  {
    var q := RunEnd(s, p, Whitespace);
    if q == |s| then (EndOfFile, q)
    else
      var c := s[q];
      if c == 'a' then
        if HasPrefixAt(s, q, "assume") then (Assume, q + 6) else (Invalid, q)
      else if c == 'e' then
        if HasPrefixAt(s, q, "eq") then (Eq, q + 2) else (Invalid, q)
      else if c == '+' then (Add, q + 1)
      else if c == '-' then (Sub, q + 1)
      else if c == '*' then (Mul, q + 1)
      else if c == '/' then (Div, q + 1)
      else if IsDigit(c) then
        var e := RunEnd(s, q, Digit);
        (Number(DecimalValue(s[q..e])), e)
      else if IsLetter(c) then
        var e := RunEnd(s, q, Word);
        (Identifier(s[q..e]), e)
      else (Invalid, q)
  }

  /** The tokens successive `next_token` calls return from `p`, up to and
      including the first `EndOfFile` or `Invalid`. */
  function Tokens(s: string, p: nat): (ts: seq<Token>)
    requires p <= |s|
    ensures forall k :: 0 <= k < |ts| ==> (ts[k].IsFinal() <==> k == |ts| - 1)
    decreases |s| - p
  {
    var (t, q) := Scan(s, p);
    if t.IsFinal() then [t] else [t] + Tokens(s, q)
  }

  // ---------------------------------------------------------------------
  // Properties of the scanner

  /** `next_token` returns `EndOfFile` exactly when only whitespace is left,
      and then the cursor is at the end of the input. */
  lemma EndOfFileIffOnlyWhitespace(s: string, p: nat)
    requires p <= |s|
    ensures Scan(s, p).0 == EndOfFile <==> forall k :: p <= k < |s| ==> IsWhitespace(s[k])
    ensures Scan(s, p).0 == EndOfFile ==> Scan(s, p).1 == |s|
  {
    var q := RunEnd(s, p, Whitespace);
    if q < |s| {
      assert !IsWhitespace(s[q]);
    }
  }

  /** Once `EndOfFile` is returned, every further call returns it again and
      the cursor stays at the end. */
  lemma EndOfFileIsSticky(s: string, p: nat)
    requires p <= |s| && Scan(s, p).0 == EndOfFile
    ensures Scan(s, Scan(s, p).1) == (EndOfFile, |s|)
  {
    EndOfFileIffOnlyWhitespace(s, p);
  }

  /** The four operator characters each give their token and consume exactly
      that character. */
  lemma ScanOperator(s: string, p: nat)
    requires p <= |s|
    requires var q := RunEnd(s, p, Whitespace); q < |s| && s[q] in "+-*/"
    ensures var q := RunEnd(s, p, Whitespace);
      Scan(s, p) == (match s[q] case '+' => Add case '-' => Sub case '*' => Mul case _ => Div, q + 1)
  {
  }

  /** On a digit the scanner consumes the maximal digit run and returns its
      decimal value. */
  lemma ScanNumber(s: string, p: nat)
    requires p <= |s|
    requires var q := RunEnd(s, p, Whitespace); q < |s| && IsDigit(s[q])
    ensures var q := RunEnd(s, p, Whitespace); var (t, e) := Scan(s, p);
      && q < e && AllDigits(s[q..e]) && (e == |s| || !IsDigit(s[e]))
      && t == Number(DecimalValue(s[q..e]))
  {
  }

  /** A whole input of digits is one number token followed by the end. */
  lemma ScanDigitString(ds: string)
    requires |ds| > 0 && AllDigits(ds)
    ensures Tokens(ds, 0) == [Number(DecimalValue(ds)), EndOfFile]
  {
    assert !IsWhitespace(ds[0]);
    assert RunEnd(ds, 0, Whitespace) == 0;
    var e := RunEnd(ds, 0, Digit);
    assert e == |ds|;
    assert ds[0..e] == ds;
    assert Scan(ds, 0) == (Number(DecimalValue(ds)), |ds|);
    assert Tokens(ds, |ds|) == [EndOfFile];
  }

  /** Scanning the rendering of any natural number gives that number back. */
  lemma ScanDecimal(n: nat)
    ensures Tokens(Decimal(n), 0) == [Number(n), EndOfFile]
  {
    ScanDigitString(Decimal(n));
    DecimalRoundTrip(n);
  }

  /** Keywords are matched as a prefix, with no word-boundary check. */
  lemma ScanKeyword(s: string, p: nat)
    requires p <= |s|
    ensures var q := RunEnd(s, p, Whitespace);
      HasPrefixAt(s, q, "assume") ==> Scan(s, p) == (Assume, q + 6)
    ensures var q := RunEnd(s, p, Whitespace);
      HasPrefixAt(s, q, "eq") ==> Scan(s, p) == (Eq, q + 2)
  {
    var q := RunEnd(s, p, Whitespace);
    if HasPrefixAt(s, q, "assume") { assert s[q] == s[q..q + 6][0]; }
    if HasPrefixAt(s, q, "eq") { assert s[q] == s[q..q + 2][0]; }
  }

  /** The token is `Invalid` exactly for an `a` that does not start `assume`,
      an `e` that does not start `eq`, or a character no arm lists; the cursor
      then stops after the whitespace, and the next call returns `Invalid`
      again from the same place. */
  lemma ScanInvalid(s: string, p: nat)
    requires p <= |s|
    ensures var q := RunEnd(s, p, Whitespace);
      Scan(s, p).0 == Invalid <==>
        q < |s| &&
        ((s[q] == 'a' && !HasPrefixAt(s, q, "assume")) ||
         (s[q] == 'e' && !HasPrefixAt(s, q, "eq")) ||
         (s[q] !in "+-*/" && !IsDigit(s[q]) && !IsLetter(s[q])))
    ensures Scan(s, p).0 == Invalid ==>
      var q := Scan(s, p).1; q == RunEnd(s, p, Whitespace) && Scan(s, q) == (Invalid, q)
  {
    var q := RunEnd(s, p, Whitespace);
    if q < |s| {
      assert RunEnd(s, q, Whitespace) == q;
    }
  }

  /** A letter other than `a` and `e` starts an identifier, which is the
      maximal run of letters, digits and underscores. */
  lemma ScanIdentifier(s: string, p: nat)
    requires p <= |s|
    requires var q := RunEnd(s, p, Whitespace); q < |s| && IsLetter(s[q]) && s[q] != 'a' && s[q] != 'e'
    ensures var q := RunEnd(s, p, Whitespace); var (t, e) := Scan(s, p);
      && q < e && (forall k :: q <= k < e ==> IsWordChar(s[k])) && (e == |s| || !IsWordChar(s[e]))
      && t == Identifier(s[q..e])
  {
    var q := RunEnd(s, p, Whitespace);
    assert InClass(Word, s[q]);
  }

  // ---------------------------------------------------------------------
  // The cursor

  class Lexer {
    const input: string
    var pos: nat

    ghost predicate Valid()
      reads this
    {
      pos <= |input| && IsAscii(input)
    }

    constructor (input: string)
      requires IsAscii(input)
      ensures Valid() && this.input == input && pos == 0
    {
      this.input := input;
      pos := 0;
    }

    /** One call of `next_token`; it panics only on a literal too large for
        `i64`, which the precondition excludes. */
    method NextToken() returns (t: Token)
      requires Valid() && Fits(Scan(input, pos).0)
      modifies this
      ensures Valid()
      ensures (t, pos) == Scan(input, old(pos))
    {
      SkipWhitespace();
      if pos >= |input| {
        return EndOfFile;
      }
      var c := CurrentChar();
      if c == 'a' {
        var ok := Matches("assume");
        t := if ok then Assume else Invalid;
      } else if c == 'e' {
        var ok := Matches("eq");
        t := if ok then Eq else Invalid;
      } else if c == '+' {
        Advance();
        t := Add;
      } else if c == '-' {
        Advance();
        t := Sub;
      } else if c == '*' {
        Advance();
        t := Mul;
      } else if c == '/' {
        Advance();
        t := Div;
      } else if IsDigit(c) {
        t := Number();
      } else if IsLetter(c) {
        t := Identifier();
      } else {
        t := Invalid;
      }
    }

    /** Moves the cursor past the whitespace at it; it never moves back and
        stops at the end or at a character that is not whitespace. */
    method SkipWhitespace()
      requires Valid()
      modifies this
      ensures Valid()
      ensures pos == RunEnd(input, old(pos), Whitespace)
    {
      while pos < |input| && IsWhitespace(CurrentChar())
        invariant Valid() && old(pos) <= pos
        invariant RunEnd(input, pos, Whitespace) == RunEnd(input, old(pos), Whitespace)
        decreases |input| - pos
      {
        Advance();
      }
    }

    function CurrentChar(): (c: char)
      reads this
      requires Valid() && pos < |input|
      ensures c == input[pos] && c as int < 128
    {
      input[pos]
    }

    method Advance()
      requires Valid() && pos < |input|
      modifies this
      ensures Valid() && pos == old(pos) + 1
    {
      pos := pos + 1;
    }

    /** Consumes `keyword` if the rest of the input starts with it. */
    method Matches(keyword: string) returns (matched: bool)
      requires Valid()
      modifies this
      ensures Valid()
      ensures matched == HasPrefixAt(input, old(pos), keyword)
      ensures pos == if matched then old(pos) + |keyword| else old(pos)
    {
      matched := HasPrefixAt(input, pos, keyword);
      if matched {
        pos := pos + |keyword|;
      }
    }

    method Number() returns (t: Token)
      requires Valid() && pos < |input| && IsDigit(input[pos])
      requires IsI64(DecimalValue(input[pos..RunEnd(input, pos, Digit)]))
      modifies this
      ensures Valid()
      ensures pos == RunEnd(input, old(pos), Digit)
      ensures t == Token.Number(DecimalValue(input[old(pos)..pos]))
    {
      var start := pos;
      while pos < |input| && IsDigit(CurrentChar())
        invariant Valid() && start <= pos
        invariant RunEnd(input, pos, Digit) == RunEnd(input, start, Digit)
        decreases |input| - pos
      {
        Advance();
      }
      t := Token.Number(DecimalValue(input[start..pos]));
    }

    method Identifier() returns (t: Token)
      requires Valid() && pos < |input|
      modifies this
      ensures Valid()
      ensures pos == RunEnd(input, old(pos), Word)
      ensures t == Token.Identifier(input[old(pos)..pos])
    {
      var start := pos;
      while pos < |input| && IsWordChar(CurrentChar())
        invariant Valid() && start <= pos
        invariant RunEnd(input, pos, Word) == RunEnd(input, start, Word)
        decreases |input| - pos
      {
        Advance();
      }
      t := Token.Identifier(input[start..pos]);
    }
  }
}
