/**
 * The statement tokenizer of the formula builder.
 *
 * A formula statement is a string such as `${price} * (1 + 8)`. A
 * `StatementParser` holds the text and a cursor, `currentPointer`; each
 * `GetToken` skips whitespace and reads one token: a number (a run of digits,
 * whitespace between them skipped), a variable `${name}`, one of the
 * operators `+ - * /` or a parenthesis; `Parse` reads tokens until the end.
 * The pure functions `ReadChar`, `ScanToken` and `Tokenize` state what the
 * methods compute.
 */
module FormulaBuilder {
  import opened Wrappers

  /** `TokenType` together with the payload a `Token` carries: a variable's name, a number's value. */
  datatype Token =
    | VarName(name: string)
    | Plus
    | Minus
    | Multi
    | Divi
    | Number(value: nat)
    | Lparen
    | Rparen
    | EOS

  datatype Statement = Statement(tokens: seq<Token>)

  /** The two `Error`s `getToken` throws. */
  datatype ParseError = FailedToParseVariable | UnsupportedOperator(found: char)

  /** How a call of the tokenizer ends: with a value, with a thrown `Error`, or never. */
  datatype Outcome<T> = Returns(value: T) | Throws(error: ParseError) | Diverges

  /** The characters the regular expression `\s` matches. */
  predicate IsWhitespace(c: char)
  {
    c == ' ' || c == '\t' || c == '\n' || c == '\r' || c == '\U{B}' || c == '\U{C}' ||
    c == '\U{A0}' || c == '\U{1680}' || ('\U{2000}' <= c <= '\U{200A}') ||
    c == '\U{2028}' || c == '\U{2029}' || c == '\U{202F}' || c == '\U{205F}' ||
    c == '\U{3000}' || c == '\U{FEFF}'
  }

  /** `isNumber`: a character is present and is a decimal digit (`\d`). */
  predicate IsNumber(c: Option<char>)
  {
    c.Some? && '0' <= c.value <= '9'
  }

  /** `text[i]`: the character at `i`, or None (`undefined`) past the end. */
  function CharAt(text: string, i: nat): Option<char>
  {
    if i < |text| then Some(text[i]) else None
  }

  /** The first position at or after `i` that does not hold whitespace. */
  function SkipWhitespace(text: string, i: nat): (j: nat)
    ensures i <= j
    ensures i < |text| ==> j <= |text|
    ensures i >= |text| ==> j == i
    ensures j < |text| ==> !IsWhitespace(text[j])
    decreases |text| - i
  {
    if i < |text| && IsWhitespace(text[i]) then SkipWhitespace(text, i + 1) else i
  }

  /** Everything `SkipWhitespace` steps over is whitespace. */
  lemma {:induction false} SkippedAreWhitespace(text: string, i: nat)
    ensures forall k :: i <= k < SkipWhitespace(text, i) ==> k < |text| && IsWhitespace(text[k])
    decreases |text| - i
  {
    if i < |text| && IsWhitespace(text[i]) {
      SkippedAreWhitespace(text, i + 1);
      assert SkipWhitespace(text, i) == SkipWhitespace(text, i + 1);
    } else {
      assert SkipWhitespace(text, i) == i;
    }
  }

  /**
   * `getChar` from cursor `p`: the next character that is not whitespace,
   * or None past the end, and the cursor one past where it was looked for.
   */
  function ReadChar(text: string, p: nat): (r: (Option<char>, nat))
    ensures r.0.Some? ==> p < r.1 <= |text| && r.0.value == text[r.1 - 1] && !IsWhitespace(r.0.value)
    ensures r.0.None? ==> r.1 == (if p < |text| then |text| else p) + 1
  {
    var q := SkipWhitespace(text, p);
    (CharAt(text, q), q + 1)
  }

  /** `getChar` passes over whitespace only; when it finds nothing, all that is left is whitespace. */
  lemma ReadCharSkips(text: string, p: nat)
    ensures ReadChar(text, p).0.Some? ==>
              forall k :: p <= k < ReadChar(text, p).1 - 1 ==> IsWhitespace(text[k])
    ensures ReadChar(text, p).0.None? <==> forall k :: p <= k < |text| ==> IsWhitespace(text[k])
  {
    SkippedAreWhitespace(text, p);
  }

  /**
   * The digit loop of `getToken`, reading from cursor `q` with `acc` read so
   * far: the digits, and the cursor stepped back onto the first character
   * after them.
   */
  function DigitRun(text: string, q: nat, acc: string): (r: (string, nat))
    ensures |acc| <= |r.0| && r.0[..|acc|] == acc
    ensures forall k :: |acc| <= k < |r.0| ==> IsNumber(Some(r.0[k]))
    ensures q <= r.1 && (q <= |text| ==> r.1 <= |text|)
    ensures |acc| < |r.0| ==> q < r.1
    decreases |text| - q
  {
    var (c, q') := ReadChar(text, q);
    if IsNumber(c) then DigitRun(text, q', acc + [c.value]) else (acc, q' - 1)
  }

  /**
   * The name loop of `getToken`, reading from cursor `q` with `acc` read so
   * far: the name and the cursor after the closing `}`; None when there is no
   * `}` left, where the source loops for ever.
   */
  function NameRun(text: string, q: nat, acc: string): (r: Option<(string, nat)>)
    ensures r.Some? ==>
              q < r.value.1 <= |text| && text[r.value.1 - 1] == '}' &&
              |acc| <= |r.value.0| && r.value.0[..|acc|] == acc
    decreases |text| - q
  {
    var (c, q') := ReadChar(text, q);
    if c == Some('}') then Some((acc, q'))
    else if c.None? then None
    else NameRun(text, q', acc + [c.value])
  }

  /** The name loop finds no closing `}` exactly when none is left. */
  lemma {:induction false} NameRunNone(text: string, q: nat, acc: string)
    ensures NameRun(text, q, acc).None? <==> forall k :: q <= k < |text| ==> text[k] != '}'
    decreases |text| - q
  {
    var (c, q') := ReadChar(text, q);
    ReadCharSkips(text, q);
    if c.Some? && c.value != '}' {
      NameRunNone(text, q', acc + [c.value]);
    }
  }

  /** `s` with its whitespace left out. */
  function NonSpace(s: string): (r: string)
    ensures |r| <= |s|
    ensures forall c :: c in r ==> c in s && !IsWhitespace(c)
  {
    if s == [] then [] else (if IsWhitespace(s[0]) then [] else [s[0]]) + NonSpace(s[1..])
  }

  /** `NonSpace` of a slice, one character taken off its front. */
  lemma NonSpaceCons(text: string, q: nat, e: nat)
    requires q < e <= |text|
    ensures IsWhitespace(text[q]) ==> NonSpace(text[q..e]) == NonSpace(text[q + 1..e])
    ensures !IsWhitespace(text[q]) ==> NonSpace(text[q..e]) == [text[q]] + NonSpace(text[q + 1..e])
  {
    assert text[q..e][1..] == text[q + 1..e];
    assert [] + NonSpace(text[q + 1..e]) == NonSpace(text[q + 1..e]);
  }

  /** Whitespace at the cursor does not change what `getChar` returns. */
  lemma ReadSkipOne(text: string, q: nat)
    requires q < |text| && IsWhitespace(text[q])
    ensures ReadChar(text, q) == ReadChar(text, q + 1)
  {
  }

  /** Where the digit loop from `q` stops: the first position holding neither a digit nor whitespace, or the end. */
  function DigitEnd(text: string, q: nat): (e: nat)
    requires q <= |text|
    ensures q <= e <= |text|
    ensures e < |text| ==> !IsNumber(Some(text[e])) && !IsWhitespace(text[e])
    ensures forall k :: q <= k < e ==> IsNumber(Some(text[k])) || IsWhitespace(text[k])
    decreases |text| - q
  {
    if q < |text| && (IsNumber(Some(text[q])) || IsWhitespace(text[q])) then DigitEnd(text, q + 1) else q
  }

  /** The digits between `q` and `DigitEnd`, the whitespace among them dropped. */
  function DigitsAt(text: string, q: nat): (s: string)
    requires q <= |text|
    ensures forall k :: 0 <= k < |s| ==> IsNumber(Some(s[k]))
  {
    NonSpaceOfDigits(text, q, DigitEnd(text, q));
    NonSpace(text[q..DigitEnd(text, q)])
  }

  /** Between `q` and `DigitEnd` there are only digits and whitespace, so no other character survives `NonSpace`. */
  lemma NonSpaceOfDigits(text: string, q: nat, e: nat)
    requires q <= |text| && e == DigitEnd(text, q)
    ensures forall k :: 0 <= k < |NonSpace(text[q..e])| ==> IsNumber(Some(NonSpace(text[q..e])[k]))
  {
    var s := NonSpace(text[q..e]);
    forall k | 0 <= k < |s|
      ensures IsNumber(Some(s[k]))
    {
      assert s[k] in s;
      var j :| 0 <= j < e - q && text[q..e][j] == s[k];
      assert text[q + j] == s[k];
    }
  }

  /** Whitespace at `q` is passed over: the digits from `q` are those from `q + 1`. */
  lemma DigitsAtSpace(text: string, q: nat)
    requires q < |text| && IsWhitespace(text[q])
    ensures DigitEnd(text, q) == DigitEnd(text, q + 1) && DigitsAt(text, q) == DigitsAt(text, q + 1)
  {
    NonSpaceCons(text, q, DigitEnd(text, q));
  }

  /** A digit at `q` comes first among the digits from `q`. */
  lemma DigitsAtDigit(text: string, q: nat, acc: string)
    requires q < |text| && IsNumber(Some(text[q]))
    ensures DigitEnd(text, q) == DigitEnd(text, q + 1)
    ensures acc + DigitsAt(text, q) == acc + [text[q]] + DigitsAt(text, q + 1)
  {
    NonSpaceCons(text, q, DigitEnd(text, q));
    assert acc + [text[q]] + DigitsAt(text, q + 1) == acc + ([text[q]] + DigitsAt(text, q + 1));
  }

  /** The digit loop passes over whitespace at `q`. */
  lemma DigitRunSpace(text: string, q: nat, acc: string)
    requires q < |text| && IsWhitespace(text[q])
    ensures DigitRun(text, q, acc) == DigitRun(text, q + 1, acc)
  {
    ReadSkipOne(text, q);
  }

  /** The digit loop appends a digit at `q` and goes on after it. */
  lemma DigitRunDigit(text: string, q: nat, acc: string)
    requires q < |text| && IsNumber(Some(text[q]))
    ensures DigitRun(text, q, acc) == DigitRun(text, q + 1, acc + [text[q]])
  {
    ReadNonSpace(text, q);
    DigitRunStep(text, q, acc, text[q], q + 1);
  }

  /** At the end of the text, or at a character neither a digit nor whitespace, the digit loop stops where it is. */
  lemma DigitRunHalt(text: string, q: nat, acc: string)
    requires q <= |text| && !(q < |text| && (IsNumber(Some(text[q])) || IsWhitespace(text[q])))
    ensures DigitRun(text, q, acc) == (acc + DigitsAt(text, q), DigitEnd(text, q))
  {
    if q < |text| {
      ReadNonSpace(text, q);
    }
    DigitRunStop(text, q, acc);
    assert DigitEnd(text, q) == q;
    assert DigitsAt(text, q) == NonSpace(text[q..q]) == [];
    assert acc + DigitsAt(text, q) == acc;
  }

  /**
   * The digit loop from `q` reads exactly the digits up to `DigitEnd`,
   * passing over whitespace between them, and leaves the cursor on `DigitEnd`.
   */
  lemma {:induction false} DigitRunExact(text: string, q: nat, acc: string)
    requires q <= |text|
    ensures DigitRun(text, q, acc) == (acc + DigitsAt(text, q), DigitEnd(text, q))
    decreases |text| - q
  {
    if q < |text| && IsWhitespace(text[q]) {
      DigitRunSpace(text, q, acc);
      DigitRunExact(text, q + 1, acc);
      DigitsAtSpace(text, q);
    } else if q < |text| && IsNumber(Some(text[q])) {
      DigitRunDigit(text, q, acc);
      DigitRunExact(text, q + 1, acc + [text[q]]);
      DigitsAtDigit(text, q, acc);
    } else {
      DigitRunHalt(text, q, acc);
    }
  }

  /** Where the name loop from `q` stops: the first position holding a `}`, or the end. */
  function NameEnd(text: string, q: nat): (e: nat)
    requires q <= |text|
    ensures q <= e <= |text|
    ensures e < |text| ==> text[e] == '}'
    ensures forall k :: q <= k < e ==> text[k] != '}'
    decreases |text| - q
  {
    if q < |text| && text[q] != '}' then NameEnd(text, q + 1) else q
  }

  /** The name between `q` and `NameEnd`, its whitespace dropped. */
  function NameAt(text: string, q: nat): (s: string)
    requires q <= |text|
    ensures forall c :: c in s ==> c != '}' && !IsWhitespace(c)
  {
    NonSpace(text[q..NameEnd(text, q)])
  }

  /**
   * What the name loop from `q` yields, told without the loop: the name up to
   * the first `}` and the cursor just past that `}`, or None with no `}` left.
   */
  function NameRead(text: string, q: nat, acc: string): Option<(string, nat)>
    requires q <= |text|
  {
    if NameEnd(text, q) < |text| then Some((acc + NameAt(text, q), NameEnd(text, q) + 1)) else None
  }

  /** Whitespace at `q` is passed over: the name from `q` is the name from `q + 1`. */
  lemma NameReadSpace(text: string, q: nat, acc: string)
    requires q < |text| && IsWhitespace(text[q])
    ensures NameRead(text, q, acc) == NameRead(text, q + 1, acc)
  {
    NonSpaceCons(text, q, NameEnd(text, q));
    assert NameEnd(text, q) == NameEnd(text, q + 1);
    assert NameAt(text, q) == NameAt(text, q + 1);
  }

  /** A character at `q` that is neither whitespace nor `}` comes first in the name from `q`. */
  lemma NameReadChar(text: string, q: nat, acc: string)
    requires q < |text| && !IsWhitespace(text[q]) && text[q] != '}'
    ensures NameRead(text, q, acc) == NameRead(text, q + 1, acc + [text[q]])
  {
    NonSpaceCons(text, q, NameEnd(text, q));
    assert acc + [text[q]] + NameAt(text, q + 1) == acc + ([text[q]] + NameAt(text, q + 1));
  }

  /** The name loop passes over whitespace at `q`. */
  lemma NameRunSpace(text: string, q: nat, acc: string)
    requires q < |text| && IsWhitespace(text[q])
    ensures NameRun(text, q, acc) == NameRun(text, q + 1, acc)
  {
    ReadSkipOne(text, q);
  }

  /** The name loop appends a character other than whitespace and `}` and goes on after it. */
  lemma NameRunChar(text: string, q: nat, acc: string)
    requires q < |text| && !IsWhitespace(text[q]) && text[q] != '}'
    ensures NameRun(text, q, acc) == NameRun(text, q + 1, acc + [text[q]])
  {
    ReadNonSpace(text, q);
    NameRunStep(text, q, acc, text[q], q + 1);
  }

  /** At a `}` the name loop ends just past it; at the end of the text it never ends. */
  lemma NameRunHalt(text: string, q: nat, acc: string)
    requires q <= |text| && !(q < |text| && text[q] != '}')
    ensures NameRun(text, q, acc) == NameRead(text, q, acc)
  {
    assert NameEnd(text, q) == q;
    if q < |text| {
      ReadNonSpace(text, q);
      assert NameAt(text, q) == NonSpace(text[q..q]) == [];
      assert acc + NameAt(text, q) == acc;
    }
  }

  /**
   * The name loop from `q` reads exactly the characters up to the first `}`,
   * whitespace dropped, and leaves the cursor just past that `}`; with no `}`
   * left it never ends.
   */
  lemma {:induction false} NameRunExact(text: string, q: nat, acc: string)
    requires q <= |text|
    ensures NameRun(text, q, acc) == NameRead(text, q, acc)
    decreases |text| - q
  {
    if q < |text| && IsWhitespace(text[q]) {
      NameRunSpace(text, q, acc);
      NameRunExact(text, q + 1, acc);
      NameReadSpace(text, q, acc);
    } else if q < |text| && text[q] != '}' {
      NameRunChar(text, q, acc);
      NameRunExact(text, q + 1, acc + [text[q]]);
      NameReadChar(text, q, acc);
    } else {
      NameRunHalt(text, q, acc);
    }
  }

  /** The value of a decimal digit. */
  function DigitValue(c: char): nat
    requires '0' <= c <= '9'
  {
    c as int - '0' as int
  }

  /** `parseInt(digits, 10)`: the value of a string of decimal digits. */
  function DecimalValue(digits: string): nat
    requires forall k :: 0 <= k < |digits| ==> IsNumber(Some(digits[k]))
  {
    if digits == [] then 0
    else
      assert IsNumber(Some(digits[|digits| - 1]));
      10 * DecimalValue(digits[..|digits| - 1]) + DigitValue(digits[|digits| - 1])
  }

  /** `${value}` for a natural number: its decimal digits, without leading zeros. */
  function DecimalString(n: nat): (s: string)
    ensures |s| > 0
    ensures forall k :: 0 <= k < |s| ==> IsNumber(Some(s[k]))
  {
    if n < 10 then [('0' as int + n) as char]
    else DecimalString(n / 10) + [('0' as int + n % 10) as char]
  }

  /** Reading back a printed number gives the number. */
  lemma {:induction false} DecimalRoundTrip(n: nat)
    ensures DecimalValue(DecimalString(n)) == n
  {
    var s := DecimalString(n);
    if n >= 10 {
      DecimalRoundTrip(n / 10);
      assert s[..|s| - 1] == DecimalString(n / 10);
    }
  }

  /**
   * `getToken` from cursor `p`: the token read and the cursor after it, or
   * the error thrown, or divergence for a `${` without a closing `}`.
   */
  function ScanToken(text: string, p: nat): (r: Outcome<(Token, nat)>)
    ensures r.Returns? && r.value.0 != EOS ==> p < r.value.1 <= |text|
  {
    var (c, p1) := ReadChar(text, p);
    if c.None? then Returns((EOS, p1))
    else if IsNumber(c) then Returns(ScanNumber(text, p))
    else if c.value == '$' then ScanVariable(text, p1)
    else
      match OperatorToken(c.value)
      case Some(t) => Returns((t, p1))
      case None => Throws(UnsupportedOperator(c.value))
  }

  /** `getToken` returns `EOS` exactly when only whitespace is left. */
  lemma ScanTokenEnd(text: string, p: nat)
    ensures (ScanToken(text, p).Returns? && ScanToken(text, p).value.0 == EOS) <==>
              forall k :: p <= k < |text| ==> IsWhitespace(text[k])
  {
    ReadCharSkips(text, p);
  }

  /**
   * The number path of `getToken`: the value of the digit run from `p` on,
   * and the cursor on the character after it.
   */
  function ScanNumber(text: string, p: nat): (r: (Token, nat))
    requires IsNumber(ReadChar(text, p).0)
    ensures r.0.Number? && p < r.1 <= |text|
  {
    var (digits, q) := DigitRun(text, p, []);
    (Number(DecimalValue(digits)), q)
  }

  /**
   * The variable path of `getToken`, from the cursor after the `$`: a `{`
   * must follow, and the name runs to the next `}`.
   */
  function ScanVariable(text: string, p1: nat): (r: Outcome<(Token, nat)>)
    ensures r.Returns? ==> r.value.0.VarName? && p1 < r.value.1 <= |text|
  {
    var (c2, p2) := ReadChar(text, p1);
    if c2 != Some('{') then Throws(FailedToParseVariable)
    else
      match NameRun(text, p2, [])
      case None => Diverges
      case Some((name, p3)) => Returns((VarName(name), p3))
  }

  /**
   * The number path reads the value of the digits from `p` up to `DigitEnd`,
   * whitespace between them ignored, and leaves the cursor on `DigitEnd`.
   */
  lemma ScanNumberExact(text: string, p: nat)
    requires IsNumber(ReadChar(text, p).0)
    ensures p < |text|
    ensures ScanNumber(text, p) == (Number(DecimalValue(DigitsAt(text, p))), DigitEnd(text, p))
  {
    DigitRunExact(text, p, []);
  }

  /** The variable path throws "Failed to parse variable." unless a `{` comes next. */
  lemma ScanVariableThrows(text: string, p1: nat)
    requires ReadChar(text, p1).0 != Some('{')
    ensures ScanVariable(text, p1) == Throws(FailedToParseVariable)
  {
  }

  /**
   * After `${` the variable path yields the name up to the first `}`,
   * whitespace dropped, and the cursor past that `}`; with no `}` left it
   * never ends.
   */
  lemma ScanVariableBrace(text: string, p1: nat, p2: nat)
    requires ReadChar(text, p1) == (Some('{'), p2)
    ensures p2 <= |text|
    ensures if NameEnd(text, p2) < |text|
            then ScanVariable(text, p1) == Returns((VarName(NameAt(text, p2)), NameEnd(text, p2) + 1))
            else ScanVariable(text, p1) == Diverges
  {
    NameRunExact(text, p2, []);
    ScanVariableNameRun(text, p1, p2);
    NameReadFresh(text, p2);
  }

  /** Read with nothing read before, the name is just `NameAt`. */
  lemma NameReadFresh(text: string, q: nat)
    requires q <= |text|
    ensures NameRead(text, q, []) ==
              if NameEnd(text, q) < |text| then Some((NameAt(text, q), NameEnd(text, q) + 1)) else None
  {
    assert [] + NameAt(text, q) == NameAt(text, q);
  }

  /** After `${` the variable path yields what the name loop yields. */
  lemma ScanVariableNameRun(text: string, p1: nat, p2: nat)
    requires ReadChar(text, p1) == (Some('{'), p2)
    ensures NameRun(text, p2, []).None? ==> ScanVariable(text, p1) == Diverges
    ensures NameRun(text, p2, []).Some? ==>
              ScanVariable(text, p1) == Returns((VarName(NameRun(text, p2, []).value.0), NameRun(text, p2, []).value.1))
  {
  }

  /** Reading at a character that is not whitespace returns it and steps past it. */
  lemma ReadNonSpace(text: string, p: nat)
    requires p < |text| && !IsWhitespace(text[p])
    ensures ReadChar(text, p) == (Some(text[p]), p + 1)
  {
  }

  /** `getToken` on a digit takes the number path and reads the whole digit run. */
  lemma ScanTokenNumber(text: string, p: nat, digits: string)
    requires IsNumber(ReadChar(text, p).0)
    requires DigitRun(text, p, []) == (digits, p + |digits|)
    requires forall k :: 0 <= k < |digits| ==> IsNumber(Some(digits[k]))
    ensures ScanToken(text, p) == Returns((Number(DecimalValue(digits)), p + |digits|))
  {
  }

  /** `getToken` on a `$` takes the variable path. */
  lemma ScanTokenVariable(text: string, p: nat)
    requires ReadChar(text, p).0 == Some('$')
    ensures ScanToken(text, p) == ScanVariable(text, ReadChar(text, p).1)
  {
  }

  /** `getToken` on an operator or a parenthesis returns its token. */
  lemma ScanTokenOperator(text: string, p: nat)
    requires ReadChar(text, p).0.Some? && OperatorToken(ReadChar(text, p).0.value).Some?
    ensures ScanToken(text, p) == Returns((OperatorToken(ReadChar(text, p).0.value).value, ReadChar(text, p).1))
  {
  }

  /** The `switch` of `getToken`: the token an operator or parenthesis character stands for. */
  function OperatorToken(c: char): (r: Option<Token>)
    ensures r.Some? <==> c in "+-*/()"
    ensures r.Some? ==> r.value != EOS && !r.value.VarName? && !r.value.Number?
  {
    match c
    case '+' => Some(Plus)
    case '-' => Some(Minus)
    case '*' => Some(Multi)
    case '/' => Some(Divi)
    case '(' => Some(Lparen)
    case ')' => Some(Rparen)
    case _ => None
  }

  /** One step of `parse`: what is left to read once `getToken` has read `token` from `from`. */
  lemma TokenizeStep(text: string, from: nat, token: Outcome<Token>, pointer: nat)
    requires Scanned(text, from, token, pointer)
    ensures Tokenize(text, from) == Continue(text, token, pointer)
  {
  }

  /** A token other than `EOS` moves the cursor forward, and not past the end. */
  lemma ScannedProgress(text: string, from: nat, token: Outcome<Token>, pointer: nat)
    requires Scanned(text, from, token, pointer)
    ensures token.Returns? && token.value != EOS ==> from < pointer <= |text|
  {
  }

  /** Puts `tokens` in front of the tokens of an outcome; errors and divergence pass through. */
  function Prepend(tokens: seq<Token>, o: Outcome<(seq<Token>, nat)>): Outcome<(seq<Token>, nat)>
  {
    match o
    case Returns((ts, q)) => Returns((tokens + ts, q))
    case Throws(e) => Throws(e)
    case Diverges => Diverges
  }

  /**
   * `parse` from cursor `p`: the tokens up to the end, without the final
   * `EOS`, and the cursor after it; or the first error, or divergence.
   */
  function Tokenize(text: string, p: nat): (r: Outcome<(seq<Token>, nat)>)
    ensures r.Returns? ==> EOS !in r.value.0
    decreases |text| - p
  {
    match ScanToken(text, p)
    case Returns((t, q)) =>
      if t == EOS then Returns(([], q)) else Prepend([t], Tokenize(text, q))
    case Throws(e) => Throws(e)
    case Diverges => Diverges
  }

  /** The outcome of `parse` once `token` has been read and the cursor stands at `pointer`. */
  function Continue(text: string, token: Outcome<Token>, pointer: nat): Outcome<(seq<Token>, nat)>
  {
    match token
    case Returns(t) => if t == EOS then Returns(([], pointer)) else Prepend([t], Tokenize(text, pointer))
    case Throws(e) => Throws(e)
    case Diverges => Diverges
  }

  /** `token` and `pointer` are what `getToken` gives from cursor `from`. */
  predicate Scanned(text: string, from: nat, token: Outcome<Token>, pointer: nat)
  {
    match ScanToken(text, from)
    case Returns((t, q)) => token == Returns(t) && pointer == q
    case Throws(e) => token == Throws(e)
    case Diverges => token == Diverges
  }

  lemma PrependNothing(o: Outcome<(seq<Token>, nat)>)
    ensures Prepend([], o) == o
  {
    if o.Returns? {
      assert [] + o.value.0 == o.value.0;
    }
  }

  lemma PrependAppend(a: seq<Token>, b: seq<Token>, o: Outcome<(seq<Token>, nat)>)
    ensures Prepend(a, Prepend(b, o)) == Prepend(a + b, o)
  {
    if o.Returns? {
      assert a + (b + o.value.0) == (a + b) + o.value.0;
    }
  }

  /** Input that is empty or only whitespace reads as no tokens at all, and only such input does. */
  lemma {:induction false} BlankIsEmpty(text: string, p: nat)
    ensures (Tokenize(text, p).Returns? && Tokenize(text, p).value.0 == []) <==>
              forall k :: p <= k < |text| ==> IsWhitespace(text[k])
  {
    ScanTokenEnd(text, p);
    match ScanToken(text, p)
    case Returns((t, q)) =>
      if t != EOS {
        assert Tokenize(text, p) == Prepend([t], Tokenize(text, q));
      }
    case Throws(_) =>
    case Diverges =>
  }

  /** Whitespace between digits is skipped: `"1 2"` reads as the single number 12. */
  lemma DigitsAcrossSpace()
    ensures Tokenize("1 2", 0) == Returns(([Number(12)], 4))
  {
    var text := "1 2";
    DigitsAcrossSpaceScan();
    TokenizeCons(text, 0, Number(12), 3);
    TokenizeAtEnd(text, 3);
    assert [Number(12)] + [] == [Number(12)];
  }

  lemma DigitsAcrossSpaceScan()
    ensures ScanToken("1 2", 0).Returns? && ScanToken("1 2", 0).value == (Number(12), 3)
  {
    var text := "1 2";
    ReadNonSpace(text, 0);
    ReadSkipsSpace(text, 1);
    ReadAtEnd(text);
    DigitRunStep(text, 0, [], '1', 1);
    DigitRunStep(text, 1, [] + ['1'], '2', 3);
    DigitRunStop(text, 3, [] + ['1'] + ['2']);
    assert [] + ['1'] + ['2'] == "12";
    ScanTokenDigits(text, 0, "12", 3);
    assert DecimalValue("12") == 12 by {
      assert "12"[..1] == "1" && "1"[..0] == [];
    }
  }

  /** A `$` not followed by `{` throws. */
  lemma DollarWithoutBraceThrows()
    ensures Tokenize("$x", 0) == Throws(FailedToParseVariable)
  {
    ReadNonSpace("$x", 0);
    ReadNonSpace("$x", 1);
    assert ScanToken("$x", 0) == Throws(FailedToParseVariable);
  }

  /** A character that starts no token throws, after the tokens before it were read. */
  lemma UnsupportedCharacterThrows()
    ensures Tokenize("2%3", 0) == Throws(UnsupportedOperator('%'))
  {
    var text := "2%3";
    ReadNonSpace(text, 0);
    ReadNonSpace(text, 1);
    DigitRunStep(text, 0, [], '2', 1);
    DigitRunStop(text, 1, [] + ['2']);
    assert [] + ['2'] == "2";
    ScanTokenDigits(text, 0, "2", 1);
    assert DecimalValue("2") == 2 by {
      assert "2"[..0] == [];
    }
    TokenizeCons(text, 0, Number(2), 1);
    assert ScanToken(text, 1) == Throws(UnsupportedOperator('%'));
  }

  /** A variable with no closing `}` never finishes reading. */
  lemma UnterminatedVariableDiverges()
    ensures Tokenize("${ab", 0) == Diverges
  {
    var text := "${ab";
    ReadNonSpace(text, 0);
    ReadNonSpace(text, 1);
    assert forall k :: 2 <= k < |text| ==> text[k] != '}';
    NameRunNone(text, 2, []);
  }

  /** Whitespace inside a variable name is dropped: `"${a b}"` names the variable "ab". */
  lemma SpaceInNameDropped()
    ensures Tokenize("${a b}", 0) == Returns(([VarName("ab")], 7))
  {
    var text := "${a b}";
    ReadNonSpace(text, 0);
    ReadNonSpace(text, 1);
    ReadNonSpace(text, 2);
    ReadSkipsSpace(text, 3);
    ReadNonSpace(text, 5);
    NameRunStep(text, 2, [], 'a', 3);
    NameRunStep(text, 3, [] + ['a'], 'b', 5);
    assert NameRun(text, 5, [] + ['a'] + ['b']) == Some(([] + ['a'] + ['b'], 6));
    assert [] + ['a'] + ['b'] == "ab";
    assert ScanToken(text, 0) == ScanVariable(text, 1);
    TokenizeCons(text, 0, VarName("ab"), 6);
    TokenizeAtEnd(text, 6);
    assert [VarName("ab")] + [] == [VarName("ab")];
  }

  /** Reading at whitespace followed by a character that is not whitespace returns that character. */
  lemma ReadSkipsSpace(text: string, p: nat)
    requires p + 1 < |text| && IsWhitespace(text[p]) && !IsWhitespace(text[p + 1])
    ensures ReadChar(text, p) == (Some(text[p + 1]), p + 2)
  {
    assert SkipWhitespace(text, p) == SkipWhitespace(text, p + 1) == p + 1;
  }

  /** Reading at the end finds nothing and steps one past the end. */
  lemma ReadAtEnd(text: string)
    ensures ReadChar(text, |text|) == (None, |text| + 1)
  {
  }

  /** One turn of the digit loop: a digit is appended and reading goes on after it. */
  lemma DigitRunStep(text: string, q: nat, acc: string, c: char, q': nat)
    requires ReadChar(text, q) == (Some(c), q') && IsNumber(Some(c))
    ensures DigitRun(text, q, acc) == DigitRun(text, q', acc + [c])
  {
  }

  /** The digit loop stops at a character that is not a digit, the cursor stepped back onto it. */
  lemma DigitRunStop(text: string, q: nat, acc: string)
    requires !IsNumber(ReadChar(text, q).0)
    ensures DigitRun(text, q, acc) == (acc, ReadChar(text, q).1 - 1)
  {
  }

  /** One turn of the name loop: a character other than `}` is appended and reading goes on after it. */
  lemma NameRunStep(text: string, q: nat, acc: string, c: char, q': nat)
    requires ReadChar(text, q) == (Some(c), q') && c != '}'
    ensures NameRun(text, q, acc) == NameRun(text, q', acc + [c])
  {
  }

  /** `getToken` on a digit returns the value of the digit run and the cursor after it. */
  lemma ScanTokenDigits(text: string, p: nat, digits: string, q: nat)
    requires IsNumber(ReadChar(text, p).0) && DigitRun(text, p, []) == (digits, q)
    ensures forall k :: 0 <= k < |digits| ==> IsNumber(Some(digits[k]))
    ensures ScanToken(text, p).Returns? && ScanToken(text, p).value == (Number(DecimalValue(digits)), q)
  {
  }

  /** The text a token other than a variable is shown as: its symbol, a number in decimal, nothing for `EOS`. */
  function TokenText(t: Token): string
  {
    match t
    case Plus => "+"
    case Minus => "-"
    case Multi => "*"
    case Divi => "/"
    case Lparen => "("
    case Rparen => ")"
    case Number(v) => DecimalString(v)
    case _ => ""
  }

  /** What `handleInput` reads back from one rendered token: a variable chip as `${name}`, anything else as its text. */
  function ComponentText(t: Token): string
  {
    if t.VarName? then "${" + t.name + "}" else TokenText(t)
  }

  /** The statement text `handleInput` rebuilds from the rendered tokens, in order. */
  function Serialise(tokens: seq<Token>): string
  {
    if tokens == [] then "" else ComponentText(tokens[0]) + Serialise(tokens[1..])
  }

  /** A name that reads back unchanged: no whitespace, which reading drops, and no `}`, which ends it. */
  predicate PlainName(name: string)
  {
    forall k :: 0 <= k < |name| ==> !IsWhitespace(name[k]) && name[k] != '}'
  }

  /** Tokens that print and read back unchanged: no `EOS`, plain names, and no number right after a number. */
  predicate Printable(tokens: seq<Token>)
  {
    (forall i :: 0 <= i < |tokens| ==> tokens[i] != EOS && (tokens[i].VarName? ==> PlainName(tokens[i].name))) &&
    (forall i :: 0 < i < |tokens| ==> !(tokens[i - 1].Number? && tokens[i].Number?))
  }

  /** The digit loop reads exactly the digits from `q` on, and stops at the first character that is neither digit nor whitespace. */
  lemma {:induction false} DigitRunOver(text: string, q: nat, acc: string, k: nat)
    requires q + k <= |text|
    requires forall j :: q <= j < q + k ==> IsNumber(Some(text[j]))
    requires q + k < |text| ==> !IsNumber(Some(text[q + k])) && !IsWhitespace(text[q + k])
    ensures DigitRun(text, q, acc) == (acc + text[q..q + k], q + k)
    decreases k
  {
    if k == 0 {
      if q < |text| {
        ReadNonSpace(text, q);
      } else {
        ReadAtEnd(text);
      }
      DigitRunStop(text, q, acc);
      assert acc + text[q..q] == acc;
    } else {
      ReadNonSpace(text, q);
      DigitRunStep(text, q, acc, text[q], q + 1);
      DigitRunOver(text, q + 1, acc + [text[q]], k - 1);
      AppendSlice(acc, text, q, k);
    }
  }

  /** Appending one character and then the slice after it is appending the longer slice. */
  lemma AppendSlice(acc: string, text: string, q: nat, k: nat)
    requires 0 < k && q + k <= |text|
    ensures (acc + [text[q]]) + text[q + 1..q + k] == acc + text[q..q + k]
  {
    assert text[q..q + k] == [text[q]] + text[q + 1..q + k];
  }

  /** The name loop reads exactly the characters up to the next `}` when none of them is whitespace. */
  lemma {:induction false} NameRunOver(text: string, q: nat, acc: string, k: nat)
    requires q + k < |text| && text[q + k] == '}'
    requires forall j :: q <= j < q + k ==> !IsWhitespace(text[j]) && text[j] != '}'
    ensures NameRun(text, q, acc) == Some((acc + text[q..q + k], q + k + 1))
    decreases k
  {
    ReadNonSpace(text, q);
    if k == 0 {
      assert acc + text[q..q] == acc;
    } else {
      NameRunStep(text, q, acc, text[q], q + 1);
      NameRunOver(text, q + 1, acc + [text[q]], k - 1);
      AppendSlice(acc, text, q, k);
    }
  }

  /** A slice whose characters are those of `s` is `s`. */
  lemma SliceIs(text: string, p: nat, s: string)
    requires p + |s| <= |text|
    requires forall j :: p <= j < p + |s| ==> text[j] == s[j - p]
    ensures text[p..p + |s|] == s
  {
    forall i | 0 <= i < |s|
      ensures text[p..p + |s|][i] == s[i]
    {
      assert text[p + i] == s[(p + i) - p];
    }
  }

  /** A slice that equals `s` has the characters of `s`. */
  lemma SliceAt(text: string, p: nat, s: string, i: nat)
    requires p + |s| <= |text| && text[p..p + |s|] == s && i < |s|
    ensures text[p + i] == s[i]
  {
    assert text[p..p + |s|][i] == text[p + i];
  }

  /** The digit loop reads a run of digits followed by neither a digit nor whitespace exactly. */
  lemma DigitsRead(text: string, p: nat, digits: string)
    requires |digits| > 0 && forall k :: 0 <= k < |digits| ==> IsNumber(Some(digits[k]))
    requires p + |digits| <= |text| && text[p..p + |digits|] == digits
    requires p + |digits| < |text| ==>
               !IsNumber(Some(text[p + |digits|])) && !IsWhitespace(text[p + |digits|])
    ensures IsNumber(ReadChar(text, p).0)
    ensures DigitRun(text, p, []) == (digits, p + |digits|)
  {
    var n := |digits|;
    forall j | p <= j < p + n
      ensures IsNumber(Some(text[j]))
    {
      SliceAt(text, p, digits, j - p);
    }
    DigitRunOver(text, p, [], n);
    assert [] + text[p..p + n] == digits;
    assert !IsWhitespace(text[p]);
    ReadNonSpace(text, p);
  }

  /** A run of digits reads back as one number when what follows is neither a digit nor whitespace. */
  lemma ScanDigits(text: string, p: nat, digits: string)
    requires |digits| > 0 && forall k :: 0 <= k < |digits| ==> IsNumber(Some(digits[k]))
    requires p + |digits| <= |text| && text[p..p + |digits|] == digits
    requires p + |digits| < |text| ==>
               !IsNumber(Some(text[p + |digits|])) && !IsWhitespace(text[p + |digits|])
    ensures ScanToken(text, p) == Returns((Number(DecimalValue(digits)), p + |digits|))
  {
    DigitsRead(text, p, digits);
    ScanTokenNumber(text, p, digits);
  }

  /** The characters of a printed variable `${name}`. */
  lemma PrintedVariableText(text: string, p: nat, name: string)
    requires p + |name| + 3 <= |text| && text[p..p + |name| + 3] == "${" + name + "}"
    ensures text[p] == '$' && text[p + 1] == '{' && text[p + |name| + 2] == '}'
    ensures forall j :: p + 2 <= j < p + 2 + |name| ==> text[j] == name[j - p - 2]
  {
    var s := "${" + name + "}";
    SliceAt(text, p, s, 0);
    SliceAt(text, p, s, 1);
    SliceAt(text, p, s, |name| + 2);
    forall j | p + 2 <= j < p + 2 + |name|
      ensures text[j] == name[j - p - 2]
    {
      SliceAt(text, p, s, j - p);
    }
  }

  /** After `${`, a plain name and its `}` are read as that name. */
  lemma ScanVariableName(text: string, p2: nat, name: string)
    requires PlainName(name)
    requires p2 + |name| < |text| && text[p2 + |name|] == '}'
    requires forall j :: p2 <= j < p2 + |name| ==> text[j] == name[j - p2]
    ensures NameRun(text, p2, []) == Some((name, p2 + |name| + 1))
  {
    forall j | p2 <= j < p2 + |name|
      ensures !IsWhitespace(text[j]) && text[j] != '}'
    {
      assert text[j] == name[j - p2];
    }
    NameRunOver(text, p2, [], |name|);
    SliceIs(text, p2, name);
    assert [] + name == name;
  }

  /** A printed variable `${name}` with a plain name reads back as itself. */
  lemma ScanPrintedVariable(text: string, p: nat, name: string)
    requires PlainName(name)
    requires p + |name| + 3 <= |text| && text[p..p + |name| + 3] == "${" + name + "}"
    ensures ScanToken(text, p).Returns? && ScanToken(text, p).value == (VarName(name), p + |name| + 3)
  {
    PrintedVariableText(text, p, name);
    ReadNonSpace(text, p);
    ReadNonSpace(text, p + 1);
    ScanVariableName(text, p + 2, name);
    ScanTokenVariable(text, p);
  }

  /** A printed number reads back as itself. */
  lemma ScanPrintedNumber(text: string, p: nat, v: nat, q: nat)
    requires q == p + |DecimalString(v)| <= |text| && text[p..q] == DecimalString(v)
    requires q < |text| ==> !IsNumber(Some(text[q])) && !IsWhitespace(text[q])
    ensures ScanToken(text, p).Returns? && ScanToken(text, p).value == (Number(v), q)
  {
    DecimalRoundTrip(v);
    ScanDigits(text, p, DecimalString(v));
  }

  /** A printed operator or parenthesis reads back as itself. */
  lemma ScanPrintedOperator(text: string, p: nat, t: Token)
    requires t != EOS && !t.Number? && !t.VarName?
    requires p + 1 <= |text| && text[p..p + 1] == TokenText(t)
    ensures ScanToken(text, p).Returns? && ScanToken(text, p).value == (t, p + 1)
  {
    SliceAt(text, p, TokenText(t), 0);
    ReadNonSpace(text, p);
    assert OperatorToken(text[p]) == Some(t);
    ScanTokenOperator(text, p);
  }

  /** One printed token reads back as itself, with the cursor right after its text. */
  lemma ScanPrinted(text: string, p: nat, t: Token, q: nat)
    requires t != EOS && (t.VarName? ==> PlainName(t.name))
    requires q == p + |ComponentText(t)| <= |text| && text[p..q] == ComponentText(t)
    requires t.Number? && q < |text| ==> !IsNumber(Some(text[q])) && !IsWhitespace(text[q])
    ensures ScanToken(text, p).Returns? && ScanToken(text, p).value == (t, q)
  {
    if t.Number? {
      ScanPrintedNumber(text, p, t.value, q);
    } else if t.VarName? {
      ScanPrintedVariable(text, p, t.name);
    } else {
      ScanPrintedOperator(text, p, t);
    }
  }

  /** Printed tokens start with a character that is not whitespace, and with a digit only for a number. */
  lemma SerialiseStart(tokens: seq<Token>)
    requires tokens != [] && tokens[0] != EOS
    ensures Serialise(tokens) != []
    ensures !IsWhitespace(Serialise(tokens)[0])
    ensures IsNumber(Some(Serialise(tokens)[0])) ==> tokens[0].Number?
  {
    var s := ComponentText(tokens[0]);
    assert |s| > 0;
    assert Serialise(tokens)[0] == s[0];
  }

  /** What follows the first printed token is printable, and a number is not followed by another number. */
  lemma PrintableTail(tokens: seq<Token>)
    requires Printable(tokens) && tokens != []
    ensures Printable(tokens[1..])
    ensures tokens[0] != EOS && (tokens[0].VarName? ==> PlainName(tokens[0].name))
    ensures |tokens| > 1 ==> !(tokens[0].Number? && tokens[1].Number?)
  {
    var rest := tokens[1..];
    forall i | 0 < i < |rest|
      ensures !(rest[i - 1].Number? && rest[i].Number?)
    {
      assert rest[i - 1] == tokens[i] && rest[i] == tokens[i + 1];
    }
  }

  /** A token other than `EOS` goes in front of what `parse` reads after it. */
  lemma TokenizeCons(text: string, p: nat, t: Token, q: nat)
    requires ScanToken(text, p).Returns? && ScanToken(text, p).value == (t, q) && t != EOS
    ensures Tokenize(text, p) == Prepend([t], Tokenize(text, q))
  {
  }

  /** At the end of the text `parse` reads nothing more. */
  lemma TokenizeAtEnd(text: string, p: nat)
    requires p == |text|
    ensures Tokenize(text, p).Returns? && Tokenize(text, p).value == ([], |text| + 1)
  {
    assert ReadChar(text, p) == (None, p + 1);
  }

  /** What is left of a text after a known prefix. */
  lemma SliceAfter(text: string, p: nat, a: string, b: string)
    requires p <= |text| && text[p..] == a + b
    ensures p + |a| <= |text| && text[p + |a|..] == b
  {
    assert text[p + |a|..] == text[p..][|a|..];
  }

  /** From `p` on, the text is exactly the printed form of `tokens`, and they are printable. */
  ghost predicate PrintedAt(text: string, p: nat, tokens: seq<Token>)
  {
    Printable(tokens) && p <= |text| && text[p..] == Serialise(tokens)
  }

  /** Where the printed form of the first token ends. */
  function NextAt(p: nat, tokens: seq<Token>): nat
    requires tokens != []
  {
    p + |ComponentText(tokens[0])|
  }

  /** What follows the first printed token is the printed rest. */
  lemma PrintedRest(text: string, p: nat, tokens: seq<Token>)
    requires PrintedAt(text, p, tokens) && tokens != []
    ensures PrintedAt(text, NextAt(p, tokens), tokens[1..])
  {
    PrintableTail(tokens);
    SliceAfter(text, p, ComponentText(tokens[0]), Serialise(tokens[1..]));
  }

  /** The text of the first printed token, and what follows it. */
  lemma PrintedFirstText(text: string, p: nat, tokens: seq<Token>)
    requires PrintedAt(text, p, tokens) && tokens != []
    ensures tokens[0] != EOS && (tokens[0].VarName? ==> PlainName(tokens[0].name))
    ensures NextAt(p, tokens) <= |text| && text[p..NextAt(p, tokens)] == ComponentText(tokens[0])
    ensures tokens[0].Number? && NextAt(p, tokens) < |text| ==>
              !IsNumber(Some(text[NextAt(p, tokens)])) && !IsWhitespace(text[NextAt(p, tokens)])
  {
    var s, rest, q := ComponentText(tokens[0]), Serialise(tokens[1..]), NextAt(p, tokens);
    PrintableTail(tokens);
    assert text[p..q] == text[p..][..|s|];
    if q < |text| {
      assert text[q] == text[p..][|s|] == rest[0];
      SerialiseStart(tokens[1..]);
    }
  }

  /** The first printed token reads back as itself. */
  lemma PrintedFirst(text: string, p: nat, tokens: seq<Token>)
    requires PrintedAt(text, p, tokens) && tokens != []
    ensures tokens[0] != EOS && ScanToken(text, p).Returns? && ScanToken(text, p).value == (tokens[0], NextAt(p, tokens))
  {
    PrintedFirstText(text, p, tokens);
    ScanPrinted(text, p, tokens[0], NextAt(p, tokens));
  }

  /** Reading from `p` yields `tokens` one `getToken` at a time, and then the end of the text. */
  ghost predicate ReadsAs(text: string, p: nat, tokens: seq<Token>)
    decreases |tokens|
  {
    if tokens == [] then p == |text|
    else
      var r := ScanToken(text, p);
      r.Returns? && r.value.0 == tokens[0] && tokens[0] != EOS && ReadsAs(text, r.value.1, tokens[1..])
  }

  /** One token read, then the rest. */
  lemma ReadsAsCons(text: string, p: nat, q: nat, tokens: seq<Token>)
    requires tokens != [] && tokens[0] != EOS
    requires ScanToken(text, p).Returns? && ScanToken(text, p).value == (tokens[0], q)
    requires ReadsAs(text, q, tokens[1..])
    ensures ReadsAs(text, p, tokens)
  {
  }

  /** Text that reads as `tokens` one token at a time is what `parse` turns into `tokens`. */
  lemma {:induction false} ReadsAsTokenize(text: string, p: nat, tokens: seq<Token>)
    requires ReadsAs(text, p, tokens)
    ensures Tokenize(text, p) == Returns((tokens, |text| + 1))
    decreases |tokens|
  {
    if tokens == [] {
      TokenizeAtEnd(text, p);
    } else {
      var q := ScanToken(text, p).value.1;
      ReadsAsTokenize(text, q, tokens[1..]);
      TokenizeCons(text, p, tokens[0], q);
      assert [tokens[0]] + tokens[1..] == tokens;
    }
  }

  /** Printed tokens read back one at a time. */
  lemma {:induction false} PrintedReadsAs(text: string, p: nat, tokens: seq<Token>)
    requires PrintedAt(text, p, tokens)
    ensures ReadsAs(text, p, tokens)
    decreases |tokens|
  {
    if tokens != [] {
      PrintedRest(text, p, tokens);
      PrintedFirst(text, p, tokens);
      PrintedReadsAs(text, NextAt(p, tokens), tokens[1..]);
      ReadsAsCons(text, p, NextAt(p, tokens), tokens);
    }
  }

  /**
   * Printing a token list the way the formula builder renders it and
   * reading the text back gives the same list.
   */
  lemma PrintThenParse(text: string, p: nat, tokens: seq<Token>)
    requires Printable(tokens)
    requires p <= |text| && text[p..] == Serialise(tokens)
    ensures Tokenize(text, p) == Returns((tokens, |text| + 1))
  {
    PrintedReadsAs(text, p, tokens);
    ReadsAsTokenize(text, p, tokens);
  }

  /** The tokenizer: the statement text and the cursor into it. */
  class StatementParser {
    var currentPointer: nat
    const text: string

    constructor (text: string)
      ensures this.text == text && currentPointer == 0
    {
      this.text := text;
      currentPointer := 0;
    }

    /** `getChar`: skips whitespace and returns the next character, moving the cursor past it. */
    method GetChar() returns (ch: Option<char>)
      modifies this
      ensures (ch, currentPointer) == ReadChar(text, old(currentPointer))
    {
      ch := CharAt(text, currentPointer);
      while ch.Some? && IsWhitespace(ch.value)
        invariant old(currentPointer) <= currentPointer
        invariant ch == CharAt(text, currentPointer)
        invariant SkipWhitespace(text, old(currentPointer)) == SkipWhitespace(text, currentPointer)
        decreases |text| - currentPointer
      {
        currentPointer := currentPointer + 1;
        ch := CharAt(text, currentPointer);
      }
      currentPointer := currentPointer + 1;
    }

    /** `getToken`: reads one token from the cursor on. */
    method GetToken() returns (token: Outcome<Token>)
      modifies this
      ensures Scanned(text, old(currentPointer), token, currentPointer)
    {
      ghost var p := currentPointer;
      var ch := GetChar();
      if ch.None? {
        return Returns(EOS);
      }
      if IsNumber(ch) {
        var numberText := "";
        ghost var q := p;
        while IsNumber(ch)
          invariant ReadChar(text, q) == (ch, currentPointer)
          invariant DigitRun(text, q, numberText) == DigitRun(text, p, "")
          invariant forall k :: 0 <= k < |numberText| ==> IsNumber(Some(numberText[k]))
          decreases |text| - currentPointer
        {
          numberText := numberText + [ch.value];
          q := currentPointer;
          ch := GetChar();
        }
        currentPointer := currentPointer - 1;
        return Returns(Number(DecimalValue(numberText)));
      }
      if ch == Some('$') {
        var brace := GetChar();
        if brace != Some('{') {
          return Throws(FailedToParseVariable);
        }
        var nameText := "";
        ghost var start := currentPointer;
        ghost var q := currentPointer;
        var innerNameChar := GetChar();
        while innerNameChar != Some('}')
          invariant ReadChar(text, q) == (innerNameChar, currentPointer)
          invariant NameRun(text, q, nameText) == NameRun(text, start, "")
          decreases |text| - currentPointer
        {
          if innerNameChar.None? {
            // From here on `getChar` only ever returns `undefined`: the source loops for ever.
            return Diverges;
          }
          nameText := nameText + [innerNameChar.value];
          q := currentPointer;
          innerNameChar := GetChar();
        }
        return Returns(VarName(nameText));
      }
      match ch.value
      case '+' => token := Returns(Plus);
      case '-' => token := Returns(Minus);
      case '*' => token := Returns(Multi);
      case '/' => token := Returns(Divi);
      case '(' => token := Returns(Lparen);
      case ')' => token := Returns(Rparen);
      case _ => token := Throws(UnsupportedOperator(ch.value));
    }

    /** `parse`: reads tokens until `EOS` and returns them as a statement. */
    method Parse() returns (statement: Outcome<Statement>)
      modifies this
      ensures match Tokenize(text, old(currentPointer))
              case Returns((ts, q)) => statement == Returns(Statement(ts)) && currentPointer == q
              case Throws(e) => statement == Throws(e)
              case Diverges => statement == Diverges
    {
      var tokens: seq<Token> := [];
      ghost var before := currentPointer;
      var token := GetToken();
      TokenizeStep(text, before, token, currentPointer);
      ScannedProgress(text, before, token, currentPointer);
      PrependNothing(Continue(text, token, currentPointer));
      while token.Returns? && token.value != EOS
        invariant token.Returns? && token.value != EOS ==> currentPointer <= |text|
        invariant Tokenize(text, old(currentPointer)) == Prepend(tokens, Continue(text, token, currentPointer))
        decreases if token.Returns? && token.value != EOS then |text| + 1 - currentPointer else 0
      {
        var t := token.value;
        before := currentPointer;
        token := GetToken();
        TokenizeStep(text, before, token, currentPointer);
        ScannedProgress(text, before, token, currentPointer);
        PrependAppend(tokens, [t], Continue(text, token, currentPointer));
        tokens := tokens + [t];
      }
      match token
      case Returns(_) =>
        assert tokens + [] == tokens;
        statement := Returns(Statement(tokens));
      case Throws(e) => statement := Throws(e);
      case Diverges => statement := Diverges;
    }
  }
}
