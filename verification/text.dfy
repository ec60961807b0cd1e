/** The standard-library behaviour the line grammar and the shop rely on:
    whitespace tokenising as `std::istream >> std::string` does it, joining,
    decimal numerals as `std::format("{}", n)` and `operator<<` print them, and
    `std::stoull` in base 10. Everything is in the "C" locale. */
module Text {
  import opened Outcomes

  const U64Limit: nat := 0x1_0000_0000_0000_0000

  /** `uint64_t`. */
  type u64 = n: int | 0 <= n < 0x1_0000_0000_0000_0000

  /** `std::isspace` in the "C" locale: space, tab, newline, vertical tab,
      form feed and carriage return. */
  predicate IsSpace(c: char)
  {
    c == ' ' || c == '\t' || c == '\n' || c == '\r' || c as int == 11 || c as int == 12
  }

  predicate Blank(s: string)
  {
    forall i :: 0 <= i < |s| ==> IsSpace(s[i])
  }

  /** A token as extraction yields it: non-empty and free of whitespace. */
  predicate IsWord(w: string)
  {
    |w| > 0 && forall i :: 0 <= i < |w| ==> !IsSpace(w[i])
  }

  predicate AllWords(ws: seq<string>)
  {
    forall i :: 0 <= i < |ws| ==> IsWord(ws[i])
  }

  // ---------------------------------------------------------------------------
  // Tokenising

  /** The input after the leading whitespace extraction skips. */
  function SkipSpace(s: string): (t: string)
    ensures |t| <= |s|
    ensures |t| > 0 ==> !IsSpace(t[0])
    decreases |s|
  {
    if |s| > 0 && IsSpace(s[0]) then SkipSpace(s[1..]) else s
  }

  /** What is skipped is whitespace, and what is left is a suffix. */
  lemma {:induction false} SkipSpaceSplits(s: string)
    ensures var t := SkipSpace(s); t == s[|s| - |t|..] && Blank(s[..|s| - |t|])
    decreases |s|
  {
    if |s| > 0 && IsSpace(s[0]) {
      var t := SkipSpace(s[1..]);
      SkipSpaceSplits(s[1..]);
      assert s[..|s| - |t|] == [s[0]] + s[1..][..|s| - 1 - |t|];
    }
  }

  /** The length of the run of non-whitespace characters that starts `s`. */
  function WordLength(s: string): (n: nat)
    ensures n <= |s|
    ensures forall i :: 0 <= i < n ==> !IsSpace(s[i])
    ensures n < |s| ==> IsSpace(s[n])
  {
    if |s| == 0 || IsSpace(s[0]) then 0 else 1 + WordLength(s[1..])
  }

  /** One `stream >> str` on the unread input `s`: the next token and the input
      after it, or None (the stream's fail state) when only whitespace is left. */
  function Extract(s: string): (r: Option<(string, string)>)
    ensures r.Some? ==> IsWord(r.value.0) && |r.value.1| < |s|
  {
    var t := SkipSpace(s);
    if |t| == 0 then None
    else
      var n := WordLength(t);
      Some((t[..n], t[n..]))
  }

  /** Extraction fails exactly on blank input; otherwise it skips a blank
      prefix and splits off a maximal token: what follows the token is empty or
      starts with whitespace. */
  lemma ExtractSplits(s: string)
    ensures Extract(s).None? <==> Blank(s)
    ensures Extract(s).Some? ==> var (w, rest) := Extract(s).value;
      |w| + |rest| <= |s| && Blank(s[..|s| - |w| - |rest|])
      && s[|s| - |w| - |rest|..] == w + rest
      && (|rest| == 0 || IsSpace(rest[0]))
  {
    var t := SkipSpace(s);
    SkipSpaceSplits(s);
    if |t| == 0 {
      assert s[..|s|] == s;
    } else {
      var n := WordLength(t);
      var w, rest := t[..n], t[n..];
      assert w + rest == t;
      assert s[..|s| - |w| - |rest|] == s[..|s| - |t|];
      assert s[|s| - |t|] == t[0] && !IsSpace(t[0]);
      assert !Blank(s);
    }
  }

  /** Every token extraction would yield from `s`, in order. */
  function Tokens(s: string): (ts: seq<string>)
    ensures AllWords(ts)
    decreases |s|
  {
    match Extract(s)
    case None => []
    case Some((w, rest)) => [w] + Tokens(rest)
  }

  /** Unfolds `Tokens` by one extraction. */
  lemma TokensStep(s: string)
    ensures Extract(s).None? ==> Tokens(s) == []
    ensures Extract(s).Some? ==> Tokens(s) == [Extract(s).value.0] + Tokens(Extract(s).value.1)
  {
  }

  lemma SliceCons<T>(x: T, ys: seq<T>, k: nat)
    requires k <= |ys|
    ensures ([x] + ys)[..k + 1] == [x] + ys[..k]
    ensures ([x] + ys)[k + 1..] == ys[k..]
  {
  }

  /** The strings of `parts` with `sep` between neighbours. */
  function Join(parts: seq<string>, sep: string): string
  {
    if |parts| == 0 then ""
    else if |parts| == 1 then parts[0]
    else parts[0] + sep + Join(parts[1..], sep)
  }

  /** The strings of `parts`, each followed by `sep` (the shape a loop of
      `res += str + sep` builds). */
  function Terminated(parts: seq<string>, sep: string): string
  {
    if |parts| == 0 then "" else parts[0] + sep + Terminated(parts[1..], sep)
  }

  lemma {:induction false} TerminatedIsJoin(parts: seq<string>, sep: string)
    requires |parts| > 0
    ensures Terminated(parts, sep) == Join(parts, sep) + sep
    decreases |parts|
  {
    if |parts| > 1 {
      TerminatedIsJoin(parts[1..], sep);
    }
  }

  lemma TokensOfLeadingSpace(c: char, rest: string)
    requires IsSpace(c)
    ensures Tokens([c] + rest) == Tokens(rest)
  {
    assert ([c] + rest)[1..] == rest;
    assert SkipSpace([c] + rest) == SkipSpace(rest);
    assert Extract([c] + rest) == Extract(rest);
  }

  lemma TokensOfWord(w: string)
    requires IsWord(w)
    ensures Tokens(w) == [w]
  {
    assert SkipSpace(w) == w;
    assert WordLength(w) == |w|;
    assert w[..|w|] == w;
    assert Extract(w) == Some((w, ""));
  }

  lemma TokensAfterWord(w: string, c: char, rest: string)
    requires IsWord(w) && IsSpace(c)
    ensures Tokens(w + [c] + rest) == [w] + Tokens(rest)
  {
    var s := w + [c] + rest;
    assert s[0] == w[0];
    assert SkipSpace(s) == s;
    assert s[|w|] == c;
    assert WordLength(s) == |w|;
    assert s[..|w|] == w && s[|w|..] == [c] + rest;
    assert Extract(s) == Some((w, [c] + rest));
    TokensOfLeadingSpace(c, rest);
  }

  lemma TokensOfPair(a: string, c: char, b: string)
    requires IsWord(a) && IsSpace(c) && IsWord(b)
    ensures Tokens(a + [c] + b) == [a, b]
  {
    TokensAfterWord(a, c, b);
    TokensOfWord(b);
  }

  /** Tokenising undoes joining: words joined by one whitespace character
      tokenise back into the same words. */
  lemma {:induction false} TokensOfJoin(ws: seq<string>, c: char)
    requires AllWords(ws) && IsSpace(c)
    ensures Tokens(Join(ws, [c])) == ws
    decreases |ws|
  {
    if |ws| == 0 {
      assert Extract("") == None;
    } else if |ws| == 1 {
      TokensOfWord(ws[0]);
    } else {
      TokensOfJoin(ws[1..], c);
      TokensAfterWord(ws[0], c, Join(ws[1..], [c]));
      assert Join(ws, [c]) == ws[0] + [c] + Join(ws[1..], [c]);
      assert [ws[0]] + ws[1..] == ws;
    }
  }

  // ---------------------------------------------------------------------------
  // Decimal numerals

  predicate IsDigit(c: char)
  {
    '0' <= c <= '9'
  }

  predicate AllDigits(s: string)
  {
    forall i :: 0 <= i < |s| ==> IsDigit(s[i])
  }

  function DigitValue(c: char): nat
    requires IsDigit(c)
  {
    c as int - '0' as int
  }

  function DigitChar(d: nat): (c: char)
    requires d < 10
    ensures IsDigit(c) && DigitValue(c) == d
  {
    ('0' as int + d) as char
  }

  /** The value of a string of decimal digits. */
  function DigitsValue(s: string): nat
    requires AllDigits(s)
  {
    if |s| == 0 then 0 else 10 * DigitsValue(s[..|s| - 1]) + DigitValue(s[|s| - 1])
  }

  /** `n` printed in decimal, without sign or leading zeros. */
  function Decimal(n: nat): (s: string)
    ensures |s| > 0 && AllDigits(s)
  {
    if n < 10 then [DigitChar(n)] else Decimal(n / 10) + [DigitChar(n % 10)]
  }

  lemma {:induction false} DecimalValue(n: nat)
    ensures DigitsValue(Decimal(n)) == n
  {
    if n >= 10 {
      DecimalValue(n / 10);
      var s := Decimal(n);
      assert s[..|s| - 1] == Decimal(n / 10);
    }
  }

  /** The length of the run of decimal digits that starts `s`. */
  function DigitRun(s: string): (n: nat)
    ensures n <= |s|
    ensures AllDigits(s[..n])
    ensures n < |s| ==> !IsDigit(s[n])
  {
    if |s| == 0 || !IsDigit(s[0]) then 0
    else
      var n := 1 + DigitRun(s[1..]);
      assert s[..n] == [s[0]] + s[1..][..n - 1];
      n
  }

  /** Why `std::stoull` throws: `std::invalid_argument` when no digits follow the
      optional whitespace and sign, `std::out_of_range` when the digits name a
      number beyond `uint64_t`. */
  datatype ConversionError = InvalidArgument | OutOfRange

  /** `std::stoull(s)` in base 10 (`strtoull`): skip leading whitespace, take an
      optional sign, then the longest run of digits; what follows the digits is
      ignored. A minus sign negates the value modulo 2^64. */
  function Stoull(s: string): (r: Result<u64, ConversionError>)
  {
    var t := SkipSpace(s);
    var signed := |t| > 0 && (t[0] == '+' || t[0] == '-');
    var body := if signed then t[1..] else t;
    var n := DigitRun(body);
    if n == 0 then Failure(InvalidArgument)
    else
      var magnitude := DigitsValue(body[..n]);
      if magnitude >= U64Limit then Failure(OutOfRange)
      else if signed && t[0] == '-' then Success((U64Limit - magnitude) % U64Limit)
      else Success(magnitude)
  }

  lemma {:induction false} DigitRunOfDigits(d: string, rest: string)
    requires AllDigits(d)
    requires |rest| == 0 || !IsDigit(rest[0])
    ensures DigitRun(d + rest) == |d|
    decreases |d|
  {
    if |d| > 0 {
      assert (d + rest)[1..] == d[1..] + rest;
      DigitRunOfDigits(d[1..], rest);
    } else {
      assert d + rest == rest;
    }
  }

  /** `std::stoull` reads back what decimal printing writes, also when the
      numeral is followed by text that does not start with a digit. */
  lemma StoullDecimal(n: u64, rest: string)
    requires |rest| == 0 || !IsDigit(rest[0])
    ensures Stoull(Decimal(n) + rest) == Success(n)
  {
    var d := Decimal(n);
    var s := d + rest;
    assert s[0] == d[0] && IsDigit(s[0]);
    assert SkipSpace(s) == s;
    assert !(s[0] == '+' || s[0] == '-');
    DigitRunOfDigits(d, rest);
    assert s[..|d|] == d;
    DecimalValue(n);
    assert DigitsValue(s[..DigitRun(s)]) == n;
  }

  lemma DecimalIsWord(n: nat)
    ensures IsWord(Decimal(n))
  {
    var s := Decimal(n);
    forall i | 0 <= i < |s|
      ensures !IsSpace(s[i])
    {
      assert IsDigit(s[i]);
    }
  }
}
