/** The pieces of Python's `str` and `int` that the port parser uses:
    `s.split(sep)`, `sep.join(parts)`, `int(s)` and `str(n)`. */
module PyStr {
  import opened Wrappers

  /** `s.split(sep)` with an explicit one-character separator: the pieces
      between separators, so there is one more piece than separators and
      `"".split(sep)` is `[""]`. */
  function Split(s: string, sep: char): (parts: seq<string>)
    ensures |parts| == Count(s, sep) + 1
    ensures forall k :: 0 <= k < |parts| ==> sep !in parts[k]
  {
    if s == [] then
      [[]]
    else
      var rest := Split(s[1..], sep);
      assert s == [s[0]] + s[1..];
      if s[0] == sep then
        [[]] + rest
      else
        [[s[0]] + rest[0]] + rest[1..]
  }

  /** The number of occurrences of c in s, `s.count(c)`. */
  function Count(s: string, c: char): nat
  {
    if s == [] then 0 else (if s[0] == c then 1 else 0) + Count(s[1..], c)
  }

  lemma {:induction false} CountPositive(s: string, c: char)
    requires Count(s, c) > 0
    ensures c in s
  {
    if s[0] != c {
      CountPositive(s[1..], c);
    }
  }

  /** `sep.join(parts)`. */
  function Join(parts: seq<string>, sep: char): string
  {
    if parts == [] then []
    else if |parts| == 1 then parts[0]
    else parts[0] + [sep] + Join(parts[1..], sep)
  }

  lemma {:induction false} SplitWithoutSeparator(s: string, sep: char)
    requires sep !in s
    ensures Split(s, sep) == [s]
  {
    if s != [] {
      SplitWithoutSeparator(s[1..], sep);
      assert [s[0]] + s[1..] == s;
    }
  }

  lemma {:induction false} SplitAfterPiece(p: string, sep: char, rest: string)
    requires sep !in p
    ensures Split(p + [sep] + rest, sep) == [p] + Split(rest, sep)
  {
    if p == [] {
      assert p + [sep] + rest == [sep] + rest;
    } else {
      var whole := p + [sep] + rest;
      assert whole[0] == p[0] && whole[1..] == p[1..] + [sep] + rest;
      SplitAfterPiece(p[1..], sep, rest);
      assert [p[0]] + p[1..] == p;
    }
  }

  /** Splitting a join recovers the pieces, provided no piece holds the
      separator. */
  lemma {:induction false} SplitJoin(parts: seq<string>, sep: char)
    requires |parts| >= 1
    requires forall k :: 0 <= k < |parts| ==> sep !in parts[k]
    ensures Split(Join(parts, sep), sep) == parts
  {
    if |parts| == 1 {
      SplitWithoutSeparator(parts[0], sep);
    } else {
      SplitAfterPiece(parts[0], sep, Join(parts[1..], sep));
      SplitJoin(parts[1..], sep);
    }
  }

  /** A text that starts with the separator has an empty first piece. */
  lemma SplitLeadingSeparator(s: string, sep: char)
    requires s != [] && s[0] == sep
    ensures Split(s, sep)[0] == []
  {
  }

  /** A text that ends with the separator has an empty last piece. */
  lemma {:induction false} SplitTrailingSeparator(s: string, sep: char)
    requires s != [] && s[|s| - 1] == sep
    ensures Split(s, sep)[|Split(s, sep)| - 1] == []
  {
    if |s| > 1 {
      assert s[1..][|s[1..]| - 1] == sep;
      SplitTrailingSeparator(s[1..], sep);
    }
  }

  /** The characters `int()` skips around a number: the ASCII white space
      `\t` to `\r` and the space, and the non-ASCII white space. The
      separators U+001C to U+001F are not among them, so `int()` rejects a
      number they surround. */
  predicate IsSpace(c: char)
  {
    || '\t' <= c <= '\r'
    || c == ' '
    || c == '\U{85}' || c == '\U{A0}' || c == '\U{1680}'
    || '\U{2000}' <= c <= '\U{200A}'
    || c == '\U{2028}' || c == '\U{2029}' || c == '\U{202F}' || c == '\U{205F}' || c == '\U{3000}'
  }

  predicate IsDigit(c: char)
  {
    '0' <= c <= '9'
  }

  function TrimLeft(s: string): string
  {
    if s != [] && IsSpace(s[0]) then TrimLeft(s[1..]) else s
  }

  function TrimRight(s: string): string
  {
    if s != [] && IsSpace(s[|s| - 1]) then TrimRight(s[..|s| - 1]) else s
  }

  function Strip(s: string): string
  {
    TrimRight(TrimLeft(s))
  }

  /** Stripping only removes characters. */
  lemma {:induction false} StripWithin(s: string, c: char)
    requires c in Strip(s)
    ensures c in s
  {
    TrimRightWithin(TrimLeft(s), c);
    TrimLeftWithin(s, c);
  }

  lemma {:induction false} TrimLeftWithin(s: string, c: char)
    requires c in TrimLeft(s)
    ensures c in s
  {
    if s != [] && IsSpace(s[0]) {
      TrimLeftWithin(s[1..], c);
    }
  }

  lemma {:induction false} TrimRightWithin(s: string, c: char)
    requires c in TrimRight(s)
    ensures c in s
  {
    if s != [] && IsSpace(s[|s| - 1]) {
      TrimRightWithin(s[..|s| - 1], c);
    }
  }

  /** The digit part accepted by `int(s)` in base 10: digits, with single
      underscores allowed between two digits. */
  predicate DigitRun(b: string)
  {
    && b != []
    && IsDigit(b[0])
    && IsDigit(b[|b| - 1])
    && DigitsAndUnderscores(b)
  }

  /** Only digits and single underscores, never two underscores in a row. */
  predicate DigitsAndUnderscores(b: string)
  {
    || b == []
    || (&& (IsDigit(b[0]) || b[0] == '_')
        && (|b| >= 2 ==> !(b[0] == '_' && b[1] == '_'))
        && DigitsAndUnderscores(b[1..]))
  }

  /** The value of a digit run, underscores ignored. */
  function DigitValue(b: string): nat
  {
    if b == [] then 0
    else
      var c := b[|b| - 1];
      if IsDigit(c) then DigitValue(b[..|b| - 1]) * 10 + (c - '0') as int
      else DigitValue(b[..|b| - 1])
  }

  /** `int(s)`: surrounding white space, an optional sign, then a digit run;
      anything else raises ValueError (None here). */
  function ParseInt(s: string): (r: Option<int>)
    ensures s == [] ==> r.None?
    ensures '-' !in s && r.Some? ==> r.value >= 0
  {
    var t := Strip(s);
    if t == [] then None
    else
      var signed := t[0] == '+' || t[0] == '-';
      var body := if signed then t[1..] else t;
      if !DigitRun(body) then None
      else if t[0] == '-' then
        assert t[0] in s by {
          StripWithin(s, t[0]);
        }
        var negative: int := 0 - DigitValue(body);
        Some(negative)
      else
        Some(DigitValue(body))
  }

  /** `str(n)` for a non-negative integer. */
  function Decimal(n: nat): (s: string)
    ensures s != []
    ensures forall k :: 0 <= k < |s| ==> IsDigit(s[k])
  {
    if n < 10 then ['0' + n as char]
    else Decimal(n / 10) + ['0' + (n % 10) as char]
  }

  lemma {:induction false} DecimalValue(n: nat)
    ensures DigitValue(Decimal(n)) == n
  {
    if n >= 10 {
      var s := Decimal(n);
      assert s[..|s| - 1] == Decimal(n / 10);
      DecimalValue(n / 10);
    }
  }

  lemma {:induction false} AllDigits(s: string)
    requires forall k :: 0 <= k < |s| ==> IsDigit(s[k])
    ensures DigitsAndUnderscores(s)
  {
    if s != [] {
      assert IsDigit(s[0]);
      AllDigits(s[1..]);
    }
  }

  /** `int(str(n)) == n`. */
  lemma ParseDecimal(n: nat)
    ensures ParseInt(Decimal(n)) == Some(n)
  {
    var s := Decimal(n);
    assert IsDigit(s[0]) && !IsSpace(s[0]);
    assert TrimLeft(s) == s;
    assert IsDigit(s[|s| - 1]) && !IsSpace(s[|s| - 1]);
    assert TrimRight(s) == s;
    assert Strip(s) == s;
    assert s[0] != '+' && s[0] != '-';
    AllDigits(s);
    assert DigitRun(s);
    DecimalValue(n);
  }
}
