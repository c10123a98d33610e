/**
 * The JavaScript string built-ins the `.rnw` parser relies on, written out as
 * functions: the `\s` class and `String.prototype.trim`, `split` on one
 * character, the `filter` that drops empty tokens, `replace(/"/g, '')` and the
 * global `parseInt` with no radix argument.
 */
module JsText {

  /** A JavaScript number as far as the parser produces one: an integer-valued
      real (the result of `parseInt`, or a rank such as 1.25) or NaN. */
  datatype Number = Finite(value: real) | NaN

  /** ECMAScript WhiteSpace and LineTerminator code points: what `\s` matches and
      what `trim` removes. */
  predicate IsWhite(c: char)
  {
    var u := c as int;
    (0x09 <= u <= 0x0D) || u == 0x20 || u == 0xA0 || u == 0x1680
    || (0x2000 <= u <= 0x200A) || u == 0x2028 || u == 0x2029 || u == 0x202F
    || u == 0x205F || u == 0x3000 || u == 0xFEFF
  }

  /** Length of the longest all-whitespace prefix of `s`: what `^(\s+)` captures
      when it matches, 0 when it does not. */
  function LeadingWhitespace(s: string): (n: nat)
    ensures n <= |s|
    ensures forall i :: 0 <= i < n ==> IsWhite(s[i])
    ensures n < |s| ==> !IsWhite(s[n])
  {
    if |s| == 0 || !IsWhite(s[0]) then 0 else 1 + LeadingWhitespace(s[1..])
  }

  /** Length of the longest all-whitespace suffix of `s`. */
  function TrailingWhitespace(s: string): (n: nat)
    ensures n <= |s|
    ensures forall i :: |s| - n <= i < |s| ==> IsWhite(s[i])
    ensures n < |s| ==> !IsWhite(s[|s| - 1 - n])
  {
    if |s| == 0 || !IsWhite(s[|s| - 1]) then 0
    else 1 + TrailingWhitespace(s[..|s| - 1])
  }

  /** `s.trim()`: `s` with its leading and trailing whitespace removed. */
  function Trim(s: string): (r: string)
    ensures LeadingWhitespace(s) + |r| <= |s|
    ensures r == s[LeadingWhitespace(s)..LeadingWhitespace(s) + |r|]
    ensures forall i :: LeadingWhitespace(s) + |r| <= i < |s| ==> IsWhite(s[i])
    ensures |r| > 0 ==> !IsWhite(r[0]) && !IsWhite(r[|r| - 1])
  {
    var t := s[LeadingWhitespace(s)..];
    t[..|t| - TrailingWhitespace(t)]
  }

  /** `s.split(sep)` for a one-character separator: the maximal pieces between
      separators, empty pieces included. */
  function Split(s: string, sep: char): (parts: seq<string>)
    ensures |parts| >= 1
    ensures forall i :: 0 <= i < |parts| ==> sep !in parts[i]
  {
    if |s| == 0 then [""]
    else
      var rest := Split(s[1..], sep);
      if s[0] == sep then [""] + rest
      else [[s[0]] + rest[0]] + rest[1..]
  }

  /** `parts.join(sep)`: the inverse of `Split`. */
  function Join(parts: seq<string>, sep: char): string
    requires |parts| >= 1
  {
    if |parts| == 1 then parts[0] else parts[0] + [sep] + Join(parts[1..], sep)
  }

  /** Splitting loses nothing: joining the pieces gives the string back. */
  lemma {:induction false} JoinSplit(s: string, sep: char)
    ensures Join(Split(s, sep), sep) == s
  {
    if |s| > 0 {
      JoinSplit(s[1..], sep);
      var rest := Split(s[1..], sep);
      if s[0] != sep && |rest| > 1 {
        assert Join(rest, sep) == rest[0] + [sep] + Join(rest[1..], sep);
        assert Split(s, sep)[1..] == rest[1..];
      }
    }
  }

  /** A separator-free string is one piece. */
  lemma {:induction false} SplitWhole(p: string, sep: char)
    requires sep !in p
    ensures Split(p, sep) == [p]
  {
    if |p| > 0 {
      SplitWhole(p[1..], sep);
      assert [p[0]] + p[1..] == p;
    }
  }

  /** A separator-free prefix followed by a separator is the first piece. */
  lemma {:induction false} SplitFirst(p: string, sep: char, t: string)
    requires sep !in p
    ensures Split(p + [sep] + t, sep) == [p] + Split(t, sep)
  {
    if |p| == 0 {
      assert p + [sep] + t == [sep] + t;
      assert ([sep] + t)[1..] == t;
    } else {
      var s := p + [sep] + t;
      assert s[0] == p[0] && s[0] != sep;
      assert s[1..] == p[1..] + [sep] + t;
      SplitFirst(p[1..], sep, t);
      var rest := Split(s[1..], sep);
      assert rest == [p[1..]] + Split(t, sep);
      assert Split(s, sep) == [[p[0]] + rest[0]] + rest[1..];
      assert [p[0]] + p[1..] == p;
      assert rest[1..] == Split(t, sep);
    }
  }

  /** Joining separator-free pieces and splitting again gives the pieces back. */
  lemma {:induction false} SplitJoin(parts: seq<string>, sep: char)
    requires |parts| >= 1
    requires forall i :: 0 <= i < |parts| ==> sep !in parts[i]
    ensures Split(Join(parts, sep), sep) == parts
  {
    if |parts| == 1 {
      SplitWhole(parts[0], sep);
    } else {
      SplitJoin(parts[1..], sep);
      SplitFirst(parts[0], sep, Join(parts[1..], sep));
      assert [parts[0]] + parts[1..] == parts;
    }
  }

  /** `s.split(sep).slice(-1).pop()`: the last piece of `s`. */
  function LastPiece(s: string, sep: char): string
  {
    var parts := Split(s, sep);
    parts[|parts| - 1]
  }

  /** The last piece is the text after the last separator (all of `s` when it
      has none). */
  lemma {:induction false} LastPieceIsSuffix(s: string, sep: char)
    ensures var t := LastPiece(s, sep);
      |t| <= |s| && s[|s| - |t|..] == t && sep !in t
      && (|t| < |s| ==> s[|s| - |t| - 1] == sep)
  {
    var parts := Split(s, sep);
    var t := parts[|parts| - 1];
    JoinSplit(s, sep);
    if |parts| > 1 {
      JoinLast(parts, sep);
      var init := Join(parts[..|parts| - 1], sep);
      assert s == init + [sep] + t;
      assert s[|s| - |t|..] == t;
    }
  }

  /** The last piece of a join follows the last separator. */
  lemma {:induction false} JoinLast(parts: seq<string>, sep: char)
    requires |parts| > 1
    ensures Join(parts, sep) == Join(parts[..|parts| - 1], sep) + [sep] + parts[|parts| - 1]
  {
    if |parts| > 2 {
      JoinLast(parts[1..], sep);
      assert parts[1..][..|parts| - 2] == parts[..|parts| - 1][1..];
    }
  }

  /** The `filter(element => element.length > 0)` applied to a token list. */
  function NonEmpty(ts: seq<string>): (r: seq<string>)
    ensures |r| <= |ts|
    ensures forall i :: 0 <= i < |r| ==> |r[i]| > 0
    ensures (forall i :: 0 <= i < |ts| ==> |ts[i]| > 0) ==> r == ts
  {
    if |ts| == 0 then []
    else
      (if |ts[0]| > 0 then [ts[0]] else []) + NonEmpty(ts[1..])
  }

  /** Filtering distributes over concatenation, so it keeps the tokens' order. */
  lemma {:induction false} NonEmptyAppend(a: seq<string>, b: seq<string>)
    ensures NonEmpty(a + b) == NonEmpty(a) + NonEmpty(b)
  {
    if |a| > 0 {
      NonEmptyAppend(a[1..], b);
      assert (a + b)[1..] == a[1..] + b;
    } else {
      assert a + b == b;
    }
  }

  /** Filtering keeps only tokens of the list, so what no token holds, no kept
      token holds. */
  lemma {:induction false} NonEmptyWithout(ts: seq<string>, c: char)
    requires forall i :: 0 <= i < |ts| ==> c !in ts[i]
    ensures forall i :: 0 <= i < |NonEmpty(ts)| ==> c !in NonEmpty(ts)[i]
  {
    if |ts| > 0 {
      NonEmptyWithout(ts[1..], c);
    }
  }

  /** A non-empty last token is the last token kept. */
  lemma NonEmptyKeepsLast(ts: seq<string>)
    requires |ts| >= 1 && |ts[|ts| - 1]| > 0
    ensures var r := NonEmpty(ts);
      |r| > 0 && r[|r| - 1] == ts[|ts| - 1]
  {
  }

  /** `s.replace(/"/g, '')`: `s` without its double quotes, every other
      character kept, in order. */
  function Unquote(s: string): (r: string)
    ensures forall i :: 0 <= i < |r| ==> r[i] != '"'
    ensures |r| <= |s|
    ensures (forall i :: 0 <= i < |s| ==> s[i] != '"') ==> r == s
  {
    if |s| == 0 then []
    else (if s[0] == '"' then [] else [s[0]]) + Unquote(s[1..])
  }

  /** Every character but the double quote is kept, as often as it occurs. */
  lemma {:induction false} UnquoteKeeps(s: string)
    ensures multiset(Unquote(s)) == multiset(s)['"' := 0]
  {
    if |s| > 0 {
      var t := s[1..];
      UnquoteKeeps(t);
      assert s == [s[0]] + t;
      UnquoteCons(s[0], t);
    }
  }

  /** A non-empty string before `b` is its first character before the rest and `b`. */
  lemma ConcatHead(a: string, b: string)
    requires |a| > 0
    ensures a + b == [a[0]] + (a[1..] + b)
  {
  }

  /** The first character is dropped if it is a quote and kept otherwise. */
  lemma UnquoteCons(c: char, t: string)
    ensures Unquote([c] + t) == (if c == '"' then [] else [c]) + Unquote(t)
  {
    assert ([c] + t)[1..] == t;
  }

  /** Removing quotes works piece by piece, so the characters kept from `a`
      come before those kept from `b`, each in their original order. */
  lemma {:induction false} UnquoteAppend(a: string, b: string)
    ensures Unquote(a + b) == Unquote(a) + Unquote(b)
  {
    if |a| > 0 {
      var t := a[1..];
      UnquoteAppend(t, b);
      ConcatHead(a, b);
      UnquoteCons(a[0], t + b);
      var head: string := if a[0] == '"' then [] else [a[0]];
      assert head + (Unquote(t) + Unquote(b)) == (head + Unquote(t)) + Unquote(b);
    } else {
      assert a + b == b;
    }
  }

  /** A name written between double quotes, as the rows carry attribute names,
      is read as the text between them. */
  lemma QuotedName(w: string)
    requires '"' !in w
    ensures Unquote("\"" + w + "\"") == w
  {
    UnquoteAppend("\"" + w, "\"");
    UnquoteAppend("\"", w);
  }

  /** Value of `c` as a digit in radices up to 36; 36 when it is no digit. */
  function DigitValue(c: char): nat
  {
    if '0' <= c <= '9' then c as int - '0' as int
    else if 'a' <= c <= 'z' then c as int - 'a' as int + 10
    else if 'A' <= c <= 'Z' then c as int - 'A' as int + 10
    else 36
  }

  predicate IsDigit(c: char, radix: nat)
  {
    DigitValue(c) < radix
  }

  /** Index of the first character at or after i that is not whitespace. */
  function SkipWhite(s: string, i: nat): (j: nat)
    requires i <= |s|
    ensures i <= j <= |s|
    decreases |s| - i
  {
    if i < |s| && IsWhite(s[i]) then SkipWhite(s, i + 1) else i
  }

  /** Index of the first character at or after i that is not a radix digit. */
  function SkipDigits(s: string, i: nat, radix: nat): (j: nat)
    requires i <= |s|
    ensures i <= j <= |s|
    decreases |s| - i
  {
    if i < |s| && IsDigit(s[i], radix) then SkipDigits(s, i + 1, radix) else i
  }

  /** The value of the digits s[lo..hi], most significant first. */
  function DigitsValue(s: string, lo: nat, hi: nat, radix: nat): nat
    requires lo <= hi <= |s|
    decreases hi - lo
  {
    if hi == lo then 0 else DigitsValue(s, lo, hi - 1, radix) * radix + DigitValue(s[hi - 1])
  }

  /**
   * The global `parseInt(s)` with no radix: skip leading whitespace, take an
   * optional sign, read hexadecimal after a `0x`/`0X` prefix and decimal
   * otherwise, stop at the first non-digit; NaN when no digit was read.
   */
  function ParseInt(s: string): Number
  {
    var i := SkipWhite(s, 0);
    var negative := i < |s| && s[i] == '-';
    var j := if i < |s| && (s[i] == '-' || s[i] == '+') then i + 1 else i;
    var hex := j + 1 < |s| && s[j] == '0' && (s[j + 1] == 'x' || s[j + 1] == 'X');
    var radix := if hex then 16 else 10;
    var start := if hex then j + 2 else j;
    var end := SkipDigits(s, start, radix);
    if end == start then NaN
    else
      var m := DigitsValue(s, start, end, radix);
      Finite(if negative then -(m as real) else m as real)
  }

  function DigitChar(d: nat): char
    requires d < 10
  {
    ('0' as int + d) as char
  }

  /** Decimal digits of `n`, most significant first, without leading zeros. */
  function Digits(n: nat): (r: string)
    ensures |r| >= 1
    ensures forall i :: 0 <= i < |r| ==> '0' <= r[i] <= '9'
  {
    if n < 10 then [DigitChar(n)] else Digits(n / 10) + [DigitChar(n % 10)]
  }

  /** `String(n)` for an integer: the reference printer `ParseInt` inverts. */
  function Decimal(n: int): string
  {
    if n < 0 then "-" + Digits(-n) else Digits(n)
  }

  /** A decimal digit string embedded at `lo` is read to its end and to its value. */
  lemma {:induction false} ReadDigits(s: string, lo: nat, n: nat)
    requires lo + |Digits(n)| == |s|
    requires s[lo..] == Digits(n)
    ensures SkipDigits(s, lo, 10) == |s|
    ensures DigitsValue(s, lo, |s|, 10) == n
  {
    var ds := Digits(n);
    assert s[lo] == ds[0];
    if n < 10 {
      assert SkipDigits(s, lo + 1, 10) == |s|;
    } else {
      var hi := |s| - 1;
      assert s[..hi][lo..] == Digits(n / 10) by {
        assert ds[..|ds| - 1] == Digits(n / 10);
      }
      ReadDigits(s[..hi], lo, n / 10);
      SkipDigitsExtend(s, lo, 10);
      DigitsValuePrefix(s, lo, hi, 10);
      assert s[hi] == ds[|ds| - 1];
    }
  }

  /** Scanning a prefix that ends in a digit run runs on into the extension. */
  lemma {:induction false} SkipDigitsExtend(s: string, i: nat, radix: nat)
    requires i < |s|
    requires SkipDigits(s[..|s| - 1], i, radix) == |s| - 1
    requires IsDigit(s[|s| - 1], radix)
    ensures SkipDigits(s, i, radix) == |s|
    decreases |s| - i
  {
    if i < |s| - 1 {
      assert s[..|s| - 1][i] == s[i];
      SkipDigitsExtend(s, i + 1, radix);
    }
  }

  /** The value of s[lo..hi] does not depend on what follows hi. */
  lemma {:induction false} DigitsValuePrefix(s: string, lo: nat, hi: nat, radix: nat)
    requires lo <= hi <= |s|
    ensures DigitsValue(s[..hi], lo, hi, radix) == DigitsValue(s, lo, hi, radix)
    decreases hi - lo
  {
    if hi > lo {
      assert s[..hi][..hi - 1] == s[..hi - 1];
      DigitsValuePrefix(s, lo, hi - 1, radix);
      DigitsValuePrefix(s[..hi], lo, hi - 1, radix);
    }
  }

  /** `parseInt` reads back every integer the decimal printer writes. */
  lemma ParseIntDecimal(n: int)
    ensures ParseInt(Decimal(n)) == Finite(n as real)
  {
    var m: nat := if n < 0 then -n else n;
    var s := Decimal(n);
    var lo := if n < 0 then 1 else 0;
    assert s[lo..] == Digits(m);
    ReadDigits(s, lo, m);
    assert s[0] == '-' || '0' <= s[0] <= '9';
    assert SkipWhite(s, 0) == 0;
    assert !(lo + 1 < |s| && (s[lo + 1] == 'x' || s[lo + 1] == 'X'));
  }
}
