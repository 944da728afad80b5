/**
 * The JavaScript string operations the modelled code calls: `trim`,
 * `replace` with a one-character pattern, `split` on one character, the
 * template-literal text of a number, and the global `parseInt`.
 */
module JsStrings {

  import opened JsValues

  /** ECMAScript WhiteSpace and LineTerminator code points: what `trim`
      removes and what `parseInt` skips at the front. */
  predicate IsWhiteSpace(c: char) {
    var n := c as int;
    || n == 0x09 || n == 0x0A || n == 0x0B || n == 0x0C || n == 0x0D
    || n == 0x20 || n == 0xA0 || n == 0x1680
    || (0x2000 <= n <= 0x200A)
    || n == 0x2028 || n == 0x2029 || n == 0x202F || n == 0x205F
    || n == 0x3000 || n == 0xFEFF
  }

  /** Every character is white space (the empty string included). */
  predicate IsBlank(s: string) {
    forall i :: 0 <= i < |s| ==> IsWhiteSpace(s[i])
  }

  /** Number of leading white-space characters. */
  function LeadingSpace(s: string): (k: nat)
    ensures k <= |s|
  {
    if |s| > 0 && IsWhiteSpace(s[0]) then 1 + LeadingSpace(s[1..]) else 0
  }

  /** `LeadingSpace` counts exactly the white space before the first other
      character. */
  lemma {:induction false} LeadingSpaceSpec(s: string)
    ensures IsBlank(s[..LeadingSpace(s)])
    ensures LeadingSpace(s) < |s| ==> !IsWhiteSpace(s[LeadingSpace(s)])
  {
    if |s| > 0 && IsWhiteSpace(s[0]) {
      LeadingSpaceSpec(s[1..]);
      assert s[..LeadingSpace(s)] == [s[0]] + s[1..][..LeadingSpace(s[1..])];
    }
  }

  /** Number of trailing white-space characters. */
  function TrailingSpace(s: string): (k: nat)
    ensures k <= |s|
  {
    if |s| > 0 && IsWhiteSpace(s[|s| - 1]) then 1 + TrailingSpace(s[..|s| - 1]) else 0
  }

  /** `TrailingSpace` counts exactly the white space after the last other
      character. */
  lemma {:induction false} TrailingSpaceSpec(s: string)
    ensures IsBlank(s[|s| - TrailingSpace(s)..])
    ensures TrailingSpace(s) < |s| ==> !IsWhiteSpace(s[|s| - TrailingSpace(s) - 1])
  {
    if |s| > 0 && IsWhiteSpace(s[|s| - 1]) {
      var p := s[..|s| - 1];
      var k := TrailingSpace(p);
      TrailingSpaceSpec(p);
      assert TrailingSpace(s) == k + 1;
      assert s == p + [s[|s| - 1]];
      var tail := s[|s| - (k + 1)..];
      assert tail == p[|p| - k..] + [s[|s| - 1]];
      forall n | 0 <= n < |tail| ensures IsWhiteSpace(tail[n]) {
        if n < k {
          assert tail[n] == p[|p| - k..][n];
        }
      }
      if k + 1 < |s| {
        assert s[|s| - (k + 1) - 1] == p[|p| - k - 1];
      }
    }
  }

  /** `s.trim()`: what is left neither starts nor ends with white space. */
  function Trim(s: string): (r: string)
    ensures |r| <= |s|
    ensures r != [] ==> !IsWhiteSpace(r[0]) && !IsWhiteSpace(r[|r| - 1])
  {
    var t := s[LeadingSpace(s)..];
    LeadingSpaceSpec(s);
    TrailingSpaceSpec(t);
    t[..|t| - TrailingSpace(t)]
  }

  /** `s.trim()` removes white space only, and only at the ends: the result
      is a piece of `s`, it neither starts nor ends with white space, and
      everything cut off around it is white space. */
  lemma TrimSpec(s: string)
    ensures exists i, j {:trigger s[i..j]} ::
              (0 <= i <= j <= |s| && Trim(s) == s[i..j] && IsBlank(s[..i]) && IsBlank(s[j..]))
    ensures Trim(s) != [] ==> !IsWhiteSpace(Trim(s)[0]) && !IsWhiteSpace(Trim(s)[|Trim(s)| - 1])
  {
    var i := LeadingSpace(s);
    var t := s[i..];
    LeadingSpaceSpec(s);
    TrailingSpaceSpec(t);
    var j := i + |t| - TrailingSpace(t);
    assert t[..|t| - TrailingSpace(t)] == s[i..j];
    assert s[j..] == t[|t| - TrailingSpace(t)..];
  }

  /** `s.trim() !== ''` holds exactly when `s` has a character other than
      white space. */
  lemma TrimEmptyIffBlank(s: string)
    ensures Trim(s) == [] <==> IsBlank(s)
  {
    var i := LeadingSpace(s);
    var t := s[i..];
    LeadingSpaceSpec(s);
    if i == |s| {
      assert s == s[..i];
      assert t == [];
    } else {
      assert !IsBlank(s) by { assert !IsWhiteSpace(s[i]); }
      var k := TrailingSpace(t);
      TrailingSpaceSpec(t);
      assert t[0] == s[i];
      NotBlankFromHead(t, k);
      assert Trim(s) == t[..|t| - k];
    }
  }

  /** A suffix that reaches back to a character other than white space is
      not blank. */
  lemma NotBlankFromHead(t: string, k: nat)
    requires k <= |t| && t != [] && !IsWhiteSpace(t[0])
    ensures k < |t| || !IsBlank(t[|t| - k..])
  {
    assert k == |t| ==> t[|t| - k..][0] == t[0];
  }

  /** A string that neither starts nor ends with white space is its own trim. */
  lemma TrimNoSpace(s: string)
    requires s != [] ==> !IsWhiteSpace(s[0]) && !IsWhiteSpace(s[|s| - 1])
    ensures Trim(s) == s
  {
    assert LeadingSpace(s) == 0;
    assert s[0..] == s;
    assert TrailingSpace(s) == 0;
  }

  /** Index of the first `c` in `s`, or `|s|` when there is none. */
  function IndexOf(s: string, c: char): (i: nat)
    ensures i <= |s|
    ensures c !in s[..i]
    ensures i < |s| ==> s[i] == c
    ensures i == |s| <==> c !in s
  {
    if |s| == 0 then 0
    else if s[0] == c then 0
    else 1 + IndexOf(s[1..], c)
  }

  /** `s.replace(c, repl)` with a one-character string pattern: only the
      FIRST occurrence is replaced. */
  function ReplaceFirst(s: string, c: char, repl: string): (r: string)
    ensures c !in s ==> r == s
    ensures c in s ==> |r| == |s| - 1 + |repl|
  {
    if s == [] then []
    else if s[0] == c then repl + s[1..]
    else [s[0]] + ReplaceFirst(s[1..], c, repl)
  }

  /** The first `c` is replaced, everything around it is kept. */
  lemma {:induction false} ReplaceFirstAt(s: string, c: char, repl: string)
    requires c in s
    ensures ReplaceFirst(s, c, repl) == s[..IndexOf(s, c)] + repl + s[IndexOf(s, c) + 1..]
  {
    if s[0] != c {
      assert c in s[1..];
      ReplaceFirstAt(s[1..], c, repl);
      assert s[..IndexOf(s, c)] == [s[0]] + s[1..][..IndexOf(s[1..], c)];
    }
  }

  /** Replacing removes exactly one `c` and adds the characters of `repl`. */
  lemma ReplaceFirstContents(s: string, c: char, repl: string)
    requires c in s
    ensures multiset(ReplaceFirst(s, c, repl)) == multiset(s) - multiset{c} + multiset(repl)
  {
    var i := IndexOf(s, c);
    ReplaceFirstAt(s, c, repl);
    assert s == s[..i] + [s[i]] + s[i + 1..];
  }

  /** Text before the first `c` is kept as it is. */
  lemma ReplaceFirstKeepsPrefix(s: string, c: char, repl: string)
    requires c in s
    ensures ReplaceFirst(s, c, repl)[..IndexOf(s, c)] == s[..IndexOf(s, c)]
    ensures ReplaceFirst(s, c, repl)[IndexOf(s, c) + |repl|..] == s[IndexOf(s, c) + 1..]
  {
    ReplaceFirstAt(s, c, repl);
  }

  /** When `p` has no `c`, the `c` right after `p` is the one replaced. */
  lemma ReplaceFirstAfter(p: string, c: char, repl: string, rest: string)
    requires c !in p
    ensures ReplaceFirst(p + [c] + rest, c, repl) == p + repl + rest
  {
    var s := p + [c] + rest;
    IndexOfAfter(p, c, rest);
    assert s[|p|] == c;
    ReplaceFirstAt(s, c, repl);
    assert s[..|p|] == p;
    assert s[|p| + 1..] == rest;
  }

  /** `s.split(sep)` with a one-character separator: the pieces between
      separators, empty pieces included, and always at least one piece. */
  function Split(s: string, sep: char): (parts: seq<string>)
    ensures |parts| >= 1
    ensures forall k :: 0 <= k < |parts| ==> sep !in parts[k]
    decreases |s|
  {
    var i := IndexOf(s, sep);
    if i == |s| then [s] else [s[..i]] + Split(s[i + 1..], sep)
  }

  /** `parts.join(sep)` */
  function Join(parts: seq<string>, sep: char): string
    requires |parts| >= 1
  {
    if |parts| == 1 then parts[0] else parts[0] + [sep] + Join(parts[1..], sep)
  }

  /** Splitting loses nothing: joining the pieces back gives the input. */
  lemma {:induction false} JoinSplit(s: string, sep: char)
    ensures Join(Split(s, sep), sep) == s
    decreases |s|
  {
    var i := IndexOf(s, sep);
    if i == |s| {
      assert Split(s, sep) == [s];
    } else {
      var p, rest := s[..i], s[i + 1..];
      assert s == p + [sep] + rest;
      SplitCons(p, sep, rest);
      JoinSplit(rest, sep);
      var parts := [p] + Split(rest, sep);
      assert parts[0] == p && parts[1..] == Split(rest, sep);
      assert Join(parts, sep) == p + [sep] + Join(Split(rest, sep), sep);
    }
  }

  /** A character absent from the input is absent from every piece. */
  lemma {:induction false} SplitPiecesAvoid(s: string, sep: char, c: char)
    requires c !in s
    ensures forall k :: 0 <= k < |Split(s, sep)| ==> c !in Split(s, sep)[k]
    decreases |s|
  {
    var i := IndexOf(s, sep);
    if i < |s| {
      var rest := Split(s[i + 1..], sep);
      assert c !in s[..i] by {
        forall n | 0 <= n < i ensures s[..i][n] != c { assert s[..i][n] == s[n]; }
      }
      var after := s[i + 1..];
      assert c !in after by {
        forall n | 0 <= n < |after| ensures after[n] != c { assert after[n] == s[i + 1 + n]; }
      }
      SplitPiecesAvoid(s[i + 1..], sep, c);
      assert Split(s, sep) == [s[..i]] + rest;
    }
  }

  lemma {:induction false} IndexOfAfter(p: string, sep: char, rest: string)
    requires sep !in p
    ensures IndexOf(p + [sep] + rest, sep) == |p|
    decreases |p|
  {
    var s := p + [sep] + rest;
    if |p| > 0 {
      assert s[1..] == p[1..] + [sep] + rest;
      IndexOfAfter(p[1..], sep, rest);
    }
  }

  /** A separator-free piece followed by the separator splits off as one piece. */
  lemma SplitCons(p: string, sep: char, rest: string)
    requires sep !in p
    ensures Split(p + [sep] + rest, sep) == [p] + Split(rest, sep)
  {
    var s := p + [sep] + rest;
    IndexOfAfter(p, sep, rest);
    assert s[..|p|] == p;
    assert s[|p| + 1..] == rest;
  }

  /** Pieces free of the separator come back unchanged from a join-then-split. */
  lemma {:induction false} SplitJoin(parts: seq<string>, sep: char)
    requires |parts| >= 1
    requires forall k :: 0 <= k < |parts| ==> sep !in parts[k]
    ensures Split(Join(parts, sep), sep) == parts
    decreases |parts|
  {
    if |parts| == 1 {
      assert sep !in Join(parts, sep);
    } else {
      var rest := Join(parts[1..], sep);
      assert sep !in parts[0];
      SplitCons(parts[0], sep, rest);
      SplitJoin(parts[1..], sep);
      assert parts == [parts[0]] + parts[1..];
    }
  }

  // ---------------------------------------------------------------- digits

  predicate IsDigit(c: char, radix: nat) {
    if radix == 16 then
      ('0' <= c <= '9') || ('a' <= c <= 'f') || ('A' <= c <= 'F')
    else
      '0' <= c <= '9'
  }

  function DigitValue(c: char): (d: nat)
    ensures '0' <= c <= '9' ==> d < 10
  {
    if '0' <= c <= '9' then c as int - '0' as int
    else if 'a' <= c <= 'f' then c as int - 'a' as int + 10
    else if 'A' <= c <= 'F' then c as int - 'A' as int + 10
    else 0
  }

  /** Length of the longest prefix of `s` made of radix digits. */
  function DigitPrefix(s: string, radix: nat): (k: nat)
    ensures k <= |s|
    ensures forall i :: 0 <= i < k ==> IsDigit(s[i], radix)
    ensures k < |s| ==> !IsDigit(s[k], radix)
  {
    if |s| > 0 && IsDigit(s[0], radix) then 1 + DigitPrefix(s[1..], radix) else 0
  }

  /** The integer a digit string denotes, most significant digit first. */
  function DigitsValue(z: string, radix: nat): nat
  {
    if z == [] then 0 else DigitsValue(z[..|z| - 1], radix) * radix + DigitValue(z[|z| - 1])
  }

  /** The global `parseInt(s)` with no radix (section 19.2.5 of ECMA-262):
      skip leading white space, read an optional sign, switch to base 16
      after `0x`/`0X`, read the longest run of digits and ignore the rest;
      NaN when there is no digit. */
  function ParseInt(s: string): (r: Number)
    ensures r.Fin? ==> Truncate(r.v) as real == r.v
  {
    var t := s[LeadingSpace(s)..];
    var negative := |t| > 0 && t[0] == '-';
    var u := if |t| > 0 && (t[0] == '-' || t[0] == '+') then t[1..] else t;
    var hex := |u| >= 2 && u[0] == '0' && (u[1] == 'x' || u[1] == 'X');
    var radix := if hex then 16 else 10;
    var w := if hex then u[2..] else u;
    var z := w[..DigitPrefix(w, radix)];
    if z == [] then NaN
    else
      var m: int := DigitsValue(z, radix);
      var k := if negative then -m else m;
      TruncateInteger(k);
      Fin(k as real)
  }

  function DigitChar(d: nat): (c: char)
    requires d < 10
    ensures '0' <= c <= '9' && DigitValue(c) == d
  {
    (d + '0' as int) as char
  }

  /** The text `${n}` of a non-negative integer below 10^21: its decimal
      digits with no leading zero. (From 10^21 on JavaScript switches to
      exponent notation, which this function does not produce.) */
  function DecimalString(n: nat): (s: string)
    ensures |s| >= 1
    ensures forall i :: 0 <= i < |s| ==> '0' <= s[i] <= '9'
    ensures |s| > 1 ==> s[0] != '0'
  {
    if n < 10 then [DigitChar(n)] else DecimalString(n / 10) + [DigitChar(n % 10)]
  }

  lemma {:induction false} DecimalStringValue(n: nat)
    ensures DigitsValue(DecimalString(n), 10) == n
  {
    if n >= 10 {
      var s := DecimalString(n);
      assert s[..|s| - 1] == DecimalString(n / 10);
      DecimalStringValue(n / 10);
    }
  }

  /** `parseInt` reads back the number whose text `${n}` it is given. */
  lemma ParseIntDecimal(n: nat)
    ensures ParseInt(DecimalString(n)) == Fin(n as real)
  {
    ParseIntDigits(DecimalString(n));
    DecimalStringValue(n);
  }

  /** Every character of `s` is a decimal digit. */
  predicate AllDigits(s: string) {
    forall i :: 0 <= i < |s| ==> '0' <= s[i] <= '9'
  }

  /** `parseInt` of a non-empty run of decimal digits is the number they
      denote. */
  lemma ParseIntDigits(s: string)
    requires s != [] && AllDigits(s)
    ensures ParseInt(s) == Fin(DigitsValue(s, 10) as real)
  {
    assert !IsWhiteSpace(s[0]);
    assert LeadingSpace(s) == 0;
    assert s[0..] == s;
    assert DigitPrefix(s, 10) == |s|;
    assert s[..|s|] == s;
  }

  lemma ParseIntExample()
    ensures ParseInt("30") == Fin(30.0)
  {
    assert DecimalString(30) == "30" by {
      assert DigitChar(3) == '3' && DigitChar(0) == '0';
      assert DecimalString(3) == "3";
      assert "3" + "0" == "30";
    }
    ParseIntDecimal(30);
  }
}
