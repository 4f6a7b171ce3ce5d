/** String primitives of the JavaScript runtime that the modelled code relies
    on: `trim`, `startsWith`/`endsWith`, `split` on one character, `join`,
    `lastIndexOf`, `toLowerCase` (ASCII letters), `padStart`, and the
    decimal and hexadecimal renderings of `Number.prototype.toString`. */
module Text {

  /** JavaScript WhiteSpace and LineTerminator code points, the set `trim` strips. */
  const Spaces: set<char> := {
    '\t', '\n', '\U{0B}', '\U{0C}', '\r', ' ', '\U{A0}', '\U{1680}',
    '\U{2000}', '\U{2001}', '\U{2002}', '\U{2003}', '\U{2004}', '\U{2005}',
    '\U{2006}', '\U{2007}', '\U{2008}', '\U{2009}', '\U{200A}',
    '\U{2028}', '\U{2029}', '\U{202F}', '\U{205F}', '\U{3000}', '\U{FEFF}'
  }

  predicate IsSpace(c: char) {
    c in Spaces
  }

  /** No leading and no trailing white space. */
  predicate IsTrimmed(s: string) {
    s == [] || (!IsSpace(s[0]) && !IsSpace(s[|s| - 1]))
  }

  function TrimStart(s: string): (r: string)
    ensures |r| <= |s|
  {
    if s != [] && IsSpace(s[0]) then TrimStart(s[1..]) else s
  }

  /** `TrimStart` drops exactly the leading white space. */
  lemma {:induction false} TrimStartSpec(s: string)
    ensures TrimStart(s) == s[|s| - |TrimStart(s)|..]
    ensures TrimStart(s) == [] || !IsSpace(TrimStart(s)[0])
    ensures forall i :: 0 <= i < |s| - |TrimStart(s)| ==> IsSpace(s[i])
  {
    if s != [] && IsSpace(s[0]) {
      TrimStartSpec(s[1..]);
    }
  }

  function TrimEnd(s: string): (r: string)
    ensures |r| <= |s| && r == s[..|r|]
    ensures r == [] || !IsSpace(r[|r| - 1])
    ensures forall i :: |r| <= i < |s| ==> IsSpace(s[i])
  {
    if s != [] && IsSpace(s[|s| - 1]) then TrimEnd(s[..|s| - 1]) else s
  }

  /** `String.prototype.trim`. */
  function Trim(s: string): (r: string)
    ensures IsTrimmed(r)
    ensures |r| <= |s|
  {
    TrimStartSpec(s);
    TrimEnd(TrimStart(s))
  }

  lemma TrimStartOfNoLeadingSpace(s: string)
    requires s == [] || !IsSpace(s[0])
    ensures TrimStart(s) == s
  {
  }

  lemma TrimEndOfNoTrailingSpace(s: string)
    requires s == [] || !IsSpace(s[|s| - 1])
    ensures TrimEnd(s) == s
  {
  }

  /** Trimming leaves an already trimmed string alone; hence `Trim` is idempotent. */
  lemma TrimOfTrimmed(s: string)
    requires IsTrimmed(s)
    ensures Trim(s) == s
  {
    TrimStartOfNoLeadingSpace(s);
    TrimEndOfNoTrailingSpace(s);
  }

  lemma TrimIdempotent(s: string)
    ensures Trim(Trim(s)) == Trim(s)
  {
    TrimOfTrimmed(Trim(s));
  }

  /** A trailing space character does not change the trimmed string. */
  lemma TrimDropsTrailingSpace(s: string, c: char)
    requires IsSpace(c)
    ensures Trim(s + [c]) == Trim(s)
  {
    TrimStartAppend(s, c);
    if TrimStart(s) != [] {
      var u := TrimStart(s) + [c];
      assert u[..|u| - 1] == TrimStart(s);
    }
  }

  lemma {:induction false} TrimStartAppend(s: string, c: char)
    requires IsSpace(c)
    ensures TrimStart(s + [c]) == if TrimStart(s) == [] then [] else TrimStart(s) + [c]
  {
    if s == [] {
      assert [c][1..] == [];
    } else if IsSpace(s[0]) {
      assert (s + [c])[1..] == s[1..] + [c];
      TrimStartAppend(s[1..], c);
    }
  }

  predicate StartsWith(s: string, prefix: string) {
    |prefix| <= |s| && s[..|prefix|] == prefix
  }

  predicate EndsWith(s: string, suffix: string) {
    |suffix| <= |s| && s[|s| - |suffix|..] == suffix
  }

  /** `Array.prototype.join(sep)`. */
  function Join(parts: seq<string>, sep: string): string {
    if |parts| == 0 then "" else if |parts| == 1 then parts[0]
    else parts[0] + sep + Join(parts[1..], sep)
  }

  lemma JoinAppend(parts: seq<string>, last: string, sep: string)
    requires parts != []
    ensures Join(parts + [last], sep) == Join(parts, sep) + sep + last
  {
    if |parts| == 1 {
      assert parts + [last] == [parts[0], last];
    } else {
      assert (parts + [last])[1..] == parts[1..] + [last];
      JoinAppend(parts[1..], last, sep);
    }
  }

  /** Index of the first occurrence of `c`, or `|s|` when there is none. */
  function IndexOf(s: string, c: char): (i: nat)
    ensures i <= |s|
    ensures i < |s| ==> s[i] == c
  {
    if s == [] then 0 else if s[0] == c then 0 else 1 + IndexOf(s[1..], c)
  }

  /** `String.prototype.lastIndexOf` for one character: -1 when absent. */
  function LastIndexOf(s: string, c: char): (i: int)
    ensures -1 <= i < |s|
    ensures 0 <= i ==> s[i] == c
  {
    if s == [] then -1 else if s[|s| - 1] == c then |s| - 1 else LastIndexOf(s[..|s| - 1], c)
  }

  /** `String.prototype.split(c)` for a one-character separator. */
  function Split(s: string, c: char): (parts: seq<string>)
    ensures |parts| >= 1
    decreases |s|
  {
    var i := IndexOf(s, c);
    if i == |s| then [s] else [s[..i]] + Split(s[i + 1..], c)
  }

  /** `IndexOf` finds the character exactly when it occurs. */
  lemma IndexOfFound(s: string, c: char)
    ensures IndexOf(s, c) < |s| <==> c in s
  {
    IndexOfPrefix(s, c);
    if IndexOf(s, c) == |s| {
      assert s[..|s|] == s;
    }
  }

  /** `LastIndexOf` finds the character exactly when it occurs. */
  lemma LastIndexOfFound(s: string, c: char)
    ensures LastIndexOf(s, c) >= 0 <==> c in s
  {
    LastIndexOfSuffix(s, c);
    if LastIndexOf(s, c) == -1 {
      assert s[0..] == s;
    }
  }

  /** No piece of a split contains the separator. */
  lemma {:induction false} SplitPieces(s: string, c: char)
    ensures forall k :: 0 <= k < |Split(s, c)| ==> c !in Split(s, c)[k]
    decreases |s|
  {
    var i := IndexOf(s, c);
    IndexOfFound(s, c);
    IndexOfPrefix(s, c);
    if i < |s| {
      var rest := s[i + 1..];
      SplitPieces(rest, c);
      assert Split(s, c) == [s[..i]] + Split(rest, c);
    }
  }

  /** Splitting and joining with the same character gives the string back. */
  lemma {:induction false} JoinSplit(s: string, c: char)
    ensures Join(Split(s, c), [c]) == s
    decreases |s|
  {
    var i := IndexOf(s, c);
    if i < |s| {
      var rest := s[i + 1..];
      JoinSplit(rest, c);
      assert Split(s, c) == [s[..i]] + Split(rest, c);
      JoinCons(s[..i], Split(rest, c), [c]);
      Around(s, i);
    } else {
      assert Split(s, c) == [s];
    }
  }

  /** Joining separator-free pieces and splitting again gives the pieces back. */
  lemma {:induction false} SplitJoin(parts: seq<string>, c: char)
    requires parts != []
    requires forall k :: 0 <= k < |parts| ==> c !in parts[k]
    ensures Split(Join(parts, [c]), c) == parts
  {
    if |parts| == 1 {
      SplitNoSeparator(parts[0], c);
    } else {
      var rest := Join(parts[1..], [c]);
      JoinCons(parts[0], parts[1..], [c]);
      assert parts == [parts[0]] + parts[1..];
      SplitConcat(parts[0], rest, c);
      SplitJoin(parts[1..], c);
    }
  }

  /** Text up to the first separator is the first piece. */
  lemma SplitConcat(a: string, b: string, c: char)
    requires c !in a
    ensures Split(a + [c] + b, c) == [a] + Split(b, c)
  {
    var s := a + [c] + b;
    IndexOfConcat(a, b, c);
    assert s[..|a|] == a;
    assert s[|a| + 1..] == b;
  }

  lemma {:induction false} IndexOfConcat(a: string, b: string, c: char)
    requires c !in a
    ensures IndexOf(a + [c] + b, c) == |a|
  {
    var s := a + [c] + b;
    if a == [] {
      assert s[0] == c;
    } else {
      assert s[0] == a[0];
      assert s[1..] == a[1..] + [c] + b;
      IndexOfConcat(a[1..], b, c);
    }
  }

  /** The text before the first separator is free of it. */
  lemma {:induction false} IndexOfPrefix(s: string, c: char)
    ensures c !in s[..IndexOf(s, c)]
    ensures IndexOf(s, c) < |s| ==> s == s[..IndexOf(s, c)] + [c] + s[IndexOf(s, c) + 1..]
  {
    var i := IndexOf(s, c);
    if s != [] && s[0] != c {
      IndexOfPrefix(s[1..], c);
      assert s[..i] == [s[0]] + s[1..][..i - 1];
    }
    if i < |s| {
      Around(s, i);
    }
  }

  /** The text after the last separator is free of it. */
  lemma {:induction false} LastIndexOfSuffix(s: string, c: char)
    ensures c !in s[LastIndexOf(s, c) + 1..]
    ensures LastIndexOf(s, c) >= 0 ==> s == s[..LastIndexOf(s, c)] + [c] + s[LastIndexOf(s, c) + 1..]
  {
    var k := LastIndexOf(s, c);
    if s != [] && s[|s| - 1] != c {
      var init := s[..|s| - 1];
      LastIndexOfSuffix(init, c);
      assert s[k + 1..] == init[k + 1..] + [s[|s| - 1]];
    }
    if k >= 0 {
      Around(s, k);
    }
  }

  /** Text after the last separator is the last piece. */
  lemma {:induction false} SplitSnoc(a: string, b: string, c: char)
    requires c !in b
    ensures Split(a + [c] + b, c) == Split(a, c) + [b]
    decreases |a|
  {
    var i := IndexOf(a, c);
    IndexOfPrefix(a, c);
    SplitNoSeparator(b, c);
    if i == |a| {
      SplitNoSeparator(a, c);
      SplitConcat(a, b, c);
    } else {
      var head, tail := a[..i], a[i + 1..];
      assert a + [c] + b == head + [c] + (tail + [c] + b);
      SplitConcat(head, tail + [c] + b, c);
      SplitConcat(head, tail, c);
      SplitSnoc(tail, b, c);
    }
  }

  /** The last piece of a split is what follows the last separator. */
  lemma SplitLastPiece(s: string, c: char)
    ensures var parts := Split(s, c); parts[|parts| - 1] == s[LastIndexOf(s, c) + 1..]
  {
    if LastIndexOf(s, c) >= 0 {
      SplitLastPieceFound(s, c);
    } else {
      SplitLastPieceAbsent(s, c);
    }
  }

  lemma SplitLastPieceFound(s: string, c: char)
    requires LastIndexOf(s, c) >= 0
    ensures var parts := Split(s, c); parts[|parts| - 1] == s[LastIndexOf(s, c) + 1..]
  {
    var k := LastIndexOf(s, c);
    var a, b := s[..k], s[k + 1..];
    LastIndexOfSuffix(s, c);
    assert s == a + [c] + b && c !in b;
    SplitSnoc(a, b, c);
    var parts := Split(s, c);
    assert parts == Split(a, c) + [b];
    assert parts[|parts| - 1] == b;
  }

  lemma SplitLastPieceAbsent(s: string, c: char)
    requires LastIndexOf(s, c) < 0
    ensures Split(s, c) == [s]
  {
    LastIndexOfFound(s, c);
    SplitNoSeparator(s, c);
  }

  /** A split has more than one piece exactly when the separator occurs. */
  lemma SplitCount(s: string, c: char)
    ensures |Split(s, c)| > 1 <==> c in s
  {
    IndexOfFound(s, c);
  }

  /** The pieces before the last, joined back, are the text before the last separator. */
  lemma SplitInitJoin(s: string, c: char)
    requires c in s
    ensures var parts := Split(s, c); var k := LastIndexOf(s, c);
      |parts| > 1 && k >= 0 && Join(parts[..|parts| - 1], [c]) == s[..k]
  {
    var k := LastIndexOf(s, c);
    LastIndexOfFound(s, c);
    LastIndexOfSuffix(s, c);
    SplitSnoc(s[..k], s[k + 1..], c);
    var init := Split(s[..k], c);
    assert (init + [s[k + 1..]])[..|init|] == init;
    JoinSplit(s[..k], c);
  }

  lemma JoinCons(a: string, rest: seq<string>, sep: string)
    requires rest != []
    ensures Join([a] + rest, sep) == a + sep + Join(rest, sep)
  {
    assert ([a] + rest)[1..] == rest;
  }

  /** A string is what comes before position `i`, the character there, and what follows. */
  lemma Around(s: string, i: nat)
    requires i < |s|
    ensures s == s[..i] + [s[i]] + s[i + 1..]
  {
  }

  /** `replace(/a/g, b)` for single characters. */
  function ReplaceChar(s: string, a: char, b: char): (r: string)
    ensures |r| == |s|
    ensures forall i :: 0 <= i < |s| ==> r[i] == if s[i] == a then b else s[i]
  {
    if s == [] then [] else [if s[0] == a then b else s[0]] + ReplaceChar(s[1..], a, b)
  }

  /** Splitting a string free of the separator gives the string itself. */
  lemma SplitNoSeparator(s: string, c: char)
    requires c !in s
    ensures Split(s, c) == [s]
  {
  }

  predicate IsAsciiUpper(c: char) { 'A' <= c <= 'Z' }

  /** ASCII lower case of one character; other characters are kept. */
  function LowerChar(c: char): (r: char)
    ensures !IsAsciiUpper(r) && (IsAsciiUpper(c) || r == c)
  {
    if IsAsciiUpper(c) then (c as int + 32) as char else c
  }

  /** `toLowerCase` restricted to ASCII letters: info hashes and hex text are
      ASCII. */
  function ToLowerAscii(s: string): (r: string)
    ensures |r| == |s|
    ensures forall i :: 0 <= i < |s| ==> r[i] == LowerChar(s[i])
  {
    if s == [] then [] else [LowerChar(s[0])] + ToLowerAscii(s[1..])
  }

  function Repeat(k: nat, c: char): (r: string)
    ensures |r| == k && forall i :: 0 <= i < k ==> r[i] == c
  {
    if k == 0 then [] else Repeat(k - 1, c) + [c]
  }

  /** `padStart(width, fill)`. */
  function PadStart(s: string, width: nat, fill: char): (r: string)
    ensures |r| == if |s| < width then width else |s|
    ensures EndsWith(r, s)
    ensures forall i :: 0 <= i < |r| - |s| ==> r[i] == fill
  {
    if |s| < width then Repeat(width - |s|, fill) + s else s
  }

  // ---- positional numerals ----

  /** Digit character for value `d` in a base up to 16 (lower case letters). */
  function DigitChar(d: nat): (c: char)
    requires d < 16
  {
    if d < 10 then ('0' as int + d) as char else ('a' as int + d - 10) as char
  }

  predicate IsDigitIn(c: char, base: nat) {
    ('0' <= c <= '9' && (c as int - '0' as int) < base)
    || (base > 10 && 'a' <= c <= 'z' && (c as int - 'a' as int + 10) < base)
    || (base > 10 && 'A' <= c <= 'Z' && (c as int - 'A' as int + 10) < base)
  }

  function DigitValue(c: char, base: nat): (d: nat)
    requires IsDigitIn(c, base)
    ensures d < base
  {
    if '0' <= c <= '9' then c as int - '0' as int
    else if 'a' <= c <= 'z' then c as int - 'a' as int + 10
    else c as int - 'A' as int + 10
  }

  lemma DigitRoundTrip(d: nat, base: nat)
    requires d < base <= 16
    ensures IsDigitIn(DigitChar(d), base) && DigitValue(DigitChar(d), base) == d
  {
  }

  /** `Number.prototype.toString(base)` of a non-negative integer. */
  function Numeral(n: nat, base: nat): (r: string)
    requires 2 <= base <= 16
    ensures |r| >= 1
    ensures forall i :: 0 <= i < |r| ==> IsDigitIn(r[i], base)
  {
    if n < base then [DigitChar(n)]
    else
      DivLess(n, base);
      Numeral(n / base, base) + [DigitChar(n % base)]
  }

  /** Digits are rendered in lower case. */
  lemma DigitCharLower(d: nat)
    requires d < 16
    ensures !IsAsciiUpper(DigitChar(d))
  {
  }

  /** A numeral holds no upper-case letter. */
  lemma {:induction false} NumeralLower(n: nat, base: nat)
    requires 2 <= base <= 16
    ensures forall i :: 0 <= i < |Numeral(n, base)| ==> !IsAsciiUpper(Numeral(n, base)[i])
  {
    DigitCharLower(n % base);
    if n >= base {
      DivLess(n, base);
      NumeralLower(n / base, base);
    } else {
      DigitCharLower(n);
    }
  }

  /** Value of a string of digits, most significant first. */
  function NumeralValue(s: string, base: nat): nat
    requires 2 <= base
    requires forall i :: 0 <= i < |s| ==> IsDigitIn(s[i], base)
  {
    if s == [] then 0 else NumeralValue(s[..|s| - 1], base) * base + DigitValue(s[|s| - 1], base)
  }

  lemma {:induction false} NumeralRoundTrip(n: nat, base: nat)
    requires 2 <= base <= 16
    ensures NumeralValue(Numeral(n, base), base) == n
  {
    var r := Numeral(n, base);
    if n >= base {
      var q, d := n / base, n % base;
      assert 0 < q < n && d < base && q * base + d == n by {
        DivLess(n, base);
        DivMod(n, base);
      }
      var init := Numeral(q, base);
      assert r == init + [DigitChar(d)];
      assert r[..|r| - 1] == init;
      NumeralRoundTrip(q, base);
      assert DigitValue(DigitChar(d), base) == d by { DigitRoundTrip(d, base); }
      assert NumeralValue(r, base) == NumeralValue(init, base) * base + DigitValue(DigitChar(d), base);
    } else {
      assert r == [DigitChar(n)];
      assert r[..0] == [];
      DigitRoundTrip(n, base);
    }
  }

  /** Leading zeros do not change a numeral's value. */
  lemma {:induction false} NumeralValueZeros(k: nat, s: string, base: nat)
    requires 2 <= base
    requires forall i :: 0 <= i < |s| ==> IsDigitIn(s[i], base)
    ensures forall i :: 0 <= i < k + |s| ==> IsDigitIn((Repeat(k, '0') + s)[i], base)
    ensures NumeralValue(Repeat(k, '0') + s, base) == NumeralValue(s, base)
    decreases |s|
  {
    var z := Repeat(k, '0');
    var t := z + s;
    if s == [] {
      assert t == z;
      ZerosValue(k, base);
    } else {
      assert t[..|t| - 1] == z + s[..|s| - 1];
      NumeralValueZeros(k, s[..|s| - 1], base);
    }
  }

  lemma {:induction false} ZerosValue(k: nat, base: nat)
    requires 2 <= base
    ensures forall i :: 0 <= i < k ==> IsDigitIn(Repeat(k, '0')[i], base)
    ensures NumeralValue(Repeat(k, '0'), base) == 0
  {
    if k > 0 {
      var z, init := Repeat(k, '0'), Repeat(k - 1, '0');
      assert z[..k - 1] == init;
      ZerosValue(k - 1, base);
      assert IsDigitIn('0', base) && DigitValue('0', base) == 0;
      assert NumeralValue(z, base) == NumeralValue(init, base) * base + DigitValue('0', base);
    }
  }

  /** A numeral of `n` has at most `w` digits when `n < base^w`. */
  lemma {:induction false} NumeralLength(n: nat, base: nat, w: nat)
    requires 2 <= base <= 16
    requires n < Pow(base, w)
    ensures |Numeral(n, base)| <= w || (n == 0 && w == 0)
    decreases w
  {
    if w > 0 && n >= base {
      PowBelow(n, base, w);
      NumeralStep(n, base);
      NumeralLength(n / base, base, w - 1);
    }
  }

  /** A numeral of at least `base` is one digit longer than that of its quotient. */
  lemma NumeralStep(n: nat, base: nat)
    requires 2 <= base <= n && base <= 16
    ensures 0 < n / base && |Numeral(n, base)| == |Numeral(n / base, base)| + 1
  {
    DivLess(n, base);
  }

  lemma PowBelow(n: nat, base: nat, w: nat)
    requires base > 0 && w > 0 && n < Pow(base, w)
    ensures n / base < Pow(base, w - 1)
  {
    DivBelow(n, base, Pow(base, w - 1));
  }

  lemma DivBelow(n: nat, base: nat, p: nat)
    requires base > 0 && n < base * p
    ensures n / base < p
  {
    DivMod(n, base);
    if n / base >= p {
      MulMonotone(n / base, p, base);
    }
  }

  lemma MulMonotone(a: nat, b: nat, c: nat)
    requires a >= b
    ensures a * c >= b * c && c * a >= c * b
  {
  }

  lemma DivLess(n: nat, base: nat)
    requires 2 <= base <= n
    ensures 0 < n / base < n
  {
    var q := n / base;
    DivMod(n, base);
    MulMonotone(base, 2, q);
  }

  lemma DivMod(n: nat, base: nat)
    requires base > 0
    ensures (n / base) * base + n % base == n && n % base < base
  {
  }

  function Pow(b: nat, e: nat): nat {
    if e == 0 then 1 else b * Pow(b, e - 1)
  }
}
