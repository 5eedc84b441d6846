/**
 * Character classes and string operations shared by the validator, the
 * formatting helpers and the message builders: the JavaScript primitives
 * `\d`, `\s`, `trim`, `toLowerCase`, `split`, `join` and number-to-text
 * conversion, written over `seq<char>`.
 */
module Text {

  /** A character the regular-expression class `\d` matches. */
  predicate IsDigit(c: char) {
    '0' <= c <= '9'
  }

  /** ECMAScript WhiteSpace or LineTerminator: what `\s` matches and `trim` removes. */
  predicate IsSpace(c: char) {
    || c == '\t' || c == '\n' || c == '\U{B}' || c == '\U{C}' || c == '\r'
    || c == ' ' || c == '\U{A0}' || c == '\U{1680}'
    || ('\U{2000}' <= c <= '\U{200A}')
    || c == '\U{2028}' || c == '\U{2029}' || c == '\U{202F}' || c == '\U{205F}'
    || c == '\U{3000}' || c == '\U{FEFF}'
  }

  predicate AllDigits(s: string) {
    forall i :: 0 <= i < |s| ==> IsDigit(s[i])
  }

  predicate NoSpace(s: string) {
    forall i :: 0 <= i < |s| ==> !IsSpace(s[i])
  }

  /** `s.replace(/\D/g, '')`: the digits of `s`, in order. */
  function Digits(s: string): (r: string)
    ensures AllDigits(r)
    ensures |r| <= |s|
    decreases |s|
  {
    if s == [] then []
    else (if IsDigit(s[0]) then [s[0]] else []) + Digits(s[1..])
  }

  /** Stripping non-digits distributes over concatenation, so it keeps the digits in their order. */
  lemma {:induction false} DigitsAppend(a: string, b: string)
    ensures Digits(a + b) == Digits(a) + Digits(b)
    decreases |a|
  {
    if a == [] {
      assert a + b == b;
    } else {
      var rest := a[1..] + b;
      assert a + b == [a[0]] + rest;
      assert a == [a[0]] + a[1..];
      DigitsCons(a[0], rest);
      DigitsCons(a[0], a[1..]);
      DigitsAppend(a[1..], b);
    }
  }

  lemma DigitsCons(c: char, s: string)
    ensures Digits([c] + s) == (if IsDigit(c) then [c] else []) + Digits(s)
  {
    assert ([c] + s)[1..] == s;
  }

  /** A string that is already all digits is left as it is. */
  lemma {:induction false} DigitsOfAllDigits(s: string)
    requires AllDigits(s)
    ensures Digits(s) == s
    decreases |s|
  {
    if s != [] {
      DigitsOfAllDigits(s[1..]);
      assert s == [s[0]] + s[1..];
    }
  }

  /** Nothing survives the strip exactly when the input holds no digit. */
  lemma {:induction false} DigitsEmpty(s: string)
    ensures Digits(s) == [] <==> forall i :: 0 <= i < |s| ==> !IsDigit(s[i])
    decreases |s|
  {
    if s != [] {
      DigitsEmpty(s[1..]);
      if !IsDigit(s[0]) {
        forall i | 0 < i < |s|
          ensures s[i] == s[1..][i - 1]
        {
        }
      }
    }
  }

  /** `String.prototype.trimStart` */
  function TrimStart(s: string): (r: string)
    ensures |r| <= |s| && r == s[|s| - |r|..]
    ensures r == [] || !IsSpace(r[0])
    decreases |s|
  {
    if s != [] && IsSpace(s[0]) then TrimStart(s[1..]) else s
  }

  /** `String.prototype.trimEnd` */
  function TrimEnd(s: string): (r: string)
    ensures |r| <= |s| && r == s[..|r|]
    ensures r == [] || !IsSpace(r[|r| - 1])
    decreases |s|
  {
    if s != [] && IsSpace(s[|s| - 1]) then TrimEnd(s[..|s| - 1]) else s
  }

  /** `String.prototype.trim`: drops leading and trailing white space and nothing else. */
  function Trim(s: string): (r: string)
  {
    TrimEnd(TrimStart(s))
  }

  /** Trimming leaves a string without white space unchanged. */
  lemma TrimNoSpace(s: string)
    requires NoSpace(s)
    ensures Trim(s) == s
  {
    assert TrimStart(s) == s;
  }

  /** A string of digits has no white space, so trimming leaves it unchanged. */
  lemma TrimDigits(s: string)
    requires AllDigits(s)
    ensures Trim(s) == s
  {
    assert NoSpace(s);
    TrimNoSpace(s);
  }

  /** Lower-cases one character (ASCII letters only; see the README). */
  function LowerChar(c: char): char {
    if 'A' <= c <= 'Z' then (c as int + 32) as char else c
  }

  /**
   * What lower-casing does to one character: an upper-case letter becomes
   * the lower-case letter 32 code points on, anything else is unchanged, and
   * the result is never upper-case.
   */
  lemma LowerCharSpec(c: char)
    ensures IsUpper(c) ==> LowerChar(c) as int == c as int + 32 && 'a' <= LowerChar(c) <= 'z'
    ensures !IsUpper(c) ==> LowerChar(c) == c
    ensures !IsUpper(LowerChar(c))
  {
  }

  predicate IsUpper(c: char) {
    'A' <= c <= 'Z'
  }

  /** `String.prototype.toLowerCase` over ASCII letters. */
  function Lower(s: string): (r: string)
    ensures |r| == |s|
    ensures forall i :: 0 <= i < |s| ==> r[i] == LowerChar(s[i])
  {
    seq(|s|, i requires 0 <= i < |s| => LowerChar(s[i]))
  }

  /** A lower-cased string holds no upper-case letter. */
  lemma LowerHasNoUpper(s: string)
    ensures forall i :: 0 <= i < |Lower(s)| ==> !IsUpper(Lower(s)[i])
  {
    forall i | 0 <= i < |s|
      ensures !IsUpper(Lower(s)[i])
    {
      LowerCharSpec(s[i]);
    }
  }

  /** Lower-casing a lower-cased string changes nothing. */
  lemma LowerIdempotent(s: string)
    ensures Lower(Lower(s)) == Lower(s)
  {
    LowerHasNoUpper(s);
    LowerFixedPointIff(Lower(s));
  }

  /** A string is left unchanged by lower-casing exactly when it holds no upper-case letter. */
  lemma LowerFixedPointIff(s: string)
    ensures Lower(s) == s <==> forall i :: 0 <= i < |s| ==> !IsUpper(s[i])
  {
    if forall i :: 0 <= i < |s| ==> !IsUpper(s[i]) {
      assert forall i :: 0 <= i < |s| ==> Lower(s)[i] == s[i];
    }
  }

  /** First position of `c` in `s`. */
  function IndexOf(s: string, c: char): (i: nat)
    requires c in s
    ensures i < |s| && s[i] == c && c !in s[..i]
  {
    if s[0] == c then 0
    else
      assert c in s[1..] by {
        var k :| 0 <= k < |s| && s[k] == c;
        assert s[1..][k - 1] == c;
      }
      var j := IndexOf(s[1..], c);
      assert s[..j + 1] == [s[0]] + s[1..][..j];
      j + 1
  }

  /** `s.split(sep)` for a one-character separator. */
  function Split(s: string, sep: char): (parts: seq<string>)
    ensures |parts| >= 1
    ensures forall k :: 0 <= k < |parts| ==> sep !in parts[k]
    decreases |s|
  {
    if sep !in s then [s]
    else
      var i := IndexOf(s, sep);
      [s[..i]] + Split(s[i + 1..], sep)
  }

  /** `parts.join(sep)` */
  function Join(parts: seq<string>, sep: string): string
    decreases |parts|
  {
    if |parts| == 0 then ""
    else if |parts| == 1 then parts[0]
    else parts[0] + sep + Join(parts[1..], sep)
  }

  /** `list.includes(x)`, element by element from the front. */
  predicate Includes(list: seq<string>, x: string)
    decreases |list|
  {
    list != [] && (list[0] == x || Includes(list[1..], x))
  }

  lemma {:induction false} IncludesIff(list: seq<string>, x: string)
    ensures Includes(list, x) <==> x in list
    decreases |list|
  {
    if list != [] {
      IncludesIff(list[1..], x);
      assert list == [list[0]] + list[1..];
    }
  }

  /** Joining the pieces of a split with the same separator gives the original string back. */
  lemma {:induction false} SplitThenJoin(s: string, sep: char)
    ensures Join(Split(s, sep), [sep]) == s
    decreases |s|
  {
    if sep in s {
      var i := IndexOf(s, sep);
      var rest := Split(s[i + 1..], sep);
      SplitThenJoin(s[i + 1..], sep);
      assert Split(s, sep) == [s[..i]] + rest;
      assert (([s[..i]] + rest)[1..]) == rest;
      assert s == s[..i] + [sep] + s[i + 1..];
    }
  }

  /** The first occurrence of `c` is at `i` when `s[i]` is `c` and no earlier character is. */
  lemma IndexOfIs(s: string, c: char, i: nat)
    requires i < |s| && s[i] == c && c !in s[..i]
    ensures c in s && IndexOf(s, c) == i
  {
  }

  /** Splitting a join of separator-free pieces gives the pieces back. */
  lemma {:induction false} JoinThenSplit(parts: seq<string>, sep: char)
    requires |parts| >= 1
    requires forall k :: 0 <= k < |parts| ==> sep !in parts[k]
    ensures Split(Join(parts, [sep]), sep) == parts
    decreases |parts|
  {
    if |parts| > 1 {
      var head, rest := parts[0], parts[1..];
      var tail := Join(rest, [sep]);
      var s := head + [sep] + tail;
      assert Join(parts, [sep]) == s;
      SplitAfterPiece(head, sep, tail);
      JoinThenSplit(rest, sep);
      assert parts == [head] + rest;
    }
  }

  /** A separator-free piece followed by the separator is split off first. */
  lemma SplitAfterPiece(head: string, sep: char, tail: string)
    requires sep !in head
    ensures Split(head + [sep] + tail, sep) == [head] + Split(tail, sep)
  {
    var s := head + [sep] + tail;
    assert s[..|head|] == head;
    IndexOfIs(s, sep, |head|);
    assert s[|head| + 1..] == tail;
  }

  /** The text after the last `sep` (the whole string when there is none). */
  function LastSegment(s: string, sep: char): string
    decreases |s|
  {
    if s == [] then []
    else if s[|s| - 1] == sep then []
    else LastSegment(s[..|s| - 1], sep) + [s[|s| - 1]]
  }

  /**
   * The last segment is a separator-free suffix; it is preceded by a
   * separator when there is one, and it is the whole string otherwise.
   */
  lemma {:induction false} LastSegmentShape(s: string, sep: char)
    ensures var r := LastSegment(s, sep);
            && sep !in r
            && |r| <= |s| && r == s[|s| - |r|..]
            && (sep in s ==> |r| < |s| && s[|s| - |r| - 1] == sep)
            && (sep !in s ==> r == s)
    decreases |s|
  {
    if s != [] && s[|s| - 1] != sep {
      var init := s[..|s| - 1];
      assert s == init + [s[|s| - 1]];
      assert sep in s ==> sep in init;
      LastSegmentShape(init, sep);
    }
  }

  /** A final separator leaves an empty last segment. */
  lemma LastSegmentOfSeparator(t: string, sep: char)
    ensures LastSegment(t + [sep], sep) == []
  {
    assert (t + [sep])[|t|] == sep;
  }

  /** Any other final character extends the last segment. */
  lemma LastSegmentSnoc(t: string, sep: char, c: char)
    requires c != sep
    ensures LastSegment(t + [c], sep) == LastSegment(t, sep) + [c]
  {
    assert (t + [c])[..|t|] == t;
  }

  /** Dropping everything up to a separator does not change the last segment. */
  lemma {:induction false} LastSegmentAfterSeparator(a: string, sep: char, b: string)
    ensures LastSegment(a + [sep] + b, sep) == LastSegment(b, sep)
    decreases |b|
  {
    if b == [] {
      assert a + [sep] + b == a + [sep];
      LastSegmentOfSeparator(a, sep);
    } else {
      var b', last := b[..|b| - 1], b[|b| - 1];
      assert b == b' + [last];
      assert a + [sep] + b == (a + [sep] + b') + [last];
      if last == sep {
        LastSegmentOfSeparator(a + [sep] + b', sep);
        LastSegmentOfSeparator(b', sep);
      } else {
        LastSegmentSnoc(a + [sep] + b', sep, last);
        LastSegmentSnoc(b', sep, last);
        LastSegmentAfterSeparator(a, sep, b');
      }
    }
  }

  lemma SplitAt(s: string, i: nat)
    requires i < |s|
    ensures s == s[..i] + [s[i]] + s[i + 1..]
  {
  }

  /** `s.split(sep).pop()` is the last segment. */
  lemma {:induction false} LastPieceOfSplit(s: string, sep: char)
    ensures Last(Split(s, sep)) == LastSegment(s, sep)
    decreases |s|
  {
    if sep in s {
      var i := IndexOf(s, sep);
      LastPieceStep(s, sep, i);
      SegmentStep(s, sep, i);
      LastPieceOfSplit(s[i + 1..], sep);
    } else {
      LastPieceWithoutSeparator(s, sep);
    }
  }

  /** The last element of a non-empty sequence. */
  function Last<T>(xs: seq<T>): T
    requires |xs| >= 1
  {
    xs[|xs| - 1]
  }

  /** Cutting at the first separator does not change the last piece. */
  lemma LastPieceStep(s: string, sep: char, i: nat)
    requires sep in s && i == IndexOf(s, sep)
    ensures Last(Split(s, sep)) == Last(Split(s[i + 1..], sep))
  {
    var rest := Split(s[i + 1..], sep);
    assert Split(s, sep) == [s[..i]] + rest;
    LastOfCons(s[..i], rest);
  }

  lemma LastOfCons<T>(x: T, xs: seq<T>)
    requires |xs| >= 1
    ensures Last([x] + xs) == Last(xs)
  {
    assert ([x] + xs)[|xs|] == xs[|xs| - 1];
  }

  /** Cutting at any separator does not change the last segment. */
  lemma SegmentStep(s: string, sep: char, i: nat)
    requires i < |s| && s[i] == sep
    ensures LastSegment(s, sep) == LastSegment(s[i + 1..], sep)
  {
    SplitAt(s, i);
    LastSegmentAfterSeparator(s[..i], sep, s[i + 1..]);
  }

  lemma LastPieceWithoutSeparator(s: string, sep: char)
    requires sep !in s
    ensures Split(s, sep) == [s] && LastSegment(s, sep) == s
  {
    LastSegmentShape(s, sep);
  }

  /** The digit character for 0..9. */
  function DigitChar(d: nat): char
    requires d < 10
  {
    ('0' as int + d) as char
  }

  function DigitValue(c: char): nat
    requires IsDigit(c)
  {
    c as int - '0' as int
  }

  /** Decimal rendering of a non-negative integer, as a template literal shows it. */
  function NatToString(n: nat): (s: string)
    ensures |s| >= 1 && AllDigits(s)
    ensures s[0] != '0' || n == 0
    decreases n
  {
    if n < 10 then [DigitChar(n)] else NatToString(n / 10) + [DigitChar(n % 10)]
  }

  /** Reads a decimal digit string. */
  function ParseNat(s: string): nat
    requires AllDigits(s)
    decreases |s|
  {
    if s == [] then 0 else ParseNat(s[..|s| - 1]) * 10 + DigitValue(s[|s| - 1])
  }

  /** Reading back a rendered number gives the number. */
  lemma {:induction false} ParseRendered(n: nat)
    ensures ParseNat(NatToString(n)) == n
    decreases n
  {
    var s := NatToString(n);
    if n < 10 {
      assert s[..|s| - 1] == [];
    } else {
      assert s[..|s| - 1] == NatToString(n / 10);
      ParseRendered(n / 10);
    }
  }

  /** Distinct numbers render differently. */
  lemma RenderingInjective(m: nat, n: nat)
    requires NatToString(m) == NatToString(n)
    ensures m == n
  {
    ParseRendered(m);
    ParseRendered(n);
  }

  /** `m` occurs in `s` starting at position `i`. */
  predicate OccursAt(s: string, m: string, i: int) {
    0 <= i <= |s| - |m| && s[i..i + |m|] == m
  }

  /** `m` occurs in `s` as a contiguous piece. */
  ghost predicate Contains(s: string, m: string) {
    exists i :: OccursAt(s, m, i)
  }

  /** A piece of a contained piece is contained. */
  lemma ContainsInner(s: string, p: string, m: string, q: string)
    requires Contains(s, p + m + q)
    ensures Contains(s, m)
  {
    var w := p + m + q;
    var i :| OccursAt(s, w, i);
    forall k | 0 <= k < |m|
      ensures s[i + |p| + k] == m[k]
    {
      assert s[i + |p| + k] == w[|p| + k];
    }
    assert s[i + |p|..i + |p| + |m|] == m;
    assert OccursAt(s, m, i + |p|);
  }

  /**
   * Trimming never cuts into a piece that begins and ends with a
   * non-space character.
   */
  lemma TrimKeepsCore(a: string, m: string, b: string)
    requires m != [] && !IsSpace(m[0]) && !IsSpace(m[|m| - 1])
    ensures Contains(Trim(a + m + b), m)
  {
    var x := a + m + b;
    assert x[|a|..|a| + |m|] == m;
    var k := TrimKeepsSpan(x, |a|, |m|);
  }

  /**
   * The span `x[p..p + n]`, which starts and ends with a non-space
   * character, survives trimming, shifted left by the `k` characters cut
   * from the front.
   */
  lemma TrimKeepsSpan(x: string, p: nat, n: nat) returns (k: nat)
    requires 0 < n && p + n <= |x| && !IsSpace(x[p]) && !IsSpace(x[p + n - 1])
    ensures k <= p && OccursAt(Trim(x), x[p..p + n], p - k)
  {
    k := TrimStops(x, p, p + n - 1);
    SpanShift(x, TrimStart(x), Trim(x), k, p, n);
  }

  /** Trimming cuts neither at nor between two non-space characters `x[p]` and `x[q]`. */
  lemma TrimStops(x: string, p: nat, q: nat) returns (k: nat)
    requires p <= q < |x| && !IsSpace(x[p]) && !IsSpace(x[q])
    ensures k == |x| - |TrimStart(x)| && k <= p && q - k < |TrimEnd(TrimStart(x))|
  {
    k := |x| - |TrimStart(x)|;
    TrimStartStops(x, p);
    TrimEndStopsAfter(x, TrimStart(x), k, q);
  }

  /** The same, for the trimmed-at-the-front suffix `x[k..]` and a position `q` of `x`. */
  lemma TrimEndStopsAfter(x: string, t1: string, k: nat, q: nat)
    requires k <= q < |x| && t1 == x[k..] && !IsSpace(x[q])
    ensures q - k < |TrimEnd(t1)|
  {
    assert t1[q - k] == x[q];
    TrimEndStops(t1, q - k);
  }

  /** A span of `x` lies in `x[k..][..L]`, shifted by `k`, when it fits inside. */
  lemma SpanShift(x: string, t1: string, t: string, k: nat, p: nat, n: nat)
    requires k <= p && p + n <= |x| && t1 == x[k..] && |t| <= |t1| && t == t1[..|t|] && p - k + n <= |t|
    ensures OccursAt(t, x[p..p + n], p - k)
  {
    assert t[p - k..p - k + n] == t1[p - k..p - k + n] == x[p..p + n];
  }

  /** Leading white space ends at the first non-space character. */
  lemma {:induction false} TrimStartStops(s: string, p: nat)
    requires p < |s| && !IsSpace(s[p])
    ensures |s| - |TrimStart(s)| <= p
    decreases p
  {
    if IsSpace(s[0]) {
      assert s[1..][p - 1] == s[p];
      TrimStartStops(s[1..], p - 1);
    }
  }

  /** Trailing white space begins after the last non-space character. */
  lemma {:induction false} TrimEndStops(s: string, p: nat)
    requires p < |s| && !IsSpace(s[p])
    ensures p < |TrimEnd(s)|
    decreases |s|
  {
    if IsSpace(s[|s| - 1]) {
      assert s[..|s| - 1][p] == s[p];
      TrimEndStops(s[..|s| - 1], p);
    }
  }
}
