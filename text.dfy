/** String primitives of the JavaScript runtime that the webhook handler relies on:
    `String.prototype.split` and `Array.prototype.join` with a one-character
    separator, `Array.prototype.slice`, `String.prototype.trim`, and the decimal
    rendering of an integer inside a template string. */
module Text {

  /** The number of occurrences of `c` in `s`. */
  function Count(s: string, c: char): nat {
    multiset(s)[c]
  }

  /** `s.split(sep)`: the maximal separator-free runs of `s`, in order. An empty
      string splits into one empty part; a trailing separator yields a trailing
      empty part. */
  function Split(s: string, sep: char): (parts: seq<string>)
    ensures |parts| >= 1
    ensures forall i :: 0 <= i < |parts| ==> sep !in parts[i]
    decreases |s|
  {
    if |s| == 0 then [""]
    else
      var rest := Split(s[1..], sep);
      if s[0] == sep then [""] + rest
      else
        assert forall i :: 1 <= i < |rest| ==> rest[1..][i - 1] == rest[i];
        [[s[0]] + rest[0]] + rest[1..]
  }

  /** `parts.join(sep)`: the parts with one separator between neighbours; an
      empty list joins to the empty string. */
  function Join(parts: seq<string>, sep: char): (s: string)
    ensures |parts| == 1 ==> s == parts[0]
    decreases |parts|
  {
    if |parts| == 0 then ""
    else if |parts| == 1 then parts[0]
    else parts[0] + [sep] + Join(parts[1..], sep)
  }

  /** A split has one part more than the string has separators. */
  lemma {:induction false} SplitCount(s: string, sep: char)
    ensures |Split(s, sep)| == Count(s, sep) + 1
    decreases |s|
  {
    if |s| > 0 {
      SplitStep(s, sep);
      SplitCount(s[1..], sep);
      assert s == [s[0]] + s[1..];
      assert multiset(s) == multiset([s[0]]) + multiset(s[1..]);
    }
  }

  /** One step of `Split`, stated on its own so that proofs can take it without
      unfolding the whole definition. */
  lemma SplitStep(s: string, sep: char)
    requires |s| > 0
    ensures s[0] == sep ==> Split(s, sep) == [""] + Split(s[1..], sep)
    ensures s[0] != sep ==>
      Split(s, sep) == [[s[0]] + Split(s[1..], sep)[0]] + Split(s[1..], sep)[1..]
  {
  }

  /** One step of `Join`, for lists of at least two parts. */
  lemma JoinStep(parts: seq<string>, sep: char)
    requires |parts| >= 2
    ensures Join(parts, sep) == parts[0] + [sep] + Join(parts[1..], sep)
  {
  }

  /** Joining the parts of a split gives back the original string. */
  lemma {:induction false} JoinSplit(s: string, sep: char)
    ensures Join(Split(s, sep), sep) == s
    decreases |s|
  {
    if |s| > 0 {
      var rest := Split(s[1..], sep);
      JoinSplit(s[1..], sep);
      SplitStep(s, sep);
      if s[0] == sep {
        var parts := [""] + rest;
        assert parts[1..] == rest;
        JoinStep(parts, sep);
        assert Join(parts, sep) == "" + [sep] + s[1..];
        assert s == [s[0]] + s[1..];
      } else {
        JoinPrepend(s[0], rest, sep);
        assert s == [s[0]] + s[1..];
      }
    }
  }

  /** Prepending a character to the first part prepends it to the joined string. */
  lemma JoinPrepend(c: char, parts: seq<string>, sep: char)
    requires |parts| >= 1
    ensures Join([[c] + parts[0]] + parts[1..], sep) == [c] + Join(parts, sep)
  {
    var q := [[c] + parts[0]] + parts[1..];
    if |parts| > 1 {
      assert q[1..] == parts[1..];
      JoinStep(q, sep);
      JoinStep(parts, sep);
    }
  }

  /** Splitting the joined parts gives back the parts, provided none of them
      contains the separator: `Split` and `Join` are inverse on such lists. */
  lemma {:induction false} SplitJoin(parts: seq<string>, sep: char)
    requires |parts| >= 1
    requires forall i :: 0 <= i < |parts| ==> sep !in parts[i]
    ensures Split(Join(parts, sep), sep) == parts
    decreases |parts|
  {
    if |parts| == 1 {
      SplitPrepend(parts[0], "", sep);
      assert parts[0] + "" == parts[0];
      assert [parts[0]] == parts;
    } else {
      var tail := Join(parts[1..], sep);
      SplitJoin(parts[1..], sep);
      SplitStep([sep] + tail, sep);
      assert ([sep] + tail)[1..] == tail;
      var t := Split([sep] + tail, sep);
      assert t == [""] + parts[1..];
      JoinStep(parts, sep);
      assert Join(parts, sep) == parts[0] + ([sep] + tail);
      SplitPrepend(parts[0], [sep] + tail, sep);
      assert t[0] == "" && t[1..] == parts[1..];
      assert parts[0] + "" == parts[0];
      assert [parts[0]] + parts[1..] == parts;
    }
  }

  /** A separator-free prefix glues onto the first part of the split. */
  lemma {:induction false} SplitPrepend(p: string, s: string, sep: char)
    requires sep !in p
    ensures Split(p + s, sep) == [p + Split(s, sep)[0]] + Split(s, sep)[1..]
    decreases |p|
  {
    var S := Split(s, sep);
    if |p| == 0 {
      assert p + s == s;
      assert p + S[0] == S[0];
      assert [S[0]] + S[1..] == S;
    } else {
      var t := p[1..] + s;
      assert (p + s)[1..] == t;
      assert (p + s)[0] == p[0];
      SplitStep(p + s, sep);
      SplitPrepend(p[1..], s, sep);
      var R := Split(t, sep);
      assert R[0] == p[1..] + S[0] && R[1..] == S[1..];
      assert [p[0]] + (p[1..] + S[0]) == p + S[0];
    }
  }

  /** A separator-free line followed by the separator splits off as one part. */
  lemma SplitLine(p: string, s: string, sep: char)
    requires sep !in p
    ensures Split(p + [sep] + s, sep) == [p] + Split(s, sep)
  {
    var t := [sep] + s;
    assert p + [sep] + s == p + t;
    SplitPrepend(p, t, sep);
    SplitStep(t, sep);
    assert t[1..] == s;
    assert p + "" == p;
  }

  /** Joining a concatenation of two non-empty lists puts one separator between
      the two joined halves. */
  lemma {:induction false} JoinAppend(xs: seq<string>, ys: seq<string>, sep: char)
    requires |xs| >= 1 && |ys| >= 1
    ensures Join(xs + ys, sep) == Join(xs, sep) + [sep] + Join(ys, sep)
    decreases |xs|
  {
    if |xs| == 1 {
      assert (xs + ys)[1..] == ys;
    } else {
      assert (xs + ys)[1..] == xs[1..] + ys;
      JoinAppend(xs[1..], ys, sep);
    }
  }

  /** The index normalisation of `Array.prototype.slice`: a negative index counts
      back from the end, and the result is clamped to `[0, len]`. */
  function RelativeIndex(k: int, len: nat): (i: nat)
    ensures i <= len
    ensures 0 <= k <= len ==> i == k
    ensures k > len ==> i == len
    ensures k < 0 ==> i == if len + k < 0 then 0 else len + k
  {
    if k < 0 then (if len + k < 0 then 0 else len + k)
    else if k < len then k
    else len
  }

  /** `xs.slice(start, end)`. */
  function Slice<T(==)>(xs: seq<T>, start: int, end: int): (r: seq<T>)
    ensures |r| <= |xs|
    ensures 0 <= start <= end <= |xs| ==> r == xs[start..end]
    ensures 0 <= end <= start ==> r == []
    ensures 0 <= start <= end ==>
      r == xs[(if start < |xs| then start else |xs|)..(if end < |xs| then end else |xs|)]
    ensures exists i :: IsInfixAt(r, xs, i)
  {
    var from, to := RelativeIndex(start, |xs|), RelativeIndex(end, |xs|);
    if from < to then
      assert IsInfixAt(xs[from..to], xs, from);
      xs[from..to]
    else
      assert IsInfixAt([], xs, 0);
      []
  }

  /** `r` occurs in `xs` starting at index `i`. */
  predicate IsInfixAt<T(==)>(r: seq<T>, xs: seq<T>, i: int) {
    0 <= i <= |xs| - |r| && r == xs[i..i + |r|]
  }

  /** A sequence occurs in itself preceded by anything. */
  lemma InfixAfter<T>(a: seq<T>, b: seq<T>)
    ensures IsInfixAt(b, a + b, |a|)
  {
    assert (a + b)[|a|..|a| + |b|] == b;
  }

  /** A sequence occurs in any concatenation it is the middle of. */
  lemma InfixMiddle<T>(a: seq<T>, b: seq<T>, c: seq<T>)
    ensures IsInfixAt(b, a + b + c, |a|)
  {
    assert (a + b + c)[|a|..|a| + |b|] == b;
  }

  /** A sequence followed by `d` at the end of `l + (f + b + d)` occurs just
      before `d`. */
  lemma InfixBeforeLast<T>(l: seq<T>, f: seq<T>, b: seq<T>, d: seq<T>)
    ensures var s := l + (f + b + d); IsInfixAt(b, s, |s| - |b| - |d|)
  {
    InfixMiddle(f, b, d);
    InfixShift(b, f + b + d, |f|, l);
  }

  /** An occurrence at a fixed distance from the end stays at that distance
      when something is prepended. */
  lemma InfixShiftFromEnd<T>(b: seq<T>, s: seq<T>, d: nat, t: seq<T>)
    requires IsInfixAt(b, s, |s| - |b| - d)
    ensures IsInfixAt(b, t + s, |t + s| - |b| - d)
  {
    InfixShift(b, s, |s| - |b| - d, t);
  }

  /** Equal concatenations with equal suffixes have equal prefixes. */
  lemma CancelRight<T>(a: seq<T>, b: seq<T>, c: seq<T>)
    requires a + c == b + c
    ensures a == b
  {
    assert a == (a + c)[..|a|];
    assert b == (b + c)[..|b|];
  }

  /** Equal concatenations with equal prefixes have equal suffixes. */
  lemma CancelLeft<T>(c: seq<T>, a: seq<T>, b: seq<T>)
    requires c + a == c + b
    ensures a == b
  {
    assert a == (c + a)[|c|..];
    assert b == (c + b)[|c|..];
  }

  /** An occurrence survives appending. */
  lemma InfixExtend<T>(b: seq<T>, s: seq<T>, i: int, t: seq<T>)
    requires IsInfixAt(b, s, i)
    ensures IsInfixAt(b, s + t, i)
  {
    assert (s + t)[i..i + |b|] == s[i..i + |b|];
  }

  /** An occurrence moves right by what is prepended. */
  lemma InfixShift<T>(b: seq<T>, s: seq<T>, i: int, t: seq<T>)
    requires IsInfixAt(b, s, i)
    ensures IsInfixAt(b, t + s, |t| + i)
  {
    assert (t + s)[|t| + i..|t| + i + |b|] == s[i..i + |b|];
  }

  /** The characters `String.prototype.trim` removes: ECMAScript WhiteSpace
      (tab, vertical tab, form feed, space, no-break space, byte order mark and
      the Unicode space separators) and LineTerminator (line feed, carriage
      return, line separator, paragraph separator). */
  predicate IsWhitespace(c: char) {
    || c == '\U{0009}' || c == '\U{000B}' || c == '\U{000C}' || c == ' '
    || c == '\U{00A0}' || c == '\U{FEFF}' || c == '\U{1680}'
    || ('\U{2000}' <= c <= '\U{200A}') || c == '\U{202F}' || c == '\U{205F}' || c == '\U{3000}'
    || c == '\n' || c == '\r' || c == '\U{2028}' || c == '\U{2029}'
  }

  /** `s` with its leading whitespace removed. */
  function TrimStart(s: string): (r: string)
    ensures |r| <= |s| && r == s[|s| - |r|..]
    ensures forall k :: 0 <= k < |s| - |r| ==> IsWhitespace(s[k])
    ensures |r| > 0 ==> !IsWhitespace(r[0])
    decreases |s|
  {
    if |s| > 0 && IsWhitespace(s[0]) then TrimStart(s[1..]) else s
  }

  /** `s` with its trailing whitespace removed. */
  function TrimEnd(s: string): (r: string)
    ensures |r| <= |s| && r == s[..|r|]
    ensures forall k :: |r| <= k < |s| ==> IsWhitespace(s[k])
    ensures |r| > 0 ==> !IsWhitespace(r[|r| - 1])
    decreases |s|
  {
    if |s| > 0 && IsWhitespace(s[|s| - 1]) then TrimEnd(s[..|s| - 1]) else s
  }

  /** `s.trim()`: the unique infix `s[i..j]` outside which every character is
      whitespace and which neither starts nor ends with whitespace. */
  function Trim(s: string): (r: string)
    ensures exists i, j :: IsTrimmed(s, i, j) && r == s[i..j]
    ensures |r| > 0 ==> !IsWhitespace(r[0]) && !IsWhitespace(r[|r| - 1])
  {
    var t := TrimStart(s);
    var r := TrimEnd(t);
    TrimmedInfix(s, t, r);
    r
  }

  /** Removing a whitespace prefix and then a whitespace suffix leaves an
      infix of `s` outside which everything is whitespace. */
  lemma TrimmedInfix(s: string, t: string, r: string)
    requires |t| <= |s| && t == s[|s| - |t|..]
    requires forall k :: 0 <= k < |s| - |t| ==> IsWhitespace(s[k])
    requires |r| <= |t| && r == t[..|r|]
    requires forall k :: |r| <= k < |t| ==> IsWhitespace(t[k])
    ensures IsTrimmed(s, |s| - |t|, |s| - |t| + |r|)
    ensures r == s[|s| - |t|..|s| - |t| + |r|]
  {
    var i := |s| - |t|;
    forall k | i + |r| <= k < |s|
      ensures IsWhitespace(s[k])
    {
      assert s[k] == t[k - i];
    }
  }

  /** Everything of `s` outside `s[i..j]` is whitespace. */
  predicate IsTrimmed(s: string, i: int, j: int) {
    && 0 <= i <= j <= |s|
    && (forall k :: 0 <= k < i ==> IsWhitespace(s[k]))
    && (forall k :: j <= k < |s| ==> IsWhitespace(s[k]))
  }

  /** Trimming twice removes nothing more. */
  lemma TrimIdempotent(s: string)
    ensures Trim(Trim(s)) == Trim(s)
  {
    var r := Trim(s);
    if |r| > 0 {
      assert TrimStart(r) == r;
      assert TrimEnd(r) == r;
    }
  }

  /** A string that neither starts nor ends with whitespace is its own trim. */
  lemma TrimUnchanged(s: string)
    requires |s| > 0 && !IsWhitespace(s[0]) && !IsWhitespace(s[|s| - 1])
    ensures Trim(s) == s
  {
    assert TrimStart(s) == s;
    assert TrimEnd(s) == s;
  }

  /** The ASCII digit for `d`. */
  function DigitChar(d: nat): (c: char)
    requires d < 10
    ensures '0' <= c <= '9'
  {
    ('0' as int + d) as char
  }

  /** The value of an ASCII digit. */
  function DigitValue(c: char): (d: nat)
    requires '0' <= c <= '9'
    ensures d < 10 && DigitChar(d) == c
  {
    c as int - '0' as int
  }

  /** True when every character of `s` is an ASCII digit. */
  predicate IsDigits(s: string) {
    forall i :: 0 <= i < |s| ==> '0' <= s[i] <= '9'
  }

  /** The shortest decimal numeral of `n`: digits only, no leading zero. */
  function NatToDecimal(n: nat): (s: string)
    ensures |s| >= 1 && IsDigits(s)
    ensures s[0] == '0' ==> n == 0 && |s| == 1
  {
    if n < 10 then [DigitChar(n)] else NatToDecimal(n / 10) + [DigitChar(n % 10)]
  }

  /** The value of a numeral, most significant digit first. */
  function DecimalValue(s: string): nat
    requires IsDigits(s)
  {
    if |s| == 0 then 0 else DecimalValue(s[..|s| - 1]) * 10 + DigitValue(s[|s| - 1])
  }

  /** Reading the numeral of `n` gives back `n`. */
  lemma {:induction false} NatDecimalRoundTrip(n: nat)
    ensures DecimalValue(NatToDecimal(n)) == n
  {
    if n >= 10 {
      var s := NatToDecimal(n);
      NatDecimalRoundTrip(n / 10);
      assert s[..|s| - 1] == NatToDecimal(n / 10);
      assert DigitValue(s[|s| - 1]) == n % 10;
    }
  }

  /** How a JavaScript template string renders an integer: a minus sign before the
      numeral of its magnitude when negative. */
  function IntToDecimal(n: int): (s: string)
    ensures |s| >= 1
    ensures n >= 0 ==> IsDigits(s)
    ensures n < 0 ==> s[0] == '-' && IsDigits(s[1..])
  {
    if n < 0 then "-" + NatToDecimal(-n) else NatToDecimal(n)
  }

  /** The rendering is the shortest one: `0` is the only numeral that starts
      with a zero, and no zero follows the minus sign of a negative integer. */
  lemma IntToDecimalCanonical(n: int)
    ensures var s := IntToDecimal(n);
      && (s[0] == '0' ==> n == 0 && s == "0")
      && (n < 0 ==> |s| >= 2 && s[1] != '0')
  {
    if n < 0 {
      assert IntToDecimal(n)[1..] == NatToDecimal(-n);
    }
  }

  /** The integer an optionally signed numeral denotes. */
  function ParseInt(s: string): int
    requires |s| >= 1
    requires if s[0] == '-' then IsDigits(s[1..]) else IsDigits(s)
  {
    if s[0] == '-' then -(DecimalValue(s[1..]) as int) else DecimalValue(s)
  }

  /** Reading the rendering of `n` gives back `n`, so distinct integers render
      differently. */
  lemma IntDecimalRoundTrip(n: int)
    ensures ParseInt(IntToDecimal(n)) == n
  {
    if n < 0 {
      NatDecimalRoundTrip(-n);
      assert IntToDecimal(n)[1..] == NatToDecimal(-n);
    } else {
      NatDecimalRoundTrip(n);
    }
  }
}
