/** The Python 2 string built-ins that the CoNLL layer relies on, on byte strings
    (`str` in Python 2 is a byte string, so whitespace, digits and case are ASCII):
    `strip`, `split`, `join`, `startswith`, `lower`, `int(...)` and `str(...)` of an
    integer, and the splitting of a file into the lines that `for line in fh` yields. */
module Text {

  datatype Option<+T> = None | Some(value: T)

  // ---------------------------------------------------------------- characters

  /** The characters `str.strip()` removes from a byte string. */
  predicate IsSpace(c: char) {
    c == ' ' || c == '\t' || c == '\n' || c == '\r' || c == '\U{0B}' || c == '\U{0C}'
  }

  predicate IsDigit(c: char) {
    '0' <= c <= '9'
  }

  predicate IsUpper(c: char) {
    'A' <= c <= 'Z'
  }

  function LowerChar(c: char): (r: char)
    ensures !IsUpper(r)
    ensures IsDigit(r) <==> IsDigit(c)
    ensures !IsUpper(c) ==> r == c
  {
    if IsUpper(c) then (c as int + 32) as char else c
  }

  /** `str.lower()`: every ASCII capital replaced by its small letter. */
  function Lower(s: string): (r: string)
    ensures |r| == |s|
    ensures forall i :: 0 <= i < |s| ==> r[i] == LowerChar(s[i])
  {
    seq(|s|, i requires 0 <= i < |s| => LowerChar(s[i]))
  }

  lemma LowerIdempotent(s: string)
    ensures Lower(Lower(s)) == Lower(s)
  {
  }

  /** `s.startswith(p)` */
  predicate StartsWith(s: string, p: string) {
    |p| <= |s| && s[..|p|] == p
  }

  // ---------------------------------------------------------------- strip

  function StripLeft(s: string): (r: string)
    ensures |r| <= |s|
    ensures r == "" || !IsSpace(r[0])
    decreases |s|
  {
    if |s| > 0 && IsSpace(s[0]) then StripLeft(s[1..]) else s
  }

  function StripRight(s: string): (r: string)
    ensures |r| <= |s| && r == s[..|r|]
    ensures r == "" || !IsSpace(r[|r| - 1])
    ensures |s| > 0 && !IsSpace(s[0]) ==> |r| > 0 && r[0] == s[0]
    decreases |s|
  {
    if |s| > 0 && IsSpace(s[|s| - 1]) then StripRight(s[..|s| - 1]) else s
  }

  /** `s.strip()`: the string without its leading and trailing whitespace. */
  function Strip(s: string): (r: string)
    ensures |r| <= |s|
    ensures r == "" || (!IsSpace(r[0]) && !IsSpace(r[|r| - 1]))
  {
    StripRight(StripLeft(s))
  }

  /** Whitespace only. */
  predicate AllSpace(s: string)
    decreases |s|
  {
    |s| == 0 || (IsSpace(s[0]) && AllSpace(s[1..]))
  }

  lemma {:induction false} StripLeftEmpty(s: string)
    ensures StripLeft(s) == "" <==> AllSpace(s)
    decreases |s|
  {
    if |s| > 0 && IsSpace(s[0]) {
      StripLeftEmpty(s[1..]);
    }
  }

  /** What `lstrip` leaves is a suffix of the string. */
  lemma {:induction false} StripLeftSuffix(s: string)
    ensures StripLeft(s) == s[|s| - |StripLeft(s)|..]
    decreases |s|
  {
    if |s| > 0 && IsSpace(s[0]) {
      StripLeftSuffix(s[1..]);
      assert s[1..][|s| - 1 - |StripLeft(s)|..] == s[|s| - |StripLeft(s)|..];
    }
  }

  /** The first character of a non-empty strip occurs in the string. */
  lemma StripHead(s: string)
    requires Strip(s) != ""
    ensures Strip(s)[0] in s
  {
    StripLeftSuffix(s);
    var l := StripLeft(s);
    assert Strip(s)[0] == l[0];
    assert l[0] == s[|s| - |l|];
  }

  /** A string strips to nothing exactly when it is all whitespace. */
  lemma StripEmpty(s: string)
    ensures Strip(s) == "" <==> AllSpace(s)
  {
    StripLeftEmpty(s);
  }

  /** A string that neither begins nor ends with whitespace is its own strip. */
  lemma StripOfClean(s: string)
    requires s == "" || (!IsSpace(s[0]) && !IsSpace(s[|s| - 1]))
    ensures Strip(s) == s
  {
  }

  /** Stripping a line removes its line terminator. */
  lemma StripNewline(s: string)
    requires |s| > 0 && !IsSpace(s[0]) && !IsSpace(s[|s| - 1])
    ensures Strip(s + "\n") == s
  {
    var t := s + "\n";
    assert t[0] == s[0];
    assert StripLeft(t) == t;
    assert t[|t| - 1] == '\n' && t[..|t| - 1] == s;
    assert StripRight(t) == StripRight(s);
    assert StripRight(s) == s;
  }

  /** The first character of a non-empty strip is the first non-space character. */
  lemma StripFirst(s: string)
    requires |s| > 0 && !IsSpace(s[0])
    ensures Strip(s) != "" && Strip(s)[0] == s[0]
  {
  }

  lemma {:induction false} AllSpaceChars(s: string)
    ensures AllSpace(s) <==> forall i :: 0 <= i < |s| ==> IsSpace(s[i])
    decreases |s|
  {
    if |s| > 0 {
      AllSpaceChars(s[1..]);
      assert forall i :: 1 <= i < |s| ==> s[i] == s[1..][i - 1];
    }
  }

  lemma AllSpaceAppend(a: string, b: string)
    requires AllSpace(a) && AllSpace(b)
    ensures AllSpace(a + b)
  {
    AllSpaceChars(a);
    AllSpaceChars(b);
    AllSpaceChars(a + b);
  }

  /** Leading whitespace makes no difference to `lstrip`. */
  lemma {:induction false} StripLeftSpaces(w: string, x: string)
    requires AllSpace(w)
    ensures StripLeft(w + x) == StripLeft(x)
    decreases |w|
  {
    if |w| > 0 {
      assert (w + x)[0] == w[0];
      assert (w + x)[1..] == w[1..] + x;
      StripLeftSpaces(w[1..], x);
    } else {
      assert w + x == x;
    }
  }

  /** Trailing whitespace makes no difference to `rstrip`. */
  lemma {:induction false} StripRightSpaces(x: string, w: string)
    requires AllSpace(w)
    ensures StripRight(x + w) == StripRight(x)
    decreases |w|
  {
    if |w| > 0 {
      var n := |w| - 1;
      AllSpaceChars(w);
      AllSpaceChars(w[..n]);
      assert (x + w)[|x + w| - 1] == w[n];
      assert (x + w)[..|x + w| - 1] == x + w[..n];
      StripRightSpaces(x, w[..n]);
    } else {
      assert x + w == x;
    }
  }

  /** Trailing whitespace survives `lstrip` when something else precedes it. */
  lemma {:induction false} StripLeftAppend(x: string, w: string)
    requires !AllSpace(x)
    ensures StripLeft(x + w) == StripLeft(x) + w
    decreases |x|
  {
    assert (x + w)[0] == x[0];
    if IsSpace(x[0]) {
      assert (x + w)[1..] == x[1..] + w;
      StripLeftAppend(x[1..], w);
    }
  }

  /** Whitespace around a string makes no difference to `strip`. */
  lemma StripPadded(w1: string, x: string, w2: string)
    requires AllSpace(w1) && AllSpace(w2)
    ensures Strip(w1 + x + w2) == Strip(x)
  {
    if AllSpace(x) {
      StripLeftPaddedSpace(w1, x, w2);
    } else {
      StripLeftPadded(w1, x, w2);
      StripRightSpaces(StripLeft(x), w2);
    }
  }

  lemma StripLeftPadded(w1: string, x: string, w2: string)
    requires AllSpace(w1) && AllSpace(w2) && !AllSpace(x)
    ensures StripLeft(w1 + x + w2) == StripLeft(x) + w2
  {
    assert w1 + x + w2 == w1 + (x + w2);
    StripLeftSpaces(w1, x + w2);
    StripLeftAppend(x, w2);
  }

  lemma StripLeftPaddedSpace(w1: string, x: string, w2: string)
    requires AllSpace(w1) && AllSpace(w2) && AllSpace(x)
    ensures StripLeft(w1 + x + w2) == "" && StripLeft(x) == ""
  {
    assert w1 + x + w2 == w1 + (x + w2);
    StripLeftSpaces(w1, x + w2);
    AllSpaceAppend(x, w2);
    StripLeftEmpty(x + w2);
    StripLeftEmpty(x);
  }

  /** What `lstrip` removes is whitespace. */
  lemma {:induction false} StripLeftPrefix(s: string)
    ensures AllSpace(s[..|s| - |StripLeft(s)|])
    decreases |s|
  {
    var k := |s| - |StripLeft(s)|;
    if |s| > 0 && IsSpace(s[0]) {
      StripLeftPrefix(s[1..]);
      assert s[..k][1..] == s[1..][..k - 1];
    } else {
      assert s[..k] == "";
    }
  }

  /** What `rstrip` removes is whitespace. */
  lemma {:induction false} StripRightSuffix(s: string)
    ensures AllSpace(s[|StripRight(s)|..])
    decreases |s|
  {
    var m := |StripRight(s)|;
    if |s| > 0 && IsSpace(s[|s| - 1]) {
      var n := |s| - 1;
      StripRightSuffix(s[..n]);
      assert s[m..] == s[..n][m..] + [s[n]];
      AllSpaceAppend(s[..n][m..], [s[n]]);
    } else {
      assert s[m..] == "";
    }
  }

  /** A string is its strip with whitespace on either side. */
  lemma StripParts(s: string) returns (w1: string, w2: string)
    ensures s == w1 + Strip(s) + w2 && AllSpace(w1) && AllSpace(w2)
  {
    var l := StripLeft(s);
    w1 := LeftParts(s);
    w2 := RightParts(l);
  }

  lemma LeftParts(s: string) returns (w: string)
    ensures s == w + StripLeft(s) && AllSpace(w)
  {
    StripLeftSuffix(s);
    StripLeftPrefix(s);
    w := s[..|s| - |StripLeft(s)|];
  }

  lemma RightParts(s: string) returns (w: string)
    ensures s == StripRight(s) + w && AllSpace(w)
  {
    StripRightSuffix(s);
    w := s[|StripRight(s)|..];
  }

  // ---------------------------------------------------------------- split / join

  /** `s.split(sep)` for a non-empty separator: the pieces between the occurrences of
      `sep`, found from the left without overlap. */
  function Split(s: string, sep: string): (r: seq<string>)
    requires sep != ""
    ensures |r| >= 1
    decreases |s|
  {
    if |s| < |sep| then [s]
    else if s[..|sep|] == sep then [""] + Split(s[|sep|..], sep)
    else
      var t := Split(s[1..], sep);
      [[s[0]] + t[0]] + t[1..]
  }

  /** `sep.join(parts)` */
  function Join(parts: seq<string>, sep: string): string
    decreases |parts|
  {
    if |parts| == 0 then ""
    else if |parts| == 1 then parts[0]
    else parts[0] + sep + Join(parts[1..], sep)
  }

  lemma JoinCons(x: string, t: seq<string>, sep: string)
    requires |t| >= 1
    ensures Join([x] + t, sep) == x + sep + Join(t, sep)
  {
    assert ([x] + t)[1..] == t;
  }

  lemma JoinPrepend(a: char, t: seq<string>, sep: string)
    requires |t| >= 1
    ensures Join([[a] + t[0]] + t[1..], sep) == [a] + Join(t, sep)
  {
    var r := [[a] + t[0]] + t[1..];
    if |t| > 1 {
      assert r[1..] == t[1..];
    }
  }

  /** Joining the pieces of a split gives back the string. */
  lemma {:induction false} JoinSplit(s: string, sep: string)
    requires sep != ""
    ensures Join(Split(s, sep), sep) == s
    decreases |s|
  {
    if |s| < |sep| {
    } else if s[..|sep|] == sep {
      var t := Split(s[|sep|..], sep);
      JoinSplit(s[|sep|..], sep);
      assert Split(s, sep) == [""] + t;
      JoinCons("", t, sep);
      assert s == s[..|sep|] + s[|sep|..];
    } else {
      var t := Split(s[1..], sep);
      JoinSplit(s[1..], sep);
      JoinPrepend(s[0], t, sep);
      assert s == [s[0]] + s[1..];
    }
  }

  /** The first and last characters of a join whose end pieces are not empty. */
  lemma JoinFirst(parts: seq<string>, sep: string)
    requires |parts| >= 1 && parts[0] != ""
    ensures |Join(parts, sep)| > 0 && Join(parts, sep)[0] == parts[0][0]
  {
  }

  lemma {:induction false} JoinLast(parts: seq<string>, sep: string)
    requires |parts| >= 1 && parts[|parts| - 1] != ""
    ensures var j := Join(parts, sep);
      |j| > 0 && j[|j| - 1] == parts[|parts| - 1][|parts[|parts| - 1]| - 1]
    decreases |parts|
  {
    if |parts| > 1 {
      JoinLast(parts[1..], sep);
    }
  }

  lemma {:induction false} JoinNoChar(parts: seq<string>, sep: string, c: char)
    requires c !in sep && forall i :: 0 <= i < |parts| ==> c !in parts[i]
    ensures c !in Join(parts, sep)
    decreases |parts|
  {
    if |parts| > 1 {
      JoinNoChar(parts[1..], sep, c);
    }
  }

  /** The split of a string that does not contain the separator character is the
      string alone. */
  lemma {:induction false} SplitNoSep(s: string, c: char)
    requires c !in s
    ensures Split(s, [c]) == [s]
    decreases |s|
  {
    if |s| >= 1 {
      assert s[0] in s;
      assert s[..1] == [s[0]];
      assert c !in s[1..];
      SplitNoSep(s[1..], c);
      assert s == [s[0]] + s[1..];
    }
  }

  /** No piece of a split on a single character contains that character. */
  lemma {:induction false} SplitPiecesClean(s: string, c: char)
    ensures forall i :: 0 <= i < |Split(s, [c])| ==> c !in Split(s, [c])[i]
    decreases |s|
  {
    if |s| >= 1 {
      SplitPiecesClean(s[1..], c);
      var t := Split(s[1..], [c]);
      if s[..1] != [c] {
        assert s[0] != c;
        var r := [[s[0]] + t[0]] + t[1..];
        assert Split(s, [c]) == r;
        forall i | 0 <= i < |r| ensures c !in r[i] {
          if i > 0 { assert r[i] == t[i]; }
        }
      } else {
        assert s[1..] == s[|[c]|..];
      }
    }
  }

  /** Splitting the join of pieces that do not contain the separator character gives
      back the pieces. */
  lemma {:induction false} SplitJoin(parts: seq<string>, c: char)
    requires |parts| >= 1
    requires forall i :: 0 <= i < |parts| ==> c !in parts[i]
    ensures Split(Join(parts, [c]), [c]) == parts
    decreases |parts|
  {
    if |parts| == 1 {
      SplitNoSep(parts[0], c);
    } else {
      SplitJoin(parts[1..], c);
      SplitJoinCons(parts[0], Join(parts[1..], [c]), c);
      assert Split(Join(parts, [c]), [c]) == [parts[0]] + parts[1..];
    }
  }

  lemma {:induction false} SplitJoinCons(p: string, rest: string, c: char)
    requires c !in p
    ensures Split(p + [c] + rest, [c]) == [p] + Split(rest, [c])
    decreases |p|
  {
    var s := p + [c] + rest;
    if |p| == 0 {
      assert s[..1] == [c];
      assert s[1..] == rest;
    } else {
      assert p[0] in p;
      assert s[..1] == [p[0]];
      assert s[1..] == p[1..] + [c] + rest;
      assert c !in p[1..];
      SplitJoinCons(p[1..], rest, c);
      assert [s[0]] + p[1..] == p;
    }
  }

  /** A single-character split gives the one empty piece exactly on the empty string. */
  lemma SplitBlank(s: string, c: char)
    ensures Split(s, [c]) == [""] <==> s == ""
  {
    if s != "" {
      if s[..1] == [c] {
        assert |Split(s, [c])| >= 2;
      } else {
        assert Split(s, [c])[0] != "";
      }
    }
  }

  /** The pieces of `a + b`: those of `a`, with the last one joined to the first one
      of `b`, then the rest of those of `b` (see `Glue`). */
  lemma {:induction false} SplitConcat(a: string, b: string, c: char)
    ensures SplitsAt(a, b, c)
    decreases |a|
  {
    if |a| == 0 {
      var p, q := Split(a, [c]), Split(b, [c]);
      assert a + b == b;
      assert p == [""];
      assert p[..|p| - 1] == [];
      assert p[|p| - 1] + q[0] == q[0];
      assert [q[0]] + q[1..] == q;
    } else {
      SplitConcat(a[1..], b, c);
      if a[..1] == [c] {
        SplitConcatSep(a, b, c);
      } else {
        SplitConcatChar(a, b, c);
      }
    }
  }

  predicate SplitsAt(a: string, b: string, c: char) {
    Split(a + b, [c]) == Glue(Split(a, [c]), Split(b, [c]))
  }

  /** Two lists of pieces, the last of the first joined to the first of the second. */
  function Glue(p: seq<string>, q: seq<string>): seq<string>
    requires |p| >= 1 && |q| >= 1
  {
    p[..|p| - 1] + [p[|p| - 1] + q[0]] + q[1..]
  }

  /** Where the glued pieces come from, by position. */
  lemma GluedAt(p: seq<string>, q: seq<string>, k: nat)
    requires |p| >= 1 && |q| >= 1
    ensures var g := Glue(p, q);
      && |g| == |p| + |q| - 1
      && (k < |p| - 1 ==> g[k] == p[k])
      && (k == |p| - 1 ==> g[k] == p[k] + q[0])
      && (|p| <= k < |g| ==> g[k] == q[k - |p| + 1])
  {
  }

  lemma SplitConcatSep(a: string, b: string, c: char)
    requires |a| >= 1 && a[..1] == [c] && SplitsAt(a[1..], b, c)
    ensures SplitsAt(a, b, c)
  {
    var p, q := Split(a, [c]), Split(b, [c]);
    var ab := a + b;
    assert ab[..1] == a[..1];
    assert ab[1..] == a[1..] + b;
    var u, t := Split(a[1..], [c]), Split(a[1..] + b, [c]);
    assert p == [""] + u;
    assert Split(ab, [c]) == [""] + t;
    ConsSnoc("", u, q);
  }

  lemma SplitConcatChar(a: string, b: string, c: char)
    requires |a| >= 1 && a[..1] != [c] && SplitsAt(a[1..], b, c)
    ensures SplitsAt(a, b, c)
  {
    var p, q := Split(a, [c]), Split(b, [c]);
    var ab := a + b;
    assert ab[..1] == a[..1];
    assert ab[1..] == a[1..] + b;
    var u, t := Split(a[1..], [c]), Split(a[1..] + b, [c]);
    var h := [a[0]] + u[0];
    assert p == [h] + u[1..];
    assert Split(ab, [c]) == [[a[0]] + t[0]] + t[1..];
    if |u| == 1 {
      assert t == [u[0] + q[0]] + q[1..];
      assert p == [h];
      assert [a[0]] + (u[0] + q[0]) == h + q[0];
    } else {
      assert u == [u[0]] + u[1..];
      ConsSnoc(u[0], u[1..], q);
      ConsSnoc(h, u[1..], q);
    }
  }

  /** Gluing after a list that starts with `h`. */
  lemma ConsSnoc(h: string, u: seq<string>, q: seq<string>)
    requires |u| >= 1 && |q| >= 1
    ensures Glue([h] + u, q) == [h] + Glue(u, q)
  {
    var p := [h] + u;
    assert p[..|p| - 1] == [h] + u[..|u| - 1];
  }

  /** Every piece of a split of whitespace is whitespace. */
  lemma {:induction false} SplitSpaces(s: string, c: char)
    requires AllSpace(s)
    ensures forall i :: 0 <= i < |Split(s, [c])| ==> AllSpace(Split(s, [c])[i])
    decreases |s|
  {
    if |s| >= 1 {
      SplitSpaces(s[1..], c);
      var t := Split(s[1..], [c]);
      if s[..1] != [c] {
        var r := [[s[0]] + t[0]] + t[1..];
        assert Split(s, [c]) == r;
        assert r[0][1..] == t[0];
        forall i | 1 <= i < |r| ensures AllSpace(r[i]) {
          assert r[i] == t[i];
        }
      } else {
        assert s[1..] == s[|[c]|..];
        assert Split(s, [c]) == [""] + t;
      }
    }
  }

  // ---------------------------------------------------------------- integers

  predicate IsDigits(s: string) {
    |s| > 0 && forall i :: 0 <= i < |s| ==> IsDigit(s[i])
  }

  function DigitValue(c: char): (r: nat)
    requires IsDigit(c)
    ensures r < 10
  {
    (c - '0') as nat
  }

  function DigitChar(d: nat): (c: char)
    requires d < 10
    ensures IsDigit(c) && DigitValue(c) == d
  {
    ('0' as int + d) as char
  }

  /** The value of a run of decimal digits, most significant first. */
  function DigitsValue(s: string): nat
    requires forall i :: 0 <= i < |s| ==> IsDigit(s[i])
    decreases |s|
  {
    if |s| == 0 then 0 else 10 * DigitsValue(s[..|s| - 1]) + DigitValue(s[|s| - 1])
  }

  /** `str(n)` of a non-negative integer: its decimal digits, no leading zero. */
  function NatToString(n: nat): (r: string)
    ensures IsDigits(r)
    decreases n
  {
    if n < 10 then [DigitChar(n)] else NatToString(n / 10) + [DigitChar(n % 10)]
  }

  /** `str(n)` of an integer. */
  function IntToString(n: int): (r: string)
    ensures |r| > 0 && !IsSpace(r[0]) && !IsSpace(r[|r| - 1])
    ensures '\t' !in r && '\n' !in r && '.' !in r && '#' !in r && "_" != r
    ensures n >= 0 <==> IsDigits(r)
    ensures n >= 0 ==> '-' !in r
  {
    if n < 0 then "-" + NatToString(-n) else NatToString(n)
  }

  /** `int(s)` on a byte string: surrounding whitespace, an optional sign, more
      whitespace after the sign, and at least one decimal digit; `None` is the
      `ValueError` Python raises otherwise. */
  function ParseInt(s: string): (r: Option<int>)
    ensures r.Some? && r.value < 0 ==> '-' in s
  {
    var t := Strip(s);
    if |t| == 0 then None
    else if t[0] == '-' || t[0] == '+' then
      var u := StripLeft(t[1..]);
      if !IsDigits(u) then None
      else if t[0] == '-' then StripHead(s); Some(0 - DigitsValue(u))
      else Some(DigitsValue(u))
    else if IsDigits(t) then Some(DigitsValue(t))
    else None
  }

  lemma {:induction false} NatToStringValue(n: nat)
    ensures DigitsValue(NatToString(n)) == n
    decreases n
  {
    if n >= 10 {
      NatToStringValue(n / 10);
      var s := NatToString(n);
      assert s[..|s| - 1] == NatToString(n / 10);
    }
  }

  /** A run of digits parses as its value. */
  lemma ParseDigits(d: string)
    requires IsDigits(d)
    ensures ParseInt(d) == Some(DigitsValue(d))
  {
    assert Strip(d) == d by { StripOfClean(d); }
  }

  /** A minus sign followed by a run of digits parses as the negated value. */
  lemma ParseNegative(d: string)
    requires IsDigits(d)
    ensures ParseInt("-" + d) == Some(0 - DigitsValue(d))
  {
    var s := "-" + d;
    assert s[0] == '-' && s[1..] == d;
    assert Strip(s) == s by {
      assert s[|s| - 1] == d[|d| - 1];
      StripOfClean(s);
    }
    ParseMinus(s, d);
  }

  lemma ParseMinus(s: string, d: string)
    requires Strip(s) == s && |s| > 0 && s[0] == '-' && s[1..] == d && IsDigits(d)
    ensures ParseInt(s) == Some(0 - DigitsValue(d))
  {
  }

  /** `int(str(n)) == n` */
  lemma ParseIntToString(n: int)
    ensures ParseInt(IntToString(n)) == Some(n)
  {
    if n < 0 {
      var d := NatToString(-n);
      assert IntToString(n) == "-" + d;
      assert DigitsValue(d) == -n by { NatToStringValue(-n); }
      ParseNegative(d);
    } else {
      var d := NatToString(n);
      assert IntToString(n) == d;
      assert DigitsValue(d) == n by { NatToStringValue(n); }
      ParseDigits(d);
    }
  }

  /** Only the underscore placeholder and other non-numbers fail to parse: `_` does. */
  lemma ParseUnderscore()
    ensures ParseInt("_") == None
  {
    assert StripLeft("_") == "_";
    assert StripRight("_") == "_";
  }

  /** A string whose first character is a comment mark does not parse as an integer. */
  lemma ParseHash(s: string)
    requires |s| > 0 && s[0] == '#'
    ensures ParseInt(s) == None
  {
    StripFirst(s);
  }

  /** Whitespace does not parse as an integer. */
  lemma ParseSpaces(s: string)
    requires AllSpace(s)
    ensures ParseInt(s) == None
  {
    StripEmpty(s);
  }

  /** `int` ignores leading whitespace. */
  lemma ParseLeading(w: string, x: string)
    requires AllSpace(w)
    ensures ParseInt(w + x) == ParseInt(x)
  {
    StripPadded(w, x, "");
    assert w + x + "" == w + x;
  }

  /** `int` ignores trailing whitespace. */
  lemma ParseTrailing(x: string, w: string)
    requires AllSpace(w)
    ensures ParseInt(x + w) == ParseInt(x)
  {
    StripPadded("", x, w);
    assert "" + x + w == x + w;
  }

  // ---------------------------------------------------------------- files as lines

  /** The text of a file written as the given chunks. */
  function Concat(chunks: seq<string>): string
    decreases |chunks|
  {
    if |chunks| == 0 then "" else Concat(chunks[..|chunks| - 1]) + chunks[|chunks| - 1]
  }

  /** Each string followed by a newline. */
  function Terminate(bs: seq<string>): (ls: seq<string>)
    ensures |ls| == |bs| && forall i :: 0 <= i < |bs| ==> ls[i] == bs[i] + "\n"
  {
    seq(|bs|, i requires 0 <= i < |bs| => bs[i] + "\n")
  }

  /** The lines `for line in fh` yields for a file with this text: each piece up to and
      including a newline, then the rest if it is not empty. */
  function FileLines(text: string): (r: seq<string>)
  {
    var pieces := Split(text, "\n");
    Terminate(pieces[..|pieces| - 1])
      + (if pieces[|pieces| - 1] == "" then [] else [pieces[|pieces| - 1]])
  }

  predicate IsLine(l: string) {
    |l| > 0 && l[|l| - 1] == '\n' && '\n' !in l[..|l| - 1]
  }

  function Body(l: string): string
    requires IsLine(l)
  {
    l[..|l| - 1]
  }

  function Bodies(ls: seq<string>): (bs: seq<string>)
    requires forall i :: 0 <= i < |ls| ==> IsLine(ls[i])
    ensures |bs| == |ls| && forall i :: 0 <= i < |ls| ==> ls[i] == bs[i] + "\n" && '\n' !in bs[i]
    decreases |ls|
  {
    if |ls| == 0 then [] else Bodies(ls[..|ls| - 1]) + [Body(ls[|ls| - 1])]
  }

  lemma {:induction false} ConcatLines(ls: seq<string>)
    requires forall i :: 0 <= i < |ls| ==> IsLine(ls[i])
    ensures Concat(ls) == Join(Bodies(ls) + [""], "\n")
    decreases |ls|
  {
    if |ls| > 0 {
      var n := |ls| - 1;
      var bs := Bodies(ls);
      var pre := Bodies(ls[..n]);
      ConcatLines(ls[..n]);
      JoinSnoc(pre + [""], Body(ls[n]));
      assert (pre + [""])[..|pre + [""]| - 1] + [Body(ls[n])] == bs;
      JoinLastEmpty(bs);
    }
  }

  lemma {:induction false} JoinSnoc(ps: seq<string>, x: string)
    requires |ps| >= 1 && ps[|ps| - 1] == ""
    ensures Join(ps, "\n") + x == Join(ps[..|ps| - 1] + [x], "\n")
    decreases |ps|
  {
    if |ps| > 1 {
      JoinSnoc(ps[1..], x);
      assert (ps[..|ps| - 1] + [x])[1..] == ps[1..][..|ps| - 2] + [x];
    }
  }

  lemma {:induction false} JoinLastEmpty(ps: seq<string>)
    ensures Join(ps + [""], "\n") == Join(ps, "\n") + (if |ps| == 0 then "" else "\n")
    decreases |ps|
  {
    if |ps| > 1 {
      JoinLastEmpty(ps[1..]);
      assert (ps + [""])[1..] == ps[1..] + [""];
    } else if |ps| == 1 {
      assert (ps + [""])[1..] == [""];
    }
  }

  lemma FileLinesOfPieces(text: string, bs: seq<string>)
    requires Split(text, "\n") == bs + [""]
    ensures FileLines(text) == Terminate(bs)
  {
    var pieces := bs + [""];
    assert pieces[..|pieces| - 1] == bs;
  }

  lemma {:induction false} SplitConcatLines(ls: seq<string>)
    requires forall i :: 0 <= i < |ls| ==> IsLine(ls[i])
    ensures Split(Concat(ls), "\n") == Bodies(ls) + [""]
  {
    var bs := Bodies(ls);
    var parts := bs + [""];
    ConcatLines(ls);
    forall i | 0 <= i < |parts| ensures '\n' !in parts[i] {
      if i < |bs| { assert parts[i] == bs[i]; }
    }
    SplitJoin(parts, '\n');
    assert "\n" == ['\n'];
  }

  /** Reading back a file written as complete lines yields exactly those lines. */
  lemma FileLinesConcat(ls: seq<string>)
    requires forall i :: 0 <= i < |ls| ==> IsLine(ls[i])
    ensures FileLines(Concat(ls)) == ls
  {
    SplitConcatLines(ls);
    FileLinesOfPieces(Concat(ls), Bodies(ls));
    TerminateBodies(ls);
  }

  lemma TerminateBodies(ls: seq<string>)
    requires forall i :: 0 <= i < |ls| ==> IsLine(ls[i])
    ensures Terminate(Bodies(ls)) == ls
  {
    var bs := Bodies(ls);
    var t := Terminate(bs);
    forall i | 0 <= i < |ls| ensures t[i] == ls[i] {
      assert t[i] == bs[i] + "\n";
    }
  }
}
