/**
 * The parts of Python's `str` that the modelled code relies on: `isspace`,
 * `strip`, `split` on one separator character, `startswith`/`endswith`,
 * the code-point ordering of `<`, and `str(int)`.
 */
module Text {

  /** Python's `str.isspace()` for one character. */
  predicate IsSpace(c: char)
  {
    || c == ' '
    || '\t' <= c <= '\r'
    || '\U{1C}' <= c <= '\U{1F}'
    || c == '\U{85}' || c == '\U{A0}' || c == '\U{1680}'
    || '\U{2000}' <= c <= '\U{200A}'
    || c == '\U{2028}' || c == '\U{2029}' || c == '\U{202F}' || c == '\U{205F}' || c == '\U{3000}'
  }

  /** Neither end of `s` is whitespace: what `strip()` leaves behind. */
  predicate Stripped(s: string)
  {
    s == [] || (!IsSpace(s[0]) && !IsSpace(s[|s| - 1]))
  }

  /** `s.lstrip()`: the longest suffix of `s` that does not start with whitespace. */
  function TrimStart(s: string): (r: string)
    ensures |r| <= |s| && r == s[|s| - |r|..]
    ensures r == [] || !IsSpace(r[0])
    ensures forall i :: 0 <= i < |s| - |r| ==> IsSpace(s[i])
  {
    if |s| > 0 && IsSpace(s[0]) then TrimStart(s[1..]) else s
  }

  /** `s.rstrip()`: the longest prefix of `s` that does not end with whitespace. */
  function TrimEnd(s: string): (r: string)
    ensures |r| <= |s| && r == s[..|r|]
    ensures r == [] || !IsSpace(r[|r| - 1])
    ensures forall i :: |r| <= i < |s| ==> IsSpace(s[i])
  {
    if |s| > 0 && IsSpace(s[|s| - 1]) then TrimEnd(s[..|s| - 1]) else s
  }

  /** `s.strip()`. */
  function Strip(s: string): (r: string)
    ensures Stripped(r)
    ensures |r| <= |s|
  {
    var l := TrimStart(s);
    var r := TrimEnd(l);
    assert r != [] ==> r[0] == l[0];
    r
  }

  /** `r` is `s[i..j]`, and everything of `s` outside that slice is whitespace. */
  predicate SpaceOutside(s: string, r: string, i: int, j: int)
  {
    0 <= i <= j <= |s| && r == s[i..j]
    && (forall k :: 0 <= k < i ==> IsSpace(s[k])) && (forall k :: j <= k < |s| ==> IsSpace(s[k]))
  }

  /** `s.strip()` is the slice of `s` left once the whitespace at both ends is cut off. */
  lemma StripIsSlice(s: string)
    ensures exists i, j :: SpaceOutside(s, Strip(s), i, j)
  {
    var l := TrimStart(s);
    var r := TrimEnd(l);
    TrimmedBothEnds(s, l, r);
    assert SpaceOutside(s, Strip(s), |s| - |l|, |s| - |l| + |r|);
  }

  /** A suffix of `s` after whitespace, cut again before trailing whitespace, is a slice with only whitespace around it. */
  lemma TrimmedBothEnds(s: string, l: string, r: string)
    requires |l| <= |s| && l == s[|s| - |l|..] && forall k :: 0 <= k < |s| - |l| ==> IsSpace(s[k])
    requires |r| <= |l| && r == l[..|r|] && forall k :: |r| <= k < |l| ==> IsSpace(l[k])
    ensures SpaceOutside(s, r, |s| - |l|, |s| - |l| + |r|)
  {
    var i := |s| - |l|;
    forall k | i + |r| <= k < |s| ensures IsSpace(s[k]) {
      assert s[k] == l[k - i];
    }
    assert r == s[i..i + |r|];
  }

  /** Stripping text that is already stripped changes nothing, so `strip` is idempotent. */
  lemma StripStripped(s: string)
    requires Stripped(s)
    ensures Strip(s) == s
  {
  }

  lemma {:induction false} StripIdempotent(s: string)
    ensures Strip(Strip(s)) == Strip(s)
  {
    StripStripped(Strip(s));
  }

  /** Whitespace at either end does not survive `strip`. */
  lemma {:induction false} StripSurroundingSpace(w1: string, s: string, w2: string)
    requires forall i :: 0 <= i < |w1| ==> IsSpace(w1[i])
    requires forall i :: 0 <= i < |w2| ==> IsSpace(w2[i])
    ensures Strip(w1 + s + w2) == Strip(s)
  {
    assert w1 + s + w2 == w1 + (s + w2);
    TrimStartSpacePrefix(w1, s + w2);
    TrimStartAppend(s, w2);
    var l := TrimStart(s);
    assert TrimStart(w1 + s + w2) == if l == [] then [] else l + w2;
    if l != [] {
      TrimEndSpaceSuffix(l, w2);
    }
  }

  lemma {:induction false} TrimStartSpacePrefix(w: string, s: string)
    requires forall i :: 0 <= i < |w| ==> IsSpace(w[i])
    ensures TrimStart(w + s) == TrimStart(s)
  {
    if w == [] {
      assert w + s == s;
    } else {
      assert (w + s)[1..] == w[1..] + s;
      TrimStartSpacePrefix(w[1..], s);
    }
  }

  lemma {:induction false} TrimEndSpaceSuffix(s: string, w: string)
    requires forall i :: 0 <= i < |w| ==> IsSpace(w[i])
    ensures TrimEnd(s + w) == TrimEnd(s)
  {
    if w == [] {
      assert s + w == s;
    } else {
      assert (s + w)[..|s + w| - 1] == s + w[..|w| - 1];
      TrimEndSpaceSuffix(s, w[..|w| - 1]);
    }
  }

  /** Appending whitespace to `s` lengthens `s.lstrip()` by that whitespace, unless `s` is all whitespace. */
  lemma {:induction false} TrimStartAppend(s: string, w: string)
    requires forall i :: 0 <= i < |w| ==> IsSpace(w[i])
    ensures TrimStart(s + w) == if TrimStart(s) == [] then [] else TrimStart(s) + w
  {
    if s == [] {
      assert s + w == w;
      TrimStartAllSpace(w);
    } else if IsSpace(s[0]) {
      assert (s + w)[1..] == s[1..] + w;
      TrimStartAppend(s[1..], w);
    } else {
      assert (s + w)[0] == s[0];
    }
  }

  lemma {:induction false} TrimStartAllSpace(w: string)
    requires forall i :: 0 <= i < |w| ==> IsSpace(w[i])
    ensures TrimStart(w) == []
  {
    if w != [] {
      TrimStartAllSpace(w[1..]);
    }
  }

  /** `s.startswith(p)`. */
  predicate StartsWith(s: string, p: string)
  {
    |p| <= |s| && s[..|p|] == p
  }

  /** `s.endswith(p)`. */
  predicate EndsWith(s: string, p: string)
  {
    |p| <= |s| && s[|s| - |p|..] == p
  }

  /** The position of the first `c` in `s`. */
  function IndexOf(s: string, c: char): (i: nat)
    requires c in s
    ensures i < |s| && s[i] == c && c !in s[..i]
  {
    if s[0] == c then 0 else 1 + IndexOf(s[1..], c)
  }

  /** Cutting `s` at its first `c`: the text before it, which holds no `c`, and the text after it. */
  lemma CutAtFirst(s: string, c: char) returns (x: string, y: string)
    requires c in s
    ensures s == x + [c] + y && c !in x
    ensures forall i :: 0 <= i < |x| ==> x[i] == s[i]
    ensures forall i :: 0 <= i < |y| ==> y[i] == s[|x| + 1 + i]
  {
    var i := IndexOf(s, c);
    x, y := s[..i], s[i + 1..];
    assert s == x + [c] + y;
  }

  /** `s.split(sep)` for a one-character separator: never empty, empty pieces kept. */
  function Split(s: string, sep: char): (pieces: seq<string>)
    ensures |pieces| >= 1
    decreases |s|
  {
    if sep !in s then [s]
    else
      var i := IndexOf(s, sep);
      [s[..i]] + Split(s[i + 1..], sep)
  }

  /** The pieces hold no separator, and joining them with it gives the text back. */
  lemma {:induction false} SplitPieces(s: string, sep: char)
    ensures forall i :: 0 <= i < |Split(s, sep)| ==> sep !in Split(s, sep)[i]
    ensures Join(Split(s, sep), sep) == s
    decreases |s|
  {
    if sep in s {
      var i := IndexOf(s, sep);
      var rest := Split(s[i + 1..], sep);
      SplitPieces(s[i + 1..], sep);
      var pieces := [s[..i]] + rest;
      assert pieces[1..] == rest;
      assert s == s[..i] + [sep] + s[i + 1..];
      assert forall k :: 0 < k < |pieces| ==> pieces[k] == rest[k - 1];
    }
  }

  /** `sep.join(pieces)`. */
  function Join(pieces: seq<string>, sep: char): string
  {
    if |pieces| == 0 then ""
    else if |pieces| == 1 then pieces[0]
    else pieces[0] + [sep] + Join(pieces[1..], sep)
  }

  /** Joining separator-free pieces and splitting again gives the pieces back. */
  lemma {:induction false} SplitJoin(pieces: seq<string>, sep: char)
    requires |pieces| >= 1
    requires forall i :: 0 <= i < |pieces| ==> sep !in pieces[i]
    ensures Split(Join(pieces, sep), sep) == pieces
  {
    if |pieces| == 1 {
      assert Split(pieces[0], sep) == [pieces[0]];
    } else {
      var tail := pieces[1..];
      assert forall i :: 0 <= i < |tail| ==> tail[i] == pieces[i + 1];
      SplitAtFreePrefix(pieces[0], Join(tail, sep), sep);
      SplitJoin(tail, sep);
      assert pieces == [pieces[0]] + tail;
    }
  }

  /** In `a + [c] + b`, the first `c` is the one after `a` when `a` holds none. */
  lemma IndexOfAfterFree(a: string, b: string, c: char)
    requires c !in a
    ensures IndexOf(a + [c] + b, c) == |a|
  {
    var s := a + [c] + b;
    var i := IndexOf(s, c);
    assert s[..|a|] == a;
    assert s[|a|] == c;
    assert s[..i] == s[..|a| + 1][..i];
  }

  /** A `c` inside `a` is found before anything appended to `a`. */
  lemma IndexOfPrefix(a: string, t: string, c: char)
    requires c in a
    ensures IndexOf(a + t, c) == IndexOf(a, c)
  {
    var i := IndexOf(a, c);
    var j := IndexOf(a + t, c);
    assert (a + t)[i] == c;
    assert (a + t)[..i] == a[..i];
  }

  /** Splitting at a separator splits the pieces there: `(a + sep + b).split(sep) == a.split(sep) + b.split(sep)`. */
  lemma {:induction false} SplitConcat(a: string, b: string, sep: char)
    ensures Split(a + [sep] + b, sep) == Split(a, sep) + Split(b, sep)
    decreases |a|, 1
  {
    if sep !in a {
      SplitAtFreePrefix(a, b, sep);
    } else {
      SplitConcatAtFirst(a, b, sep);
    }
  }

  lemma {:induction false} SplitConcatAtFirst(a: string, b: string, sep: char)
    requires sep in a
    ensures Split(a + [sep] + b, sep) == Split(a, sep) + Split(b, sep)
    decreases |a|, 0
  {
    var head, rest := SplitAtFirst(a, b, sep);
    SplitConcat(rest, b, sep);
    ConsAppend(Split(a + [sep] + b, sep), Split(a, sep), Split(rest + [sep] + b, sep),
               Split(rest, sep), Split(b, sep), head);
  }

  lemma ConsAppend<T>(whole: seq<T>, left: seq<T>, wholeRest: seq<T>, leftRest: seq<T>, right: seq<T>, head: T)
    requires whole == [head] + wholeRest && left == [head] + leftRest
    requires wholeRest == leftRest + right
    ensures whole == left + right
  {
    AppendAssoc([head], leftRest, right);
  }

  lemma AppendAssoc<T>(x: seq<T>, y: seq<T>, z: seq<T>)
    ensures x + (y + z) == x + y + z
  {
  }

  /** When `a` holds no separator, `a` is the first piece of `a + sep + b`. */
  lemma SplitAtFreePrefix(a: string, b: string, sep: char)
    requires sep !in a
    ensures Split(a + [sep] + b, sep) == [a] + Split(b, sep)
    ensures Split(a, sep) == [a]
  {
    var s := a + [sep] + b;
    IndexOfAfterFree(a, b, sep);
    assert s[..|a|] == a;
    assert s[|a| + 1..] == b;
    SplitFirst(s, sep);
  }

  /** When `a` holds a separator, the pieces of `a + sep + b` start as those of `a` do. */
  lemma SplitAtFirst(a: string, b: string, sep: char) returns (head: string, rest: string)
    requires sep in a
    ensures |rest| < |a|
    ensures Split(a + [sep] + b, sep) == [head] + Split(rest + [sep] + b, sep)
    ensures Split(a, sep) == [head] + Split(rest, sep)
  {
    var i := IndexOf(a, sep);
    head, rest := a[..i], a[i + 1..];
    var t := [sep] + b;
    AppendAssoc(a, [sep], b);
    AppendAssoc(rest, [sep], b);
    IndexOfPrefix(a, t, sep);
    assert (a + t)[..i] == head;
    assert (a + t)[i + 1..] == rest + t;
    SplitFirst(a + t, sep);
    SplitFirst(a, sep);
  }

  /** With a separator present, the first piece ends at the first separator. */
  lemma SplitFirst(s: string, sep: char)
    requires sep in s
    ensures Split(s, sep) == [s[..IndexOf(s, sep)]] + Split(s[IndexOf(s, sep) + 1..], sep)
  {
  }

  /** Equal strings with the same prefix agree after it. */
  lemma PrefixCancel(p: string, x: string, y: string)
    requires p + x == p + y
    ensures x == y
  {
    assert x == (p + x)[|p|..];
    assert y == (p + y)[|p|..];
  }

  /** Equal strings with the same suffix agree before it. */
  lemma SuffixCancel(x: string, y: string, q: string)
    requires x + q == y + q
    ensures x == y
  {
    assert x == (x + q)[..|x|];
    assert y == (y + q)[..|y|];
  }

  /** Cutting at the first separator: `x + sep + y` determines `x` and `y` when `x` holds no separator. */
  lemma SeparatedInjective(x: string, y: string, u: string, v: string, sep: char)
    requires sep !in x && sep !in u
    requires x + [sep] + y == u + [sep] + v
    ensures x == u && y == v
  {
    IndexOfAfterFree(x, y, sep);
    IndexOfAfterFree(u, v, sep);
    var s := x + [sep] + y;
    assert x == s[..|x|];
    assert u == s[..|u|];
    assert y == s[|x| + 1..];
    assert v == s[|u| + 1..];
  }

  /** Python's `a < b` on strings: lexicographic by code point, a proper prefix first. */
  predicate StrLt(a: string, b: string)
  {
    if |a| == 0 then |b| > 0
    else if |b| == 0 then false
    else if a[0] == b[0] then StrLt(a[1..], b[1..])
    else a[0] < b[0]
  }

  lemma {:induction false} StrLtIrreflexive(a: string)
    ensures !StrLt(a, a)
  {
    if |a| > 0 {
      StrLtIrreflexive(a[1..]);
    }
  }

  lemma {:induction false} StrLtTransitive(a: string, b: string, c: string)
    requires StrLt(a, b) && StrLt(b, c)
    ensures StrLt(a, c)
  {
    if |a| > 0 && |b| > 0 && |c| > 0 && a[0] == b[0] && b[0] == c[0] {
      StrLtTransitive(a[1..], b[1..], c[1..]);
    }
  }

  /** Two different strings are always ordered one way or the other. */
  lemma {:induction false} StrLtTotal(a: string, b: string)
    requires a != b
    ensures StrLt(a, b) || StrLt(b, a)
  {
    if |a| > 0 && |b| > 0 && a[0] == b[0] {
      assert a == [a[0]] + a[1..] && b == [b[0]] + b[1..];
      StrLtTotal(a[1..], b[1..]);
    }
  }

  lemma {:induction false} StrLtAsymmetric(a: string, b: string)
    requires StrLt(a, b)
    ensures !StrLt(b, a)
  {
    if !StrLt(b, a) {
    } else {
      StrLtTransitive(a, b, a);
      StrLtIrreflexive(a);
    }
  }

  predicate IsDigit(c: char)
  {
    '0' <= c <= '9'
  }

  function DigitChar(d: nat): (c: char)
    requires d < 10
    ensures IsDigit(c)
  {
    ('0' as int + d) as char
  }

  function DigitValue(c: char): (d: nat)
    requires IsDigit(c)
    ensures d < 10 && DigitChar(d) == c
  {
    (c as int - '0' as int)
  }

  /** `str(n)` for a natural number: decimal digits, no leading zero. */
  function NatToString(n: nat): (r: string)
    ensures |r| >= 1
    ensures forall i :: 0 <= i < |r| ==> IsDigit(r[i])
    ensures r[0] == '0' ==> n == 0
  {
    if n < 10 then [DigitChar(n)] else NatToString(n / 10) + [DigitChar(n % 10)]
  }

  /** The value of a string of decimal digits. */
  function ParseNat(s: string): nat
    requires forall i :: 0 <= i < |s| ==> IsDigit(s[i])
  {
    if s == [] then 0 else 10 * ParseNat(s[..|s| - 1]) + DigitValue(s[|s| - 1])
  }

  /** Reading the digits back gives the number: `int(str(n)) == n`. */
  lemma {:induction false} ParseNatToString(n: nat)
    ensures ParseNat(NatToString(n)) == n
  {
    var s := NatToString(n);
    if n >= 10 {
      var q, d := n / 10, n % 10;
      assert s == NatToString(q) + [DigitChar(d)];
      assert s[..|s| - 1] == NatToString(q);
      assert DigitValue(s[|s| - 1]) == d;
      ParseNatToString(q);
      assert ParseNat(s) == 10 * q + d;
    }
  }

  /** `str(i)` for any integer: a minus sign before the digits of a negative number. */
  function IntToString(i: int): (r: string)
    ensures |r| >= 1
    ensures (r[0] == '-') == (i < 0)
    ensures i >= 0 ==> r == NatToString(i)
    ensures i < 0 ==> r == "-" + NatToString(-i)
  {
    if i < 0 then "-" + NatToString(-i) else NatToString(i)
  }

  /** Different numbers print differently. */
  lemma {:induction false} IntToStringInjective(i: int, j: int)
    requires IntToString(i) == IntToString(j)
    ensures i == j
  {
    assert (i < 0) == (j < 0);
    if i < 0 {
      var m, n: nat := -i, -j;
      assert IntToString(i) == "-" + NatToString(m);
      assert IntToString(j) == "-" + NatToString(n);
      PrefixCancel("-", NatToString(m), NatToString(n));
      NatToStringInjective(m, n);
    } else {
      assert IntToString(i) == NatToString(i);
      assert IntToString(j) == NatToString(j);
      NatToStringInjective(i, j);
    }
  }

  lemma NatToStringInjective(m: nat, n: nat)
    requires NatToString(m) == NatToString(n)
    ensures m == n
  {
    ParseNatToString(m);
    ParseNatToString(n);
  }
}
