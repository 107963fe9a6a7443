/** The Python `str` operations the embed generator relies on, on
    `string` = `seq<char>`: `isspace`, `strip()`, `split(sep)`,
    `split(sep, 1)` and `sep.join(...)`. */
module PyText {
  import opened Common

  /** Python's `str.isspace` for one character: the code points whose
      Unicode category is Zs or whose bidirectional class is WS, B or S. */
  predicate IsSpace(c: char) {
    || ('\t' <= c <= '\r')
    || ('\U{1C}' <= c <= '\U{1F}')
    || c == ' '
    || c == '\U{85}'
    || c == '\U{A0}'
    || c == '\U{1680}'
    || ('\U{2000}' <= c <= '\U{200A}')
    || c == '\U{2028}'
    || c == '\U{2029}'
    || c == '\U{202F}'
    || c == '\U{205F}'
    || c == '\U{3000}'
  }

  /** `not s or s.isspace()`: empty, or whitespace only. */
  predicate IsBlank(s: string) {
    forall i :: 0 <= i < |s| ==> IsSpace(s[i])
  }

  /** What `strip()` leaves: no whitespace at either end. */
  predicate IsTrimmed(s: string) {
    s == [] || (!IsSpace(s[0]) && !IsSpace(s[|s| - 1]))
  }

  /** Python's `s.lstrip()`: drop leading whitespace. */
  function LStrip(s: string): (r: string)
    ensures |r| <= |s|
    ensures r == [] || !IsSpace(r[0])
    ensures r != [] ==> r[|r| - 1] == s[|s| - 1]
  {
    if s != [] && IsSpace(s[0]) then LStrip(s[1..]) else s
  }

  /** Python's `s.rstrip()`: drop trailing whitespace. */
  function RStrip(s: string): (r: string)
    ensures |r| <= |s|
    ensures r == [] || !IsSpace(r[|r| - 1])
    ensures r != [] ==> r[0] == s[0]
  {
    if s != [] && IsSpace(s[|s| - 1]) then RStrip(s[..|s| - 1]) else s
  }

  /** Only blank text loses everything to `lstrip()`. */
  lemma {:induction false} LStripEmpty(s: string)
    ensures LStrip(s) == [] <==> IsBlank(s)
  {
    if s != [] && IsSpace(s[0]) {
      LStripEmpty(s[1..]);
      if IsBlank(s[1..]) {
        forall i | 0 <= i < |s| ensures IsSpace(s[i]) {
          if i > 0 { assert s[i] == s[1..][i - 1]; }
        }
      }
      if IsBlank(s) {
        forall i | 0 <= i < |s| - 1 ensures IsSpace(s[1..][i]) {
          assert s[1..][i] == s[i + 1];
        }
      }
    }
  }

  /** Only blank text loses everything to `rstrip()`. */
  lemma {:induction false} RStripEmpty(s: string)
    ensures RStrip(s) == [] <==> IsBlank(s)
  {
    if s != [] && IsSpace(s[|s| - 1]) {
      var s' := s[..|s| - 1];
      RStripEmpty(s');
      if IsBlank(s') {
        forall i | 0 <= i < |s| ensures IsSpace(s[i]) {
          if i < |s| - 1 { assert s[i] == s'[i]; }
        }
      }
      if IsBlank(s) {
        forall i | 0 <= i < |s'| ensures IsSpace(s'[i]) {
          assert s'[i] == s[i];
        }
      }
    }
  }

  /** Blank text in front makes no difference to `lstrip()`. */
  lemma {:induction false} LStripPad(a: string, x: string)
    requires IsBlank(a)
    ensures LStrip(a + x) == LStrip(x)
  {
    if a == [] {
      assert a + x == x;
    } else {
      assert (a + x)[0] == a[0];
      assert (a + x)[1..] == a[1..] + x;
      LStripPad(a[1..], x);
    }
  }

  /** Blank text behind makes no difference to `rstrip()`. */
  lemma {:induction false} RStripPad(x: string, b: string)
    requires IsBlank(b)
    ensures RStrip(x + b) == RStrip(x)
  {
    if b == [] {
      assert x + b == x;
    } else {
      var b' := b[..|b| - 1];
      assert (x + b)[|x + b| - 1] == b[|b| - 1];
      assert (x + b)[..|x + b| - 1] == x + b';
      RStripPad(x, b');
    }
  }

  /** Text behind a part that `lstrip()` does not consume is kept. */
  lemma {:induction false} LStripAppend(x: string, b: string)
    requires LStrip(x) != []
    ensures LStrip(x + b) == LStrip(x) + b
  {
    assert x != [];
    assert (x + b)[0] == x[0];
    if IsSpace(x[0]) {
      assert (x + b)[1..] == x[1..] + b;
      LStripAppend(x[1..], b);
    }
  }

  /** Text in front of a part that `rstrip()` does not consume is kept. */
  lemma {:induction false} RStripPrepend(a: string, x: string)
    requires RStrip(x) != []
    ensures RStrip(a + x) == a + RStrip(x)
  {
    assert x != [];
    assert (a + x)[|a + x| - 1] == x[|x| - 1];
    if IsSpace(x[|x| - 1]) {
      var x' := x[..|x| - 1];
      assert (a + x)[..|a + x| - 1] == a + x';
      RStripPrepend(a, x');
    }
  }

  /** `lstrip()` cuts a blank prefix off `s`. */
  lemma {:induction false} LStripParts(s: string) returns (a: string)
    ensures s == a + LStrip(s) && IsBlank(a)
  {
    if s != [] && IsSpace(s[0]) {
      var a' := LStripParts(s[1..]);
      a := [s[0]] + a';
      assert s == [s[0]] + s[1..];
      forall i | 0 <= i < |a| ensures IsSpace(a[i]) {
        if i > 0 { assert a[i] == a'[i - 1]; }
      }
    } else {
      a := [];
    }
  }

  /** `rstrip()` cuts a blank suffix off `s`. */
  lemma {:induction false} RStripParts(s: string) returns (b: string)
    ensures s == RStrip(s) + b && IsBlank(b)
  {
    if s != [] && IsSpace(s[|s| - 1]) {
      var s' := s[..|s| - 1];
      var b' := RStripParts(s');
      b := b' + [s[|s| - 1]];
      assert s == s' + [s[|s| - 1]];
      forall i | 0 <= i < |b| ensures IsSpace(b[i]) {
        if i < |b'| { assert b[i] == b'[i]; }
      }
    } else {
      b := [];
    }
  }

  /** Python's `s.strip()`: `s` without its leading and trailing
      whitespace. */
  function Strip(s: string): (r: string)
    ensures IsTrimmed(r)
  {
    RStrip(LStrip(s))
  }

  /** `strip()` gives the empty string exactly for blank text. */
  lemma StripEmpty(s: string)
    ensures Strip(s) == [] <==> IsBlank(s)
  {
    LStripEmpty(s);
    RStripEmpty(LStrip(s));
  }

  /** Text that `strip()` leaves alone is exactly trimmed text. */
  lemma StripTrimmed(s: string)
    requires IsTrimmed(s)
    ensures Strip(s) == s
  {
  }

  /** `strip()` is idempotent. */
  lemma StripIdempotent(s: string)
    ensures Strip(Strip(s)) == Strip(s)
  {
    StripTrimmed(Strip(s));
  }

  /** Blank text in front of `x` makes no difference to `strip()`. */
  lemma StripPadLeft(a: string, x: string)
    requires IsBlank(a)
    ensures Strip(a + x) == Strip(x)
  {
    LStripPad(a, x);
  }

  /** Blank text behind `x` makes no difference to `strip()`. */
  lemma StripPadRight(x: string, b: string)
    requires IsBlank(b)
    ensures Strip(x + b) == Strip(x)
  {
    if LStrip(x) == [] {
      LStripEmpty(x);
      LStripPad(x, b);
      LStripEmpty(b);
    } else {
      LStripAppend(x, b);
      RStripPad(LStrip(x), b);
    }
  }

  /** Blank text around `x` makes no difference to `strip()`. */
  lemma StripPadded(a: string, x: string, b: string)
    requires IsBlank(a) && IsBlank(b)
    ensures Strip(a + x + b) == Strip(x)
  {
    StripPadLeft(a, x + b);
    StripPadRight(x, b);
    assert a + x + b == a + (x + b);
  }

  /** Stripping is determined by what it removes: whatever blank text
      surrounds a trimmed middle, `strip()` gives back the middle. */
  lemma StripOf(a: string, m: string, b: string)
    requires IsBlank(a) && IsBlank(b) && IsTrimmed(m)
    ensures Strip(a + m + b) == m
  {
    StripPadded(a, m, b);
    StripTrimmed(m);
  }

  /** A leading whitespace character never survives `strip()`. */
  lemma StripSpaceCons(c: char, t: string)
    requires IsSpace(c)
    ensures Strip([c] + t) == Strip(t)
  {
    StripPadLeft([c], t);
  }

  /** `strip()` cuts `s` into a blank prefix, the result and a blank suffix. */
  lemma StripParts(s: string) returns (a: string, b: string)
    ensures s == a + Strip(s) + b && IsBlank(a) && IsBlank(b)
  {
    a := LStripParts(s);
    b := RStripParts(LStrip(s));
    assert s == a + (Strip(s) + b);
  }

  /** `strip()` only removes characters: what it returns occurs in `s`. */
  lemma StripSubstring(s: string, c: char)
    requires c in Strip(s)
    ensures c in s
  {
    var a, b := StripParts(s);
  }

  /** ... and keeps every character that is not whitespace. */
  lemma StripKeepsNonSpace(s: string, c: char)
    requires c in s && !IsSpace(c)
    ensures c in Strip(s)
  {
    var a, b := StripParts(s);
    assert c !in a && c !in b;
  }

  /** Python's `sep.join(xs)`. */
  function Join(xs: seq<string>, sep: string): string
  {
    if |xs| == 0 then []
    else if |xs| == 1 then xs[0]
    else xs[0] + sep + Join(xs[1..], sep)
  }

  /** Python's `s.split(d)` with an explicit one-character separator: the
      pieces between consecutive occurrences of `d`, empty pieces included;
      there is always at least one piece, and no piece contains `d`. */
  function Split(s: string, d: char): (parts: seq<string>)
    ensures |parts| >= 1
    ensures forall i :: 0 <= i < |parts| ==> d !in parts[i]
  {
    if s == [] then [[]]
    else
      var rest := Split(s[1..], d);
      if s[0] == d then [[]] + rest
      else [[s[0]] + rest[0]] + rest[1..]
  }

  /** Joining two non-empty lists is joining each and putting one
      separator between. */
  lemma {:induction false} JoinAppend(xs: seq<string>, ys: seq<string>, sep: string)
    requires |xs| >= 1 && |ys| >= 1
    ensures Join(xs + ys, sep) == Join(xs, sep) + sep + Join(ys, sep)
  {
    if |xs| == 1 {
      assert (xs + ys)[1..] == ys;
    } else {
      JoinAppend(xs[1..], ys, sep);
      assert (xs + ys)[1..] == xs[1..] + ys;
    }
  }

  /** Joining the pieces of a split with its separator restores the text. */
  lemma {:induction false} JoinSplit(s: string, d: char)
    ensures Join(Split(s, d), [d]) == s
  {
    if s != [] {
      var rest := Split(s[1..], d);
      JoinSplit(s[1..], d);
      if s[0] == d {
        assert ([[]] + rest)[1..] == rest;
      } else {
        var parts := [[s[0]] + rest[0]] + rest[1..];
        if |rest| > 1 {
          assert parts[1..] == rest[1..];
          assert Join(rest, [d]) == rest[0] + [d] + Join(rest[1..], [d]);
        }
      }
    }
  }

  /** Splitting text whose first `|x|` characters hold no separator. */
  lemma {:induction false} SplitPrefix(x: string, t: string, d: char)
    requires d !in x
    ensures Split(x + t, d) == [x + Split(t, d)[0]] + Split(t, d)[1..]
  {
    if x != [] {
      SplitPrefix(x[1..], t, d);
      assert (x + t)[1..] == x[1..] + t;
      assert x[0] != d by { assert x[0] in x; }
      assert [x[0]] + (x[1..] + Split(t, d)[0]) == x + Split(t, d)[0];
    } else {
      assert x + t == t;
      assert Split(t, d) == [Split(t, d)[0]] + Split(t, d)[1..];
      assert x + Split(t, d)[0] == Split(t, d)[0];
    }
  }

  /** Splitting a join of separator-free pieces gives the pieces back. */
  lemma {:induction false} SplitJoin(xs: seq<string>, d: char)
    requires |xs| >= 1
    requires forall i :: 0 <= i < |xs| ==> d !in xs[i]
    ensures Split(Join(xs, [d]), d) == xs
  {
    if |xs| == 1 {
      SplitPrefix(xs[0], [], d);
      assert xs[0] + [] == xs[0];
    } else {
      var tail := Join(xs[1..], [d]);
      SplitJoin(xs[1..], d);
      assert Split([d] + tail, d) == [[]] + xs[1..] by {
        assert ([d] + tail)[1..] == tail;
      }
      SplitPrefix(xs[0], [d] + tail, d);
      assert xs[0] + [d] + tail == xs[0] + ([d] + tail);
      assert xs[0] + [] == xs[0];
      assert xs == [xs[0]] + xs[1..];
    }
  }

  /** A separator in the text separates the pieces on its two sides. */
  lemma SplitConcat(a: string, b: string, d: char)
    ensures Split(a + [d] + b, d) == Split(a, d) + Split(b, d)
  {
    var xs := Split(a, d) + Split(b, d);
    JoinAppend(Split(a, d), Split(b, d), [d]);
    JoinSplit(a, d);
    JoinSplit(b, d);
    forall i | 0 <= i < |xs| ensures d !in xs[i] {
      if i >= |Split(a, d)| { assert xs[i] == Split(b, d)[i - |Split(a, d)|]; }
    }
    SplitJoin(xs, d);
  }

  /** Text without the separator is one piece. */
  lemma SplitNoSeparator(s: string, d: char)
    requires d !in s
    ensures Split(s, d) == [s]
  {
    SplitJoin([s], d);
  }

  /** Python's `s.split(c, 1)`, unpacked into two names: `None` when `c`
      does not occur (the unpacking would fail), otherwise the text before
      the FIRST `c` and everything after it, which may contain `c` again. */
  function SplitOnce(s: string, c: char): (r: Option<(string, string)>)
    ensures r.None? <==> c !in s
    ensures r.Some? ==> s == r.value.0 + [c] + r.value.1 && c !in r.value.0
  {
    if s == [] then None
    else if s[0] == c then Some(([], s[1..]))
    else
      match SplitOnce(s[1..], c)
      case None => None
      case Some((a, b)) => Some(([s[0]] + a, b))
  }

  /** `split(c, 1)` splits at the first `c` and nowhere else. */
  lemma {:induction false} SplitOnceOf(a: string, c: char, b: string)
    requires c !in a
    ensures SplitOnce(a + [c] + b, c) == Some((a, b))
  {
    if a == [] {
      assert a + [c] + b == [c] + b;
    } else {
      assert a[0] != c by { assert a[0] in a; }
      assert (a + [c] + b)[1..] == a[1..] + [c] + b;
      SplitOnceOf(a[1..], c, b);
      assert [a[0]] + a[1..] == a;
    }
  }

  /** Every piece of blank text is blank. */
  lemma {:induction false} SplitBlank(s: string, d: char)
    requires IsBlank(s)
    ensures forall i :: 0 <= i < |Split(s, d)| ==> IsBlank(Split(s, d)[i])
  {
    if s != [] {
      var rest := Split(s[1..], d);
      assert IsBlank(s[1..]) by {
        forall i | 0 <= i < |s[1..]| ensures IsSpace(s[1..][i]) { assert s[1..][i] == s[i + 1]; }
      }
      SplitBlank(s[1..], d);
      if s[0] != d {
        var p := [s[0]] + rest[0];
        assert IsBlank(p) by {
          forall i | 0 <= i < |p| ensures IsSpace(p[i]) {
            if i > 0 { assert p[i] == rest[0][i - 1]; }
          }
        }
        forall i | 0 <= i < |Split(s, d)| ensures IsBlank(Split(s, d)[i]) {
          if i > 0 { assert Split(s, d)[i] == rest[i]; }
        }
      } else {
        forall i | 0 <= i < |Split(s, d)| ensures IsBlank(Split(s, d)[i]) {
          if i > 0 { assert Split(s, d)[i] == rest[i - 1]; }
        }
      }
    }
  }

  /** Blank text holds no character that is not whitespace. */
  lemma BlankLacks(a: string, c: char)
    requires IsBlank(a) && !IsSpace(c)
    ensures c !in a
  {
  }

  lemma LacksConcat(a: string, b: string, c: char)
    requires c !in a && c !in b
    ensures c !in a + b
  {
  }

  /** Text behind the first `c` only lengthens the second half. */
  lemma {:induction false} SplitOnceAppend(m: string, b: string, c: char)
    requires c in m
    ensures SplitOnce(m + b, c) == Some((SplitOnce(m, c).value.0, SplitOnce(m, c).value.1 + b))
  {
    assert (m + b)[0] == m[0];
    if m[0] == c {
      assert (m + b)[1..] == m[1..] + b;
    } else {
      assert (m + b)[1..] == m[1..] + b;
      assert c in m[1..] by { assert m == [m[0]] + m[1..]; }
      SplitOnceAppend(m[1..], b, c);
    }
  }

  /** Text without `c` in front of the first `c` only lengthens the first
      half. */
  lemma SplitOncePrepend(a: string, m: string, c: char)
    requires c !in a && c in m
    ensures SplitOnce(a + m, c) == Some((a + SplitOnce(m, c).value.0, SplitOnce(m, c).value.1))
  {
    var p, n := SplitOnce(m, c).value.0, SplitOnce(m, c).value.1;
    assert a + m == (a + p) + [c] + n by {
      assert a + m == a + (p + [c] + n);
    }
    assert SplitOnce((a + p) + [c] + n, c) == Some((a + p, n)) by {
      LacksConcat(a, p, c);
      SplitOnceOf(a + p, c, n);
    }
  }

  /** Splitting padded text at its first `c`, when the padding in front
      holds no `c`, splits the middle and keeps the padding on the halves. */
  lemma SplitOncePadded(a: string, m: string, b: string, c: char)
    requires c !in a && c in m
    ensures SplitOnce(a + m + b, c) ==
            Some((a + SplitOnce(m, c).value.0, SplitOnce(m, c).value.1 + b))
  {
    SplitOnceAppend(m, b, c);
    SplitOncePrepend(a, m + b, c);
    assert a + m + b == a + (m + b);
  }

  /** The halves of the split of padded text, in terms of the halves of
      the split of the stripped text. */
  lemma SplitOnceStripParts(s: string, c: char) returns (a: string, b: string)
    requires c in s && !IsSpace(c)
    ensures c in Strip(s) && IsBlank(a) && IsBlank(b)
    ensures SplitOnce(s, c).value.0 == a + SplitOnce(Strip(s), c).value.0
    ensures SplitOnce(s, c).value.1 == SplitOnce(Strip(s), c).value.1 + b
  {
    StripKeepsNonSpace(s, c);
    var m := Strip(s);
    a, b := StripParts(s);
    BlankLacks(a, c);
    SplitOncePadded(a, m, b, c);
  }

  /** Splitting at a non-whitespace `c` and stripping both halves gives
      the same halves whether or not the text was stripped first. */
  lemma SplitOnceStripped(s: string, c: char)
    requires c in s && !IsSpace(c)
    ensures c in Strip(s)
    ensures Strip(SplitOnce(s, c).value.0) == Strip(SplitOnce(Strip(s), c).value.0)
    ensures Strip(SplitOnce(s, c).value.1) == Strip(SplitOnce(Strip(s), c).value.1)
  {
    var a, b := SplitOnceStripParts(s, c);
    StripPadLeft(a, SplitOnce(Strip(s), c).value.0);
    StripPadRight(SplitOnce(Strip(s), c).value.1, b);
  }
}
