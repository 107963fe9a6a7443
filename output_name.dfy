/** The name of the file `process_csv` writes for one CSV row: the row's
    index padded to three digits, an underscore, the song title reduced
    to safe characters, and `.json`. */
module OutputName {
  import opened Common
  import opened PyText

  // The character filter. Python's `str.isalnum` is Unicode-wide; it is a
  // parameter here, `isAlnum`, rather than a table.

  /** A character the comprehension keeps: alphanumeric, space, `-`, `_`. */
  predicate Kept(c: char, isAlnum: char -> bool) {
    isAlnum(c) || c == ' ' || c == '-' || c == '_'
  }

  /** A character that may appear in a finished name. */
  predicate NameChar(c: char, isAlnum: char -> bool) {
    isAlnum(c) || c == '-' || c == '_'
  }

  /** `"".join(c for c in title if c.isalnum() or c in (' ', '-', '_'))`. */
  function KeepSafe(title: string, isAlnum: char -> bool): (r: string)
    ensures |r| <= |title|
    ensures forall i :: 0 <= i < |r| ==> Kept(r[i], isAlnum)
    ensures forall c :: c in title && Kept(c, isAlnum) ==> c in r
  {
    if title == [] then []
    else (if Kept(title[0], isAlnum) then [title[0]] else []) + KeepSafe(title[1..], isAlnum)
  }

  /** `s.replace(' ', '_')`. */
  function SpacesToUnderscores(s: string): (r: string)
    ensures |r| == |s|
    ensures forall i :: 0 <= i < |s| ==> r[i] == if s[i] == ' ' then '_' else s[i]
  {
    if s == [] then [] else [if s[0] == ' ' then '_' else s[0]] + SpacesToUnderscores(s[1..])
  }

  /** The safe name: filtered, stripped, then spaces made underscores. */
  function SafeName(title: string, isAlnum: char -> bool): string
  {
    SpacesToUnderscores(Strip(KeepSafe(title, isAlnum)))
  }

  /** Filtering works character by character, so it distributes over
      concatenation. */
  lemma {:induction false} KeepSafeAppend(a: string, b: string, isAlnum: char -> bool)
    ensures KeepSafe(a + b, isAlnum) == KeepSafe(a, isAlnum) + KeepSafe(b, isAlnum)
  {
    if a != [] {
      assert (a + b)[1..] == a[1..] + b;
      KeepSafeAppend(a[1..], b, isAlnum);
    } else {
      assert a + b == b;
    }
  }

  /** What the filter keeps from blank text is blank. */
  lemma {:induction false} KeepSafeBlank(a: string, isAlnum: char -> bool)
    requires IsBlank(a)
    ensures IsBlank(KeepSafe(a, isAlnum))
  {
    if a != [] {
      KeepSafeBlank(a[1..], isAlnum);
    }
  }

  /** Text made only of kept characters (spaces included) passes the
      filter unchanged: nothing the comprehension accepts is dropped, and
      the order is kept. */
  lemma {:induction false} KeepSafeOfKept(s: string, isAlnum: char -> bool)
    requires forall i :: 0 <= i < |s| ==> Kept(s[i], isAlnum)
    ensures KeepSafe(s, isAlnum) == s
  {
    if s != [] {
      KeepSafeOfKept(s[1..], isAlnum);
    }
  }

  /** Text without spaces is left alone by the replacement. */
  lemma SpacesToUnderscoresNoSpace(s: string)
    requires ' ' !in s
    ensures SpacesToUnderscores(s) == s
  {
  }

  /** The finished name holds only alphanumerics, `-` and `_`. */
  lemma SafeNameChars(title: string, isAlnum: char -> bool)
    ensures forall i :: 0 <= i < |SafeName(title, isAlnum)| ==>
              NameChar(SafeName(title, isAlnum)[i], isAlnum)
  {
    var kept := KeepSafe(title, isAlnum);
    var core := Strip(kept);
    forall i | 0 <= i < |core|
      ensures Kept(core[i], isAlnum)
    {
      assert core[i] in core;
      StripSubstring(kept, core[i]);
    }
  }

  /** Spaces become `_` only after stripping: the first and last character
      of the name are the first and last of the stripped text, which are
      never whitespace, so an `_` at either end was an `_` in the title. */
  lemma SafeNameEnds(title: string, isAlnum: char -> bool)
    ensures var core, r := Strip(KeepSafe(title, isAlnum)), SafeName(title, isAlnum);
            |r| == |core| &&
            (r != [] ==> r[0] == core[0] && r[|r| - 1] == core[|core| - 1] &&
                         !IsSpace(core[0]) && !IsSpace(core[|core| - 1]))
  {
  }

  /** An `_` at either end of the name comes from an `_` in the title. */
  lemma SafeNameEdgeUnderscore(title: string, isAlnum: char -> bool)
    requires var r := SafeName(title, isAlnum); r != [] && (r[0] == '_' || r[|r| - 1] == '_')
    ensures '_' in title
  {
    var kept := KeepSafe(title, isAlnum);
    var core := Strip(kept);
    SafeNameEnds(title, isAlnum);
    assert '_' in core;
    StripSubstring(kept, '_');
    KeepSafeSubset(title, isAlnum, '_');
  }

  /** The filter only drops characters. */
  lemma {:induction false} KeepSafeSubset(title: string, isAlnum: char -> bool, c: char)
    requires c in KeepSafe(title, isAlnum)
    ensures c in title
  {
    if title != [] {
      var head := if Kept(title[0], isAlnum) then [title[0]] else [];
      if c !in head {
        KeepSafeSubset(title[1..], isAlnum, c);
      }
    }
  }

  /** A title of kept characters with no whitespace at either end keeps
      its length, and each of its spaces becomes `_` in the same place. */
  lemma SafeNameOfKept(title: string, isAlnum: char -> bool)
    requires forall i :: 0 <= i < |title| ==> Kept(title[i], isAlnum)
    requires IsTrimmed(title)
    ensures var r := SafeName(title, isAlnum);
            |r| == |title| &&
            forall i :: 0 <= i < |title| ==> r[i] == if title[i] == ' ' then '_' else title[i]
  {
    KeepSafeOfKept(title, isAlnum);
    StripTrimmed(title);
  }

  /** Spaces (or any whitespace) around the title do not change the name. */
  lemma SafeNamePadded(a: string, title: string, b: string, isAlnum: char -> bool)
    requires IsBlank(a) && IsBlank(b)
    ensures SafeName(a + title + b, isAlnum) == SafeName(title, isAlnum)
  {
    KeepSafeAppend(a + title, b, isAlnum);
    KeepSafeAppend(a, title, isAlnum);
    KeepSafeBlank(a, isAlnum);
    KeepSafeBlank(b, isAlnum);
    StripPadded(KeepSafe(a, isAlnum), KeepSafe(title, isAlnum), KeepSafe(b, isAlnum));
  }

  /** Sanitising a sanitised name changes nothing. */
  lemma SafeNameIdempotent(title: string, isAlnum: char -> bool)
    ensures SafeName(SafeName(title, isAlnum), isAlnum) == SafeName(title, isAlnum)
  {
    var r := SafeName(title, isAlnum);
    SafeNameChars(title, isAlnum);
    KeepSafeOfKept(r, isAlnum);
    SafeNameEnds(title, isAlnum);
    assert IsTrimmed(r);
    StripTrimmed(r);
    assert ' ' !in r by {
      forall i | 0 <= i < |r| ensures r[i] != ' ' { }
    }
    SpacesToUnderscoresNoSpace(r);
  }

  // The index, `f"{i:03d}"`. `enumerate(reader, 1)` counts from 1, so the
  // index is never negative.

  predicate IsDigit(c: char) {
    '0' <= c <= '9'
  }

  function DigitChar(d: nat): (c: char)
    requires d < 10
    ensures IsDigit(c)
  {
    ('0' as int + d) as char
  }

  function DigitValue(c: char): (d: nat)
    requires IsDigit(c)
    ensures d < 10
  {
    c as int - '0' as int
  }

  /** The value of a digit string, read most significant digit first. */
  function DigitsValue(s: string): nat
    requires forall i :: 0 <= i < |s| ==> IsDigit(s[i])
  {
    if s == [] then 0
    else DigitsValue(s[..|s| - 1]) * 10 + DigitValue(s[|s| - 1])
  }

  /** Python's `str(n)` for a natural number: its decimal digits, with no
      leading zero unless the number is zero. */
  function Decimal(n: nat): (r: string)
    ensures r != []
    ensures forall i :: 0 <= i < |r| ==> IsDigit(r[i])
    ensures |r| > 1 ==> r[0] != '0'
  {
    if n < 10 then [DigitChar(n)] else Decimal(n / 10) + [DigitChar(n % 10)]
  }

  function Zeros(k: nat): (r: string)
    ensures |r| == k
    ensures forall i :: 0 <= i < k ==> r[i] == '0'
  {
    if k == 0 then [] else ['0'] + Zeros(k - 1)
  }

  /** `f"{n:03d}"`: the decimal digits, zero-filled on the left to a width
      of three; wider numbers are written in full. */
  function ZeroPad3(n: nat): string
  {
    var digits := Decimal(n);
    if |digits| < 3 then Zeros(3 - |digits|) + digits else digits
  }

  /** Reading the digits back gives the number. */
  lemma {:induction false} DecimalValue(n: nat)
    ensures DigitsValue(Decimal(n)) == n
  {
    if n >= 10 {
      var r := Decimal(n);
      DecimalValue(n / 10);
      assert r[..|r| - 1] == Decimal(n / 10);
    }
  }

  /** A leading zero adds nothing to the value. */
  lemma {:induction false} LeadingZeroValue(s: string)
    requires forall i :: 0 <= i < |s| ==> IsDigit(s[i])
    ensures DigitsValue(['0'] + s) == DigitsValue(s)
  {
    if s != [] {
      var t := ['0'] + s;
      assert t[..|t| - 1] == ['0'] + s[..|s| - 1];
      LeadingZeroValue(s[..|s| - 1]);
    } else {
      assert (['0'] + s)[..0] == [];
    }
  }

  lemma {:induction false} ZerosValue(k: nat, s: string)
    requires forall i :: 0 <= i < |s| ==> IsDigit(s[i])
    ensures DigitsValue(Zeros(k) + s) == DigitsValue(s)
  {
    if k > 0 {
      assert Zeros(k) + s == ['0'] + (Zeros(k - 1) + s);
      LeadingZeroValue(Zeros(k - 1) + s);
      ZerosValue(k - 1, s);
    } else {
      assert Zeros(k) + s == s;
    }
  }

  /** The padded index is all digits, at least three of them, exactly
      three when the number has at most three digits, and reads back as
      the number. */
  lemma ZeroPad3Value(n: nat)
    ensures var p := ZeroPad3(n);
            (forall i :: 0 <= i < |p| ==> IsDigit(p[i])) &&
            |p| == (if |Decimal(n)| < 3 then 3 else |Decimal(n)|) &&
            DigitsValue(p) == n
  {
    DecimalValue(n);
    var digits := Decimal(n);
    if |digits| < 3 {
      ZerosValue(3 - |digits|, digits);
    }
  }

  /** `f"{i:03d}_{safe_name}.json"`. */
  function OutputFileName(i: nat, title: string, isAlnum: char -> bool): string
  {
    ZeroPad3(i) + "_" + SafeName(title, isAlnum) + ".json"
  }

  /** The first `_` of a file name ends the index: splitting there gives
      the padded index and the name with its extension. */
  lemma OutputFileNameParts(i: nat, title: string, isAlnum: char -> bool)
    ensures SplitOnce(OutputFileName(i, title, isAlnum), '_') ==
            Some((ZeroPad3(i), SafeName(title, isAlnum) + ".json"))
  {
    var p := ZeroPad3(i);
    ZeroPad3Value(i);
    assert '_' !in p by {
      forall k | 0 <= k < |p| ensures p[k] != '_' { }
    }
    assert OutputFileName(i, title, isAlnum) == p + ['_'] + (SafeName(title, isAlnum) + ".json");
    SplitOnceOf(p, '_', SafeName(title, isAlnum) + ".json");
  }

  /** Different rows never share a file: equal file names have equal
      indices and equal safe names. */
  lemma OutputFileNameInjective(i: nat, t1: string, j: nat, t2: string, isAlnum: char -> bool)
    requires OutputFileName(i, t1, isAlnum) == OutputFileName(j, t2, isAlnum)
    ensures i == j && SafeName(t1, isAlnum) == SafeName(t2, isAlnum)
  {
    OutputFileNameParts(i, t1, isAlnum);
    OutputFileNameParts(j, t2, isAlnum);
    ZeroPad3Value(i);
    ZeroPad3Value(j);
    var x, y := SafeName(t1, isAlnum) + ".json", SafeName(t2, isAlnum) + ".json";
    assert x == y;
    assert SafeName(t1, isAlnum) == x[..|x| - 5];
    assert SafeName(t2, isAlnum) == y[..|y| - 5];
  }
}
