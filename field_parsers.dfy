/** The two field parsers of the CSV path: `parse_musicians_string`
    ("part:name; part:name" into (part, name) pairs) and
    `parse_needed_instruments` ("a; b" into a list of parts). */
module FieldParsers {
  import opened Common
  import opened PyText

  /** A current musician: (instrument part, player name). */
  type Musician = (string, string)

  function AsList<T>(o: Option<T>): seq<T>
  {
    match o
    case None => []
    case Some(v) => [v]
  }

  // ---------------------------------------------------------------------
  // parse_musicians_string

  /** A parsed pair as `parse_musicians_string` produces it: both sides
      stripped, and no `:` in the part. */
  predicate WellFormed(m: Musician) {
    IsTrimmed(m.0) && IsTrimmed(m.1) && ':' !in m.0
  }

  /** What one `;`-segment contributes: nothing when it is blank or has no
      `:`; otherwise the stripped text split at its FIRST `:`, both sides
      stripped. The part never holds `:`; the name may. */
  function MusicianOf(segment: string): (m: Option<Musician>)
    ensures m.Some? <==> ':' in Strip(segment)
    ensures m.Some? ==> WellFormed(m.value)
  {
    var pair := Strip(segment);
    if pair != [] && ':' in pair then
      var (part, name) := SplitOnce(pair, ':').value;
      assert ':' !in Strip(part) by {
        if ':' in Strip(part) { StripSubstring(part, ':'); }
      }
      Some((Strip(part), Strip(name)))
    else None
  }

  /** The pairs the parsing loop has appended after visiting `segments`,
      in visiting order. */
  function MusiciansOf(segments: seq<string>): (r: seq<Musician>)
    ensures |r| <= |segments|
  {
    if segments == [] then []
    else
      var init := MusiciansOf(segments[..|segments| - 1]);
      var last := AsList(MusicianOf(segments[|segments| - 1]));
      init + last
  }

  /** Every pair the loop appends is well formed. */
  lemma {:induction false} MusiciansOfWellFormed(segments: seq<string>)
    ensures forall i :: 0 <= i < |MusiciansOf(segments)| ==> WellFormed(MusiciansOf(segments)[i])
  {
    if segments != [] {
      MusiciansOfWellFormed(segments[..|segments| - 1]);
    }
  }

  /** `parse_musicians_string`: blank input gives no pairs; otherwise each
      `;`-segment contributes what MusicianOf says, in input order. */
  function MusicianPairs(s: string): seq<Musician>
  {
    if IsBlank(s) then [] else MusiciansOf(Split(s, ';'))
  }

  /** The imperative parser: split on `;`, strip each segment, skip empty
      ones and ones without `:`, split the rest at the first `:` and append
      the stripped halves. */
  method ParseMusiciansString(musiciansStr: string) returns (musicians: seq<Musician>)
    ensures musicians == MusicianPairs(musiciansStr)
    ensures forall i :: 0 <= i < |musicians| ==> WellFormed(musicians[i])
  {
    if IsBlank(musiciansStr) {
      return [];
    }
    musicians := [];
    var pairs := Split(musiciansStr, ';');
    for k := 0 to |pairs|
      invariant musicians == MusiciansOf(pairs[..k])
    {
      assert pairs[..k + 1][..k] == pairs[..k];
      var pair := Strip(pairs[k]);
      if pair != [] {
        if ':' in pair {
          var (part, name) := SplitOnce(pair, ':').value;
          musicians := musicians + [(Strip(part), Strip(name))];
        }
      }
    }
    assert pairs[..|pairs|] == pairs;
    MusiciansOfWellFormed(pairs);
  }

  lemma {:induction false} MusiciansOfAppend(xs: seq<string>, ys: seq<string>)
    ensures MusiciansOf(xs + ys) == MusiciansOf(xs) + MusiciansOf(ys)
  {
    if ys != [] {
      var ys' := ys[..|ys| - 1];
      assert (xs + ys)[..|xs + ys| - 1] == xs + ys';
      assert (xs + ys)[|xs + ys| - 1] == ys[|ys| - 1];
      MusiciansOfAppend(xs, ys');
    } else {
      assert xs + ys == xs;
    }
  }

  lemma MusiciansOfCons(x: string, ys: seq<string>)
    ensures MusiciansOf([x] + ys) == AsList(MusicianOf(x)) + MusiciansOf(ys)
  {
    MusiciansOfAppend([x], ys);
    assert [x][..0] == [];
    assert [x][0] == x;
    assert MusiciansOf([x]) == AsList(MusicianOf(x));
  }

  /** Blank segments contribute nothing. */
  lemma {:induction false} MusiciansOfBlank(segments: seq<string>)
    requires forall i :: 0 <= i < |segments| ==> IsBlank(segments[i])
    ensures MusiciansOf(segments) == []
  {
    if segments != [] {
      MusiciansOfBlank(segments[..|segments| - 1]);
      StripEmpty(segments[|segments| - 1]);
    }
  }

  /** The early return for blank input is the answer the loop would give. */
  lemma BlankGuardRedundant(s: string)
    ensures MusicianPairs(s) == MusiciansOf(Split(s, ';'))
  {
    if IsBlank(s) {
      SplitBlank(s, ';');
      MusiciansOfBlank(Split(s, ';'));
    }
  }

  /** Parsing respects `;`: the pairs of `a;b` are those of `a` followed
      by those of `b` (input order is kept, nothing is merged across `;`). */
  lemma MusicianPairsConcat(a: string, b: string)
    ensures MusicianPairs(a + ";" + b) == MusicianPairs(a) + MusicianPairs(b)
  {
    BlankGuardRedundant(a + ";" + b);
    BlankGuardRedundant(a);
    BlankGuardRedundant(b);
    SplitConcat(a, b, ';');
    MusiciansOfAppend(Split(a, ';'), Split(b, ';'));
  }

  /** Without `;` the input is one segment. */
  lemma MusicianPairsOneSegment(seg: string)
    requires ';' !in seg
    ensures MusicianPairs(seg) == AsList(MusicianOf(seg))
  {
    BlankGuardRedundant(seg);
    SplitNoSeparator(seg, ';');
    MusiciansOfCons(seg, []);
    assert [seg] + [] == [seg];
  }

  /** A segment without `:` gives no pair. */
  lemma MusicianPairsNoColon(seg: string)
    requires ';' !in seg && ':' !in seg
    ensures MusicianPairs(seg) == []
  {
    MusicianPairsOneSegment(seg);
    if ':' in Strip(seg) { StripSubstring(seg, ':'); }
  }

  /** The segment `part:name` (no `:` in the part) becomes the stripped
      part and the stripped name, whatever blanks surround the segment. */
  lemma MusicianOfColon(part: string, name: string)
    requires ':' !in part
    ensures MusicianOf(part + ":" + name) == Some((Strip(part), Strip(name)))
  {
    var seg := part + ":" + name;
    assert seg[|part|] == ':';
    SplitOnceStripped(seg, ':');
    SplitOnceOf(part, ':', name);
  }

  /** A segment with a `:` gives exactly one pair: the stripped text before
      its FIRST `:` and the stripped text after it (which may hold `:`). */
  lemma MusicianPairsSegment(part: string, name: string)
    requires ';' !in part && ';' !in name && ':' !in part
    ensures MusicianPairs(part + ":" + name) == [(Strip(part), Strip(name))]
  {
    assert ';' !in part + ":" + name;
    MusicianPairsOneSegment(part + ":" + name);
    MusicianOfColon(part, name);
  }

  lemma MusicianOfSpaceCons(c: char, p: string)
    requires IsSpace(c)
    ensures MusicianOf([c] + p) == MusicianOf(p)
  {
    StripSpaceCons(c, p);
  }

  lemma MusiciansOfSameHead(x: string, y: string, rest: seq<string>)
    requires MusicianOf(x) == MusicianOf(y)
    ensures MusiciansOf([x] + rest) == MusiciansOf([y] + rest)
  {
    MusiciansOfCons(x, rest);
    MusiciansOfCons(y, rest);
  }

  /** Whitespace in front of the input is never part of a pair. */
  lemma MusicianPairsSpaceCons(c: char, t: string)
    requires IsSpace(c)
    ensures MusicianPairs([c] + t) == MusicianPairs(t)
  {
    BlankGuardRedundant([c] + t);
    BlankGuardRedundant(t);
    var parts := Split(t, ';');
    assert c != ';';
    SplitPrefix([c], t, ';');
    MusicianOfSpaceCons(c, parts[0]);
    MusiciansOfSameHead([c] + parts[0], parts[0], parts[1..]);
    assert parts == [parts[0]] + parts[1..];
  }

  /** The segment text of one pair, `part:name`. */
  function MusicianSegment(m: Musician): string
  {
    m.0 + ":" + m.1
  }

  function MusicianSegments(ms: seq<Musician>): (r: seq<string>)
    ensures |r| == |ms|
    ensures forall i :: 0 <= i < |ms| ==> r[i] == MusicianSegment(ms[i])
  {
    if ms == [] then [] else [MusicianSegment(ms[0])] + MusicianSegments(ms[1..])
  }

  /** The input format, `part:name;part:name;...` (spaces around the
      separators are optional: see MusicianPairsSpaceCons). */
  function RenderMusicians(ms: seq<Musician>): string
  {
    Join(MusicianSegments(ms), ";")
  }

  /** One well-formed pair, written out, is read back as itself. */
  lemma MusicianOfSegment(m: Musician)
    requires WellFormed(m)
    ensures MusicianOf(MusicianSegment(m)) == Some(m)
  {
    MusicianOfColon(m.0, m.1);
    StripTrimmed(m.0);
    StripTrimmed(m.1);
  }

  lemma MusiciansOfConsSome(x: string, rest: seq<string>, m: Musician)
    requires MusicianOf(x) == Some(m)
    ensures MusiciansOf([x] + rest) == [m] + MusiciansOf(rest)
  {
    MusiciansOfCons(x, rest);
  }

  lemma {:induction false} MusiciansOfSegments(ms: seq<Musician>)
    requires forall i :: 0 <= i < |ms| ==> WellFormed(ms[i])
    ensures MusiciansOf(MusicianSegments(ms)) == ms
  {
    if ms != [] {
      var seg, rest := MusicianSegment(ms[0]), MusicianSegments(ms[1..]);
      assert MusicianSegments(ms) == [seg] + rest;
      MusicianOfSegment(ms[0]);
      MusiciansOfSegments(ms[1..]);
      MusiciansOfConsSome(seg, rest, ms[0]);
      assert ms == [ms[0]] + ms[1..];
    }
  }

  lemma {:induction false} MusicianSegmentsNoSemicolon(ms: seq<Musician>)
    requires forall i :: 0 <= i < |ms| ==> ';' !in ms[i].0 && ';' !in ms[i].1
    ensures forall i :: 0 <= i < |MusicianSegments(ms)| ==> ';' !in MusicianSegments(ms)[i]
    ensures |MusicianSegments(ms)| == |ms|
  {
    if ms != [] {
      MusicianSegmentsNoSemicolon(ms[1..]);
      assert ';' !in MusicianSegment(ms[0]);
    }
  }

  /** Pairs written in the input format that parse cleanly (stripped, no
      `:` in a part, no `;` anywhere) are read back unchanged. */
  lemma MusicianPairsRoundTrip(ms: seq<Musician>)
    requires forall i :: 0 <= i < |ms| ==> WellFormed(ms[i]) && ';' !in ms[i].0 && ';' !in ms[i].1
    ensures MusicianPairs(RenderMusicians(ms)) == ms
  {
    if ms != [] {
      BlankGuardRedundant(RenderMusicians(ms));
      MusicianSegmentsNoSemicolon(ms);
      SplitJoin(MusicianSegments(ms), ';');
      MusiciansOfSegments(ms);
    }
  }

  /** One well-formed pair written in the input format reads back as
      itself, with or without a blank in front. */
  lemma MusicianPairsOfSegment(m: Musician)
    requires WellFormed(m) && ';' !in m.0 && ';' !in m.1
    ensures MusicianPairs(MusicianSegment(m)) == [m]
    ensures MusicianPairs([' '] + MusicianSegment(m)) == [m]
  {
    MusicianPairsSpaceCons(' ', MusicianSegment(m));
    MusicianPairsSegment(m.0, m.1);
    StripTrimmed(m.0);
    StripTrimmed(m.1);
  }

  /** Input such as `violin:Alice; cello:Bob`, for any two well-formed
      pairs: `;` followed by a blank separates them. */
  lemma MusicianPairsTwoSegments(p: string, n: string, q: string, m: string)
    requires WellFormed((p, n)) && ';' !in p && ';' !in n
    requires WellFormed((q, m)) && ';' !in q && ';' !in m
    ensures MusicianPairs(p + ":" + n + "; " + q + ":" + m) == [(p, n), (q, m)]
  {
    var first, second := MusicianSegment((p, n)), [' '] + MusicianSegment((q, m));
    assert p + ":" + n + "; " + q + ":" + m == first + ";" + second;
    assert MusicianPairs(first) == [(p, n)] by { MusicianPairsOfSegment((p, n)); }
    assert MusicianPairs(second) == [(q, m)] by { MusicianPairsOfSegment((q, m)); }
    MusicianPairsConcat(first, second);
  }

  /** Input such as `badtoken; flute:Sam`: a segment without `:` is
      skipped and the next one still parses. */
  lemma MusicianPairsSkipSegment(x: string, q: string, m: string)
    requires ';' !in x && ':' !in x
    requires WellFormed((q, m)) && ';' !in q && ';' !in m
    ensures MusicianPairs(x + "; " + q + ":" + m) == [(q, m)]
  {
    var second := [' '] + MusicianSegment((q, m));
    assert x + "; " + q + ":" + m == x + ";" + second;
    assert MusicianPairs(x) == [] by { MusicianPairsNoColon(x); }
    assert MusicianPairs(second) == [(q, m)] by { MusicianPairsOfSegment((q, m)); }
    MusicianPairsConcat(x, second);
  }

  // ---------------------------------------------------------------------
  // parse_needed_instruments

  /** The comprehension `[x.strip() for x in segments if x.strip()]`. */
  function Instruments(segments: seq<string>): (r: seq<string>)
    ensures |r| <= |segments|
    ensures forall i :: 0 <= i < |r| ==> r[i] != [] && IsTrimmed(r[i])
  {
    if segments == [] then []
    else
      var x := Strip(segments[0]);
      (if x != [] then [x] else []) + Instruments(segments[1..])
  }

  /** `parse_needed_instruments`: blank input gives no parts; otherwise the
      stripped non-empty `;`-segments in input order. */
  function NeededInstruments(s: string): (r: seq<string>)
    ensures forall i :: 0 <= i < |r| ==> r[i] != [] && IsTrimmed(r[i])
  {
    if IsBlank(s) then [] else Instruments(Split(s, ';'))
  }

  lemma {:induction false} InstrumentsAppend(xs: seq<string>, ys: seq<string>)
    ensures Instruments(xs + ys) == Instruments(xs) + Instruments(ys)
  {
    if xs != [] {
      assert (xs + ys)[0] == xs[0];
      assert (xs + ys)[1..] == xs[1..] + ys;
      InstrumentsAppend(xs[1..], ys);
    } else {
      assert xs + ys == ys;
    }
  }

  lemma {:induction false} InstrumentsBlank(segments: seq<string>)
    requires forall i :: 0 <= i < |segments| ==> IsBlank(segments[i])
    ensures Instruments(segments) == []
  {
    if segments != [] {
      InstrumentsBlank(segments[1..]);
      StripEmpty(segments[0]);
    }
  }

  /** The early return for blank input is the answer the comprehension
      would give. */
  lemma NeededBlankGuardRedundant(s: string)
    ensures NeededInstruments(s) == Instruments(Split(s, ';'))
  {
    if IsBlank(s) {
      SplitBlank(s, ';');
      InstrumentsBlank(Split(s, ';'));
    }
  }

  /** The parts of `a;b` are those of `a` followed by those of `b`. */
  lemma NeededInstrumentsConcat(a: string, b: string)
    ensures NeededInstruments(a + ";" + b) == NeededInstruments(a) + NeededInstruments(b)
  {
    NeededBlankGuardRedundant(a + ";" + b);
    NeededBlankGuardRedundant(a);
    NeededBlankGuardRedundant(b);
    SplitConcat(a, b, ';');
    InstrumentsAppend(Split(a, ';'), Split(b, ';'));
  }

  /** One segment gives its stripped text, or nothing when that is empty. */
  lemma NeededInstrumentsSegment(seg: string)
    requires ';' !in seg
    ensures NeededInstruments(seg) == if Strip(seg) == [] then [] else [Strip(seg)]
  {
    NeededBlankGuardRedundant(seg);
    SplitNoSeparator(seg, ';');
    assert [seg][1..] == [];
  }

  /** Whitespace in front of the input is never part of an instrument. */
  lemma NeededInstrumentsSpaceCons(c: char, t: string)
    requires IsSpace(c)
    ensures NeededInstruments([c] + t) == NeededInstruments(t)
  {
    NeededBlankGuardRedundant([c] + t);
    NeededBlankGuardRedundant(t);
    var parts := Split(t, ';');
    SplitPrefix([c], t, ';');
    StripSpaceCons(c, parts[0]);
    assert ([[c] + parts[0]] + parts[1..])[1..] == parts[1..];
  }

  lemma {:induction false} InstrumentsTrimmed(xs: seq<string>)
    requires forall i :: 0 <= i < |xs| ==> xs[i] != [] && IsTrimmed(xs[i])
    ensures Instruments(xs) == xs
  {
    if xs != [] {
      StripTrimmed(xs[0]);
      InstrumentsTrimmed(xs[1..]);
      assert xs == [xs[0]] + xs[1..];
    }
  }

  /** Parts written as `a;b;c` (each stripped, non-empty, without `;`)
      are read back unchanged. */
  lemma NeededInstrumentsRoundTrip(xs: seq<string>)
    requires forall i :: 0 <= i < |xs| ==> xs[i] != [] && IsTrimmed(xs[i]) && ';' !in xs[i]
    ensures NeededInstruments(Join(xs, ";")) == xs
  {
    if xs != [] {
      NeededBlankGuardRedundant(Join(xs, ";"));
      SplitJoin(xs, ';');
      InstrumentsTrimmed(xs);
    }
  }

  /** A blank-padded segment followed by a blank one gives one part. */
  lemma NeededInstrumentsPadded(x: string)
    requires x != [] && IsTrimmed(x) && ';' !in x
    ensures NeededInstruments(([' '] + x) + ";" + [' ']) == [x]
  {
    assert NeededInstruments([' '] + x) == [x] by {
      NeededInstrumentsSegment(x);
      StripTrimmed(x);
      NeededInstrumentsSpaceCons(' ', x);
    }
    assert NeededInstruments([' ']) == [] by {
      NeededInstrumentsSegment([' ']);
      StripEmpty([' ']);
    }
    NeededInstrumentsConcat([' '] + x, [' ']);
  }

  /** Input such as `drums; bass; `, for any two parts: blanks after `;`
      are dropped and so is the empty trailing segment. */
  lemma NeededInstrumentsTwoParts(a: string, b: string)
    requires a != [] && IsTrimmed(a) && ';' !in a
    requires b != [] && IsTrimmed(b) && ';' !in b
    ensures NeededInstruments(a + "; " + b + "; ") == [a, b]
  {
    var tail := ([' '] + b) + ";" + [' '];
    assert a + "; " + b + "; " == a + ";" + tail;
    assert NeededInstruments(a) == [a] by {
      NeededInstrumentsSegment(a);
      StripTrimmed(a);
    }
    assert NeededInstruments(tail) == [b] by { NeededInstrumentsPadded(b); }
    NeededInstrumentsConcat(a, tail);
  }
}
