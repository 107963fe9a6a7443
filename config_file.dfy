/** The text-config path: the `key=value` line reader of
    `parse_config_file` and `process_config`, which turns comma-separated
    string fields of the configuration into lists in place. */
module ConfigFile {
  import opened Common
  import opened PyText
  import opened FieldParsers

  // ---------------------------------------------------------------------
  // The key=value reader

  /** A stripped line the reader skips: blank, or a `#` comment. */
  predicate Skipped(line: string) {
    var l := Strip(line);
    l == [] || l[0] == '#'
  }

  /** A line the reader rejects: not skipped, and without `=` once
      stripped. */
  predicate Malformed(line: string) {
    !Skipped(line) && '=' !in Strip(line)
  }

  /** The stripped key and value a line defines: none for a skipped line,
      nor for one without `=`; otherwise the line is split at its first
      `=`. */
  function Entry(line: string): Option<(string, string)>
  {
    if Skipped(line) then None
    else
      match SplitOnce(Strip(line), '=')
      case None => None
      case Some((key, value)) => Some((Strip(key), Strip(value)))
  }

  /** One pass of the reader's loop body: a skipped line changes nothing;
      a line without `=` fails the two-name unpacking; otherwise the value
      is stored under the key, replacing any earlier value. */
  function ReadLine(config: map<string, string>, line: string): Result<map<string, string>, ValueError>
  {
    if Skipped(line) then Ok(config)
    else
      match Entry(line)
      case None => Err(NotEnoughValues(2, 1))
      case Some((key, value)) => Ok(config[key := value])
  }

  /** The dictionary the reader builds from `lines`, or the error it
      raises first. */
  function KeyValues(lines: seq<string>): Result<map<string, string>, ValueError>
  {
    if lines == [] then Ok(map[])
    else
      match KeyValues(lines[..|lines| - 1])
      case Err(e) => Err(e)
      case Ok(config) => ReadLine(config, lines[|lines| - 1])
  }

  /** Once the reader has raised, further lines change nothing. */
  lemma {:induction false} KeyValuesErrPrefix(xs: seq<string>, ys: seq<string>)
    requires KeyValues(xs).Err?
    ensures KeyValues(xs + ys) == KeyValues(xs)
  {
    if ys != [] {
      var ys' := ys[..|ys| - 1];
      assert (xs + ys)[..|xs + ys| - 1] == xs + ys';
      KeyValuesErrPrefix(xs, ys');
    } else {
      assert xs + ys == xs;
    }
  }

  /** The reader's loop over the lines of the file. */
  method ReadKeyValues(lines: seq<string>) returns (r: Result<map<string, string>, ValueError>)
    ensures r == KeyValues(lines)
  {
    var config: map<string, string> := map[];
    for k := 0 to |lines|
      invariant KeyValues(lines[..k]) == Ok(config)
    {
      assert lines[..k + 1][..k] == lines[..k];
      var line := Strip(lines[k]);
      if line != [] && line[0] != '#' {
        var split := SplitOnce(line, '=');
        if split.None? {
          KeyValuesErrPrefix(lines[..k + 1], lines[k + 1..]);
          assert lines[..k + 1] + lines[k + 1..] == lines;
          return Err(NotEnoughValues(2, 1));
        }
        var (key, value) := split.value;
        config := config[Strip(key) := Strip(value)];
      }
    }
    assert lines[..|lines|] == lines;
    return Ok(config);
  }

  /** `=` is not whitespace, so stripping never decides whether a line
      holds one: a line is rejected when it is neither blank nor a comment
      and holds no `=` anywhere. */
  lemma MalformedLine(line: string)
    ensures Malformed(line) <==> !Skipped(line) && '=' !in line
  {
    if '=' in Strip(line) { StripSubstring(line, '='); }
    if '=' in line { StripKeepsNonSpace(line, '='); }
  }

  /** One line makes the reader raise exactly when it is malformed. */
  lemma ReadLineError(config: map<string, string>, line: string)
    ensures ReadLine(config, line).Err? <==> Malformed(line)
    ensures ReadLine(config, line).Err? ==> ReadLine(config, line).error == NotEnoughValues(2, 1)
  {
  }

  /** Only a malformed line makes the reader raise, and it raises the
      unpacking error for one value. */
  lemma {:induction false} KeyValuesErrorHasCause(lines: seq<string>)
    requires KeyValues(lines).Err?
    ensures exists i :: 0 <= i < |lines| && Malformed(lines[i])
    ensures KeyValues(lines).error == NotEnoughValues(2, 1)
  {
    var init, last := lines[..|lines| - 1], lines[|lines| - 1];
    if KeyValues(init).Err? {
      KeyValuesErrorHasCause(init);
      var i :| 0 <= i < |init| && Malformed(init[i]);
      assert lines[i] == init[i];
    } else {
      ReadLineError(KeyValues(init).value, last);
      assert Malformed(lines[|lines| - 1]);
    }
  }

  /** A malformed line anywhere makes the reader raise. */
  lemma {:induction false} KeyValuesMalformedRaises(lines: seq<string>, i: int)
    requires 0 <= i < |lines| && Malformed(lines[i])
    ensures KeyValues(lines).Err?
  {
    var init, last := lines[..|lines| - 1], lines[|lines| - 1];
    if i < |init| {
      assert init[i] == lines[i];
      KeyValuesMalformedRaises(init, i);
    } else if KeyValues(init).Ok? {
      ReadLineError(KeyValues(init).value, last);
    }
  }

  /** The reader raises exactly when some line is neither skipped nor holds
      an `=`, and then with the unpacking error for one value. */
  lemma KeyValuesError(lines: seq<string>)
    ensures KeyValues(lines).Err? <==> exists i :: 0 <= i < |lines| && Malformed(lines[i])
    ensures KeyValues(lines).Err? ==> KeyValues(lines).error == NotEnoughValues(2, 1)
  {
    if KeyValues(lines).Err? {
      KeyValuesErrorHasCause(lines);
    }
    if exists i :: 0 <= i < |lines| && Malformed(lines[i]) {
      var i :| 0 <= i < |lines| && Malformed(lines[i]);
      KeyValuesMalformedRaises(lines, i);
    }
  }

  /** The value of the LAST line that defines `key`, if any. */
  function LastValue(lines: seq<string>, key: string): Option<string>
  {
    if lines == [] then None
    else
      var e := Entry(lines[|lines| - 1]);
      if e.Some? && e.value.0 == key then Some(e.value.1)
      else LastValue(lines[..|lines| - 1], key)
  }

  /** When the reader succeeds, a key is in the dictionary exactly when
      some line defines it, and its value is the one the last such line
      gives: later duplicates overwrite earlier ones. */
  lemma {:induction false} KeyValuesLookup(lines: seq<string>)
    requires KeyValues(lines).Ok?
    ensures forall key :: LastValue(lines, key) ==
              if key in KeyValues(lines).value then Some(KeyValues(lines).value[key]) else None
  {
    if lines != [] {
      KeyValuesLookup(lines[..|lines| - 1]);
    }
  }

  // ---------------------------------------------------------------------
  // process_config

  /** A configuration value: a string, a list of strings, a list of
      (part, name) pairs, or any other value a YAML or JSON document can
      hold, which the normaliser never looks into. */
  datatype Value =
    | Str(text: string)
    | StrList(items: seq<string>)
    | PairList(pairs: seq<Musician>)
    | Other(repr: string)

  /** `[x.strip() for x in xs]`. */
  function StripAll(xs: seq<string>): (r: seq<string>)
    ensures |r| == |xs|
    ensures forall i :: 0 <= i < |xs| ==> r[i] == Strip(xs[i])
  {
    if xs == [] then [] else [Strip(xs[0])] + StripAll(xs[1..])
  }

  /** A comma-separated string field as a list: every piece stripped,
      empty pieces kept. */
  function CommaList(s: string): seq<string>
  {
    StripAll(Split(s, ','))
  }

  /** The pieces of a comma list are its comma-free stripped items, empty
      ones included: writing items out with `,` and reading them back gives
      them unchanged. */
  lemma CommaListRoundTrip(items: seq<string>)
    requires items != []
    requires forall i :: 0 <= i < |items| ==> IsTrimmed(items[i]) && ',' !in items[i]
    ensures CommaList(Join(items, ",")) == items
  {
    SplitJoin(items, ',');
    forall i | 0 <= i < |items| ensures Strip(items[i]) == items[i] {
      StripTrimmed(items[i]);
    }
  }

  lemma {:induction false} StripAllAppend(xs: seq<string>, ys: seq<string>)
    ensures StripAll(xs + ys) == StripAll(xs) + StripAll(ys)
  {
    if xs == [] {
      assert xs + ys == ys;
    } else {
      assert (xs + ys)[0] == xs[0];
      assert (xs + ys)[1..] == xs[1..] + ys;
      StripAllAppend(xs[1..], ys);
    }
  }

  /** Empty pieces are kept: the pieces of `a,b` are those of `a` then
      those of `b`, whatever either holds, so every comma adds an item. */
  lemma CommaListConcat(a: string, b: string)
    ensures CommaList(a + "," + b) == CommaList(a) + CommaList(b)
  {
    SplitConcat(a, b, ',');
    assert a + "," + b == a + [','] + b;
    StripAllAppend(Split(a, ','), Split(b, ','));
  }

  /** Even the empty string gives one (empty) item. */
  lemma CommaListEmpty()
    ensures CommaList([]) == [[]]
  {
    assert Split([], ',') == [[]];
    assert Strip([]) == [];
  }

  /** What one comma-piece of a musicians string contributes: nothing
      without `:`; the stripped halves when it splits on `:` into exactly
      two; the two-name unpacking error when it has more than one `:`. */
  function PairOf(piece: string): Result<Option<Musician>, ValueError>
  {
    if ':' !in piece then Ok(None)
    else
      var parts := Split(piece, ':');
      if |parts| == 2 then Ok(Some((Strip(parts[0]), Strip(parts[1]))))
      else Err(TooManyValues(2))
  }

  /** The pairs of a list of comma-pieces, in order, or the first error. */
  function PairsOf(pieces: seq<string>): Result<seq<Musician>, ValueError>
  {
    if pieces == [] then Ok([])
    else
      match PairsOf(pieces[..|pieces| - 1])
      case Err(e) => Err(e)
      case Ok(pairs) =>
        match PairOf(pieces[|pieces| - 1])
        case Err(e) => Err(e)
        case Ok(o) => Ok(pairs + AsList(o))
  }

  /** The `current_musicians` conversion of `process_config`. */
  function CommaPairs(s: string): Result<seq<Musician>, ValueError>
  {
    PairsOf(Split(s, ','))
  }

  lemma {:induction false} PairsOfErrPrefix(xs: seq<string>, ys: seq<string>)
    requires PairsOf(xs).Err?
    ensures PairsOf(xs + ys) == PairsOf(xs)
  {
    if ys != [] {
      var ys' := ys[..|ys| - 1];
      assert (xs + ys)[..|xs + ys| - 1] == xs + ys';
      PairsOfErrPrefix(xs, ys');
    } else {
      assert xs + ys == xs;
    }
  }

  /** Unfolding PairsOf at a known last piece. */
  lemma PairsOfSnoc(init: seq<string>, last: string)
    requires PairsOf(init).Ok? && PairOf(last).Ok?
    ensures PairsOf(init + [last]) == Ok(PairsOf(init).value + AsList(PairOf(last).value))
  {
    var zs := init + [last];
    assert zs[..|zs| - 1] == init;
    assert zs[|zs| - 1] == last;
  }

  lemma PairsOfSnocErr(init: seq<string>, last: string)
    requires PairsOf(init).Ok? && PairOf(last).Err?
    ensures PairsOf(init + [last]) == Err(PairOf(last).error)
  {
    var zs := init + [last];
    assert zs[..|zs| - 1] == init;
    assert zs[|zs| - 1] == last;
  }

  /** The loop of `process_config` over the comma-pieces of a
      `current_musicians` string. */
  method ParseCommaPairs(s: string) returns (r: Result<seq<Musician>, ValueError>)
    ensures r == CommaPairs(s)
  {
    var current: seq<Musician> := [];
    var pieces := Split(s, ',');
    for k := 0 to |pieces|
      invariant PairsOf(pieces[..k]) == Ok(current)
    {
      var piece := pieces[k];
      if ':' in piece {
        var parts := Split(piece, ':');
        if |parts| != 2 {
          assert PairsOf(pieces) == Err(TooManyValues(2)) by {
            assert PairOf(piece) == Err(TooManyValues(2));
            assert pieces[..k + 1] == pieces[..k] + [piece];
            PairsOfSnocErr(pieces[..k], piece);
            PairsOfErrPrefix(pieces[..k + 1], pieces[k + 1..]);
            assert pieces[..k + 1] + pieces[k + 1..] == pieces;
          }
          return Err(TooManyValues(2));
        }
        var pair := (Strip(parts[0]), Strip(parts[1]));
        assert PairsOf(pieces[..k + 1]) == Ok(current + [pair]) by {
          assert PairOf(piece) == Ok(Some(pair));
          assert pieces[..k + 1] == pieces[..k] + [piece];
          PairsOfSnoc(pieces[..k], piece);
        }
        current := current + [pair];
      } else {
        assert PairsOf(pieces[..k + 1]) == Ok(current) by {
          assert PairOf(piece) == Ok(None);
          assert pieces[..k + 1] == pieces[..k] + [piece];
          PairsOfSnoc(pieces[..k], piece);
          assert current + [] == current;
        }
      }
    }
    assert pieces[..|pieces|] == pieces;
    return Ok(current);
  }

  /** A piece with a `:` splits on `:` into the text before its first `:`
      and the pieces of the rest. */
  lemma SplitAtFirst(piece: string, c: char)
    requires c in piece
    ensures Split(piece, c) ==
            [SplitOnce(piece, c).value.0] + Split(SplitOnce(piece, c).value.1, c)
  {
    var (a, b) := SplitOnce(piece, c).value;
    SplitConcat(a, b, c);
    SplitNoSeparator(a, c);
  }

  lemma SplitCountOne(s: string, c: char)
    ensures |Split(s, c)| == 1 <==> c !in s
  {
    if c in s {
      var (a, b) := SplitOnce(s, c).value;
      SplitConcat(a, b, c);
    } else {
      SplitNoSeparator(s, c);
    }
  }

  /** A piece is rejected exactly when it holds a second `:` after its
      first; with exactly one `:` it gives the stripped text on either side. */
  lemma PairOfCases(piece: string)
    ensures PairOf(piece).Err? <==> ':' in piece && ':' in SplitOnce(piece, ':').value.1
    ensures PairOf(piece) == Ok(None) <==> ':' !in piece
    ensures ':' in piece && ':' !in SplitOnce(piece, ':').value.1 ==>
            PairOf(piece) == Ok(Some((Strip(SplitOnce(piece, ':').value.0),
                                      Strip(SplitOnce(piece, ':').value.1))))
  {
    if ':' in piece {
      SplitAtFirst(piece, ':');
      SplitCountOne(SplitOnce(piece, ':').value.1, ':');
      if ':' !in SplitOnce(piece, ':').value.1 {
        SplitNoSeparator(SplitOnce(piece, ':').value.1, ':');
      }
    }
  }

  /** The conversion fails exactly when some comma-piece holds more than
      one `:`. */
  lemma {:induction false} PairsOfError(pieces: seq<string>)
    ensures PairsOf(pieces).Err? <==> exists i :: 0 <= i < |pieces| && PairOf(pieces[i]).Err?
    ensures PairsOf(pieces).Err? ==> PairsOf(pieces).error == TooManyValues(2)
  {
    if pieces != [] {
      var init := pieces[..|pieces| - 1];
      PairsOfError(init);
      if exists i :: 0 <= i < |init| && PairOf(init[i]).Err? {
        var i :| 0 <= i < |init| && PairOf(init[i]).Err?;
        assert pieces[i] == init[i];
      }
      if exists i :: 0 <= i < |pieces| && PairOf(pieces[i]).Err? {
        var i :| 0 <= i < |pieces| && PairOf(pieces[i]).Err?;
        if i < |init| { assert init[i] == pieces[i]; }
      }
    }
  }

  /** Some comma-piece of `s` holds more than one `:`. */
  predicate HasBadPiece(s: string) {
    exists i :: 0 <= i < |Split(s, ',')| && PairOf(Split(s, ',')[i]).Err?
  }

  /** The `current_musicians` conversion fails exactly when some
      comma-piece holds more than one `:`. */
  lemma CommaPairsError(s: string)
    ensures CommaPairs(s).Err? <==> HasBadPiece(s)
    ensures CommaPairs(s).Err? ==> CommaPairs(s).error == TooManyValues(2)
  {
    PairsOfError(Split(s, ','));
  }

  /** Unfolding PairsOf at the last piece of a list that parses. */
  lemma PairsOfInit(ys: seq<string>)
    requires ys != [] && PairsOf(ys).Ok?
    ensures PairsOf(ys[..|ys| - 1]).Ok? && PairOf(ys[|ys| - 1]).Ok?
    ensures PairsOf(ys).value == PairsOf(ys[..|ys| - 1]).value + AsList(PairOf(ys[|ys| - 1]).value)
  {
  }

  /** Splitting off the last piece of `ys` inside `xs + ys`. A separate
      lemma keeps this sequence identity out of `PairsOfAppend`'s own
      proof, which is much cheaper for the solver that way. */
  lemma SnocAppend(xs: seq<string>, ys: seq<string>)
    requires ys != []
    ensures xs + ys == (xs + ys[..|ys| - 1]) + [ys[|ys| - 1]]
  {
  }

  lemma {:induction false} PairsOfAppend(xs: seq<string>, ys: seq<string>)
    requires PairsOf(xs).Ok? && PairsOf(ys).Ok?
    ensures PairsOf(xs + ys) == Ok(PairsOf(xs).value + PairsOf(ys).value)
  {
    if ys == [] {
      assert xs + ys == xs;
      assert PairsOf(xs).value + [] == PairsOf(xs).value;
    } else {
      var ys', last := ys[..|ys| - 1], ys[|ys| - 1];
      PairsOfInit(ys);
      PairsOfAppend(xs, ys');
      SnocAppend(xs, ys);
      PairsOfSnoc(xs + ys', last);
      var px, py', o := PairsOf(xs).value, PairsOf(ys').value, PairOf(last).value;
      assert (px + py') + AsList(o) == px + (py' + AsList(o));
    }
  }

  /** Pieces are independent: the pairs of `a,b` are those of `a` then
      those of `b`, pieces without `:` contributing nothing. */
  lemma CommaPairsConcat(a: string, b: string)
    requires CommaPairs(a).Ok? && CommaPairs(b).Ok?
    ensures CommaPairs(a + "," + b) == Ok(CommaPairs(a).value + CommaPairs(b).value)
  {
    SplitConcat(a, b, ',');
    assert a + "," + b == a + [','] + b;
    PairsOfAppend(Split(a, ','), Split(b, ','));
  }

  /** A pair with trimmed sides and no `:` or `,` on either side. */
  predicate CommaSafe(m: Musician) {
    IsTrimmed(m.0) && IsTrimmed(m.1) && ':' !in m.0 && ':' !in m.1
    && ',' !in m.0 && ',' !in m.1
  }

  lemma PairOfSegment(m: Musician)
    requires CommaSafe(m)
    ensures PairOf(MusicianSegment(m)) == Ok(Some(m))
  {
    var seg := MusicianSegment(m);
    assert seg == m.0 + [':'] + m.1;
    SplitOnceOf(m.0, ':', m.1);
    PairOfCases(seg);
    StripTrimmed(m.0);
    StripTrimmed(m.1);
  }

  lemma {:induction false} MusicianSegmentsSnoc(ms: seq<Musician>, m: Musician)
    ensures MusicianSegments(ms + [m]) == MusicianSegments(ms) + [MusicianSegment(m)]
  {
    if ms != [] {
      assert (ms + [m])[1..] == ms[1..] + [m];
      MusicianSegmentsSnoc(ms[1..], m);
    } else {
      assert MusicianSegments([m]) == [MusicianSegment(m)] + MusicianSegments([]);
    }
  }

  lemma {:induction false} PairsOfSegments(ms: seq<Musician>)
    requires forall i :: 0 <= i < |ms| ==> CommaSafe(ms[i])
    ensures PairsOf(MusicianSegments(ms)) == Ok(ms)
  {
    if ms != [] {
      var init, last := ms[..|ms| - 1], ms[|ms| - 1];
      var segs := MusicianSegments(ms);
      assert ms == init + [last];
      assert segs == MusicianSegments(init) + [MusicianSegment(last)] by {
        MusicianSegmentsSnoc(init, last);
      }
      assert segs[..|segs| - 1] == MusicianSegments(init);
      assert PairsOf(MusicianSegments(init)) == Ok(init) by {
        PairsOfSegments(init);
      }
      assert PairOf(segs[|segs| - 1]) == Ok(Some(last)) by {
        PairOfSegment(last);
      }
    }
  }

  /** Pairs written `part:name,part:name` (sides trimmed, without `:` or
      `,`) are read back unchanged. */
  lemma CommaPairsRoundTrip(ms: seq<Musician>)
    requires ms != []
    requires forall i :: 0 <= i < |ms| ==> CommaSafe(ms[i])
    ensures CommaPairs(Join(MusicianSegments(ms), ",")) == Ok(ms)
  {
    var segs := MusicianSegments(ms);
    forall i | 0 <= i < |segs| ensures ',' !in segs[i] {
      assert segs[i] == ms[i].0 + ":" + ms[i].1;
    }
    SplitJoin(segs, ',');
    PairsOfSegments(ms);
  }

  // The normaliser, as a function of the dictionary it is given.

  const MusiciansNeededKey: string := "musicians_needed"
  const CurrentMusiciansKey: string := "current_musicians"
  const OtherTracksKey: string := "other_tracks"

  lemma FieldKeysDistinct()
    ensures MusiciansNeededKey != CurrentMusiciansKey
    ensures MusiciansNeededKey != OtherTracksKey
    ensures CurrentMusiciansKey != OtherTracksKey
  {
    assert |MusiciansNeededKey| == 16 && |CurrentMusiciansKey| == 17 && |OtherTracksKey| == 12;
  }

  /** `config[key]` as a comma list, when it holds a string; every other
      entry as it was. */
  function ListField(config: map<string, Value>, key: string): (c: map<string, Value>)
    ensures c.Keys == config.Keys
    ensures key in config && config[key].Str? ==> c[key] == StrList(CommaList(config[key].text))
  {
    if key in config && config[key].Str? then config[key := StrList(CommaList(config[key].text))]
    else config
  }

  lemma ListFieldCases(config: map<string, Value>, key: string)
    ensures key in config && config[key].Str? ==>
              ListField(config, key) == config[key := StrList(CommaList(config[key].text))]
    ensures !(key in config && config[key].Str?) ==> ListField(config, key) == config
  {
  }

  /** ListField leaves every other entry, and a non-string entry, alone. */
  lemma ListFieldFrame(config: map<string, Value>, key: string)
    ensures forall k :: k in config && (k != key || !config[k].Str?) ==>
              ListField(config, key)[k] == config[k]
  {
  }

  /** `config["current_musicians"]` as pairs, when it holds a string;
      every other entry as it was. */
  function PairField(config: map<string, Value>): (r: Result<map<string, Value>, ValueError>)
    ensures r.Ok? ==> r.value.Keys == config.Keys
    ensures CurrentMusiciansKey in config && config[CurrentMusiciansKey].Str? ==>
              match CommaPairs(config[CurrentMusiciansKey].text)
              case Err(e) => r == Err(e)
              case Ok(pairs) => r.Ok? && r.value[CurrentMusiciansKey] == PairList(pairs)
    ensures !(CurrentMusiciansKey in config && config[CurrentMusiciansKey].Str?) ==> r == Ok(config)
  {
    var key := CurrentMusiciansKey;
    if key in config && config[key].Str? then
      match CommaPairs(config[key].text)
      case Err(e) => Err(e)
      case Ok(pairs) => Ok(config[key := PairList(pairs)])
    else Ok(config)
  }

  /** PairField leaves every other entry, and a non-string entry, alone. */
  lemma PairFieldFrame(config: map<string, Value>)
    requires PairField(config).Ok?
    ensures forall k :: k in config && (k != CurrentMusiciansKey || !config[k].Str?) ==>
              PairField(config).value[k] == config[k]
  {
  }

  /** The dictionary `process_config` leaves behind and returns, or the
      error it raises. */
  function Normalised(config: map<string, Value>): Result<map<string, Value>, ValueError>
  {
    match PairField(ListField(config, MusiciansNeededKey))
    case Err(e) => Err(e)
    case Ok(c) => Ok(ListField(c, OtherTracksKey))
  }

  /** The normaliser keeps every key, changes only the three list fields,
      and changes those only when they hold strings. */
  lemma NormalisedFrame(config: map<string, Value>)
    requires Normalised(config).Ok?
    ensures Normalised(config).value.Keys == config.Keys
    ensures forall k :: (k in config && (!config[k].Str? ||
              (k != MusiciansNeededKey && k != CurrentMusiciansKey && k != OtherTracksKey)))
              ==> Normalised(config).value[k] == config[k]
  {
    var c1 := ListField(config, MusiciansNeededKey);
    var c2 := PairField(c1).value;
    ListFieldFrame(config, MusiciansNeededKey);
    PairFieldFrame(c1);
    ListFieldFrame(c2, OtherTracksKey);
    assert forall k :: k in config && !config[k].Str? ==> c1[k] == config[k];
  }

  /** After a successful run the string list fields are split and
      trimmed, and a string musicians field is paired. */
  lemma NormalisedFields(config: map<string, Value>)
    requires Normalised(config).Ok?
    ensures forall k :: (k in config && config[k].Str? &&
              (k == MusiciansNeededKey || k == OtherTracksKey))
              ==> Normalised(config).value[k] == StrList(CommaList(config[k].text))
    ensures CurrentMusiciansKey in config && config[CurrentMusiciansKey].Str? ==>
              CommaPairs(config[CurrentMusiciansKey].text).Ok? &&
              Normalised(config).value[CurrentMusiciansKey] ==
                PairList(CommaPairs(config[CurrentMusiciansKey].text).value)
  {
    FieldKeysDistinct();
    var c1 := ListField(config, MusiciansNeededKey);
    var c2 := PairField(c1).value;
    ListFieldFrame(config, MusiciansNeededKey);
    PairFieldFrame(c1);
    ListFieldFrame(c2, OtherTracksKey);
    assert CurrentMusiciansKey in config ==> c1[CurrentMusiciansKey] == config[CurrentMusiciansKey];
    assert OtherTracksKey in config ==> c1[OtherTracksKey] == config[OtherTracksKey];
    assert OtherTracksKey in config ==> c2[OtherTracksKey] == config[OtherTracksKey];
    assert MusiciansNeededKey in config ==> c2[MusiciansNeededKey] == c1[MusiciansNeededKey];
    if CurrentMusiciansKey in config && config[CurrentMusiciansKey].Str? {
      assert CommaPairs(config[CurrentMusiciansKey].text).Ok?;
    }
  }

  /** The normaliser fails exactly when the musicians field is a string
      with a comma-piece holding more than one `:`. */
  lemma NormalisedError(config: map<string, Value>)
    ensures Normalised(config).Err? <==>
              CurrentMusiciansKey in config && config[CurrentMusiciansKey].Str? &&
              HasBadPiece(config[CurrentMusiciansKey].text)
  {
    FieldKeysDistinct();
    var c1 := ListField(config, MusiciansNeededKey);
    ListFieldFrame(config, MusiciansNeededKey);
    assert CurrentMusiciansKey in config ==> c1[CurrentMusiciansKey] == config[CurrentMusiciansKey];
    if CurrentMusiciansKey in config && config[CurrentMusiciansKey].Str? {
      var text := config[CurrentMusiciansKey].text;
      CommaPairsError(text);
      assert c1[CurrentMusiciansKey] == Str(text);
      assert CommaPairs(text).Err? ==> PairField(c1) == Err(CommaPairs(text).error);
      assert CommaPairs(text).Ok? ==> PairField(c1).Ok?;
      assert Normalised(config).Err? <==> CommaPairs(text).Err?;
    } else {
      assert PairField(c1) == Ok(c1);
    }
  }

  /** Normalising a normalised dictionary changes nothing: no list field
      holds a string any more. */
  lemma NormalisedIdempotent(config: map<string, Value>)
    requires Normalised(config).Ok?
    ensures Normalised(Normalised(config).value) == Ok(Normalised(config).value)
  {
    FieldKeysDistinct();
    var m := Normalised(config).value;
    NormalisedFields(config);
    NormalisedFrame(config);
    assert MusiciansNeededKey in m ==> !m[MusiciansNeededKey].Str?;
    assert CurrentMusiciansKey in m ==> !m[CurrentMusiciansKey].Str?;
    assert OtherTracksKey in m ==> !m[OtherTracksKey].Str?;
    assert ListField(m, MusiciansNeededKey) == m;
    assert PairField(m) == Ok(m);
  }

  /** The configuration dictionary, which `process_config` changes in
      place. */
  class Config {
    var entries: map<string, Value>

    constructor (entries: map<string, Value>)
      ensures this.entries == entries
    {
      this.entries := entries;
    }

    /** `process_config`: convert the string list fields in place. When the
        musicians string raises, the `musicians_needed` conversion has
        already happened and the other two fields are as they were. */
    method Process() returns (error: Option<ValueError>)
      modifies this
      ensures error.None? <==> Normalised(old(entries)).Ok?
      ensures error.None? ==> entries == Normalised(old(entries)).value
      ensures error.Some? ==> Normalised(old(entries)) == Err(error.value)
      ensures error.Some? ==> entries == ListField(old(entries), MusiciansNeededKey)
    {
      if MusiciansNeededKey in entries && entries[MusiciansNeededKey].Str? {
        entries := entries[MusiciansNeededKey := StrList(CommaList(entries[MusiciansNeededKey].text))];
      }
      assert entries == ListField(old(entries), MusiciansNeededKey) by {
        ListFieldCases(old(entries), MusiciansNeededKey);
      }
      ghost var converted := entries;
      if CurrentMusiciansKey in entries && entries[CurrentMusiciansKey].Str? {
        var pairs := ParseCommaPairs(entries[CurrentMusiciansKey].text);
        if pairs.Err? {
          assert PairField(converted) == Err(pairs.error);
          return Some(pairs.error);
        }
        entries := entries[CurrentMusiciansKey := PairList(pairs.value)];
      }
      assert PairField(converted) == Ok(entries);
      ghost var paired := entries;
      if OtherTracksKey in entries && entries[OtherTracksKey].Str? {
        entries := entries[OtherTracksKey := StrList(CommaList(entries[OtherTracksKey].text))];
      }
      assert entries == ListField(paired, OtherTracksKey) by { ListFieldCases(paired, OtherTracksKey); }
      return None;
    }
  }

  /** The dictionary the `key=value` reader hands to `process_config`:
      every value a string. */
  function AsConfig(kv: map<string, string>): (c: map<string, Value>)
    ensures c.Keys == kv.Keys
    ensures forall k :: k in kv ==> c[k] == Str(kv[k])
  {
    map k | k in kv :: Str(kv[k])
  }

  /** Normalising what the `key=value` reader returns: it fails exactly
      when the file's `current_musicians` value has a comma-piece with more
      than one `:`; otherwise each list field the file defines becomes its
      comma list or its pairs, and every other value stays the string the
      file gave. */
  lemma NormalisedFileConfig(kv: map<string, string>)
    ensures Normalised(AsConfig(kv)).Err? <==>
              CurrentMusiciansKey in kv && HasBadPiece(kv[CurrentMusiciansKey])
    ensures Normalised(AsConfig(kv)).Ok? ==>
              var m := Normalised(AsConfig(kv)).value;
              m.Keys == kv.Keys &&
              (MusiciansNeededKey in kv ==>
                 m[MusiciansNeededKey] == StrList(CommaList(kv[MusiciansNeededKey]))) &&
              (OtherTracksKey in kv ==> m[OtherTracksKey] == StrList(CommaList(kv[OtherTracksKey]))) &&
              (CurrentMusiciansKey in kv ==>
                 m[CurrentMusiciansKey] == PairList(CommaPairs(kv[CurrentMusiciansKey]).value)) &&
              (forall k :: (k in kv && k != MusiciansNeededKey && k != CurrentMusiciansKey &&
                            k != OtherTracksKey) ==> m[k] == Str(kv[k]))
  {
    var c := AsConfig(kv);
    NormalisedError(c);
    if Normalised(c).Ok? {
      NormalisedFields(c);
      NormalisedFrame(c);
    }
  }
}
