/** The record `create_ensemble_json` builds before serialising it: the
    two embed fields ("Musicians" and "Tracks"), the title, thumbnail,
    author, description and colour of the ensemble advertisement. */
module Ensemble {
  import opened Common
  import opened PyText
  import opened FieldParsers

  datatype Field = Field(name: string, value: string, inline: bool)
  datatype Thumbnail = Thumbnail(url: Option<string>)
  datatype Author = Author(name: string)
  datatype Embed = Embed(
    fields: seq<Field>,
    title: string,
    thumbnail: Thumbnail,
    author: Author,
    description: string,
    color: int)

  /** A keyword argument that the caller may leave out: Python then uses
      the parameter's default. */
  datatype Arg<T> = Omitted | Given(value: T)

  const DefaultThumbnailUrl: string :=
    "https://png.pngtree.com/png-clipart/20210129/ourmid/pngtree-default-male-avatar-png-image_2811083.jpg"
  const DefaultUserId: string := "userID"
  const AuthorName: string := "Small Ensemble"
  const EmbedColor: int := 16733952

  function ArgOr<T>(a: Arg<T>, default: T): T
  {
    match a
    case Omitted => default
    case Given(v) => v
  }

  // ---------------------------------------------------------------------
  // The "Musicians" field

  /** `- part: name` for a musician already in the ensemble. */
  function CurrentLine(m: Musician): string
  {
    "- " + m.0 + ": " + m.1
  }

  /** `- part: **_NEEDED_**` for a part still open. */
  function NeededLine(part: string): string
  {
    "- " + part + ": **_NEEDED_**"
  }

  function CurrentLines(ms: seq<Musician>): (r: seq<string>)
    ensures |r| == |ms|
    ensures forall i :: 0 <= i < |ms| ==> r[i] == CurrentLine(ms[i])
  {
    if ms == [] then [] else [CurrentLine(ms[0])] + CurrentLines(ms[1..])
  }

  function NeededLines(parts: seq<string>): (r: seq<string>)
    ensures |r| == |parts|
    ensures forall i :: 0 <= i < |parts| ==> r[i] == NeededLine(parts[i])
  {
    if parts == [] then [] else [NeededLine(parts[0])] + NeededLines(parts[1..])
  }

  /** The musicians text: each group's lines joined by newlines, and one
      more newline between the groups only when both texts are non-empty. */
  function MusiciansText(current: seq<Musician>, needed: seq<string>): string
  {
    var currentText := Join(CurrentLines(current), "\n");
    var neededText := Join(NeededLines(needed), "\n");
    (if currentText != [] && neededText != [] then currentText + "\n" else currentText)
      + neededText
  }

  /** A join of lines that are all non-empty is empty only for no lines. */
  lemma JoinEmpty(xs: seq<string>, sep: string)
    requires forall i :: 0 <= i < |xs| ==> xs[i] != []
    ensures Join(xs, sep) == [] <==> xs == []
  {
    if |xs| > 1 {
      assert Join(xs, sep) == xs[0] + sep + Join(xs[1..], sep);
    }
  }

  /** The musicians text is the current lines followed by the needed lines,
      all joined by single newlines: the groups are separated by exactly
      one newline when both are present, and an absent group leaves
      exactly the other group's text (the empty text when both are absent). */
  lemma MusiciansTextJoin(current: seq<Musician>, needed: seq<string>)
    ensures MusiciansText(current, needed) ==
            Join(CurrentLines(current) + NeededLines(needed), "\n")
    ensures current == [] ==> MusiciansText(current, needed) == Join(NeededLines(needed), "\n")
    ensures needed == [] ==> MusiciansText(current, needed) == Join(CurrentLines(current), "\n")
  {
    var cs, ns := CurrentLines(current), NeededLines(needed);
    assert forall i :: 0 <= i < |cs| ==> |cs[i]| >= 2;
    assert forall i :: 0 <= i < |ns| ==> |ns[i]| >= 2;
    JoinEmpty(cs, "\n");
    JoinEmpty(ns, "\n");
    if cs == [] {
      assert cs + ns == ns;
    } else if ns == [] {
      assert cs + ns == cs;
    } else {
      JoinAppend(cs, ns, "\n");
    }
  }

  lemma CurrentLinesNoNewline(ms: seq<Musician>)
    requires forall i :: 0 <= i < |ms| ==> '\n' !in ms[i].0 && '\n' !in ms[i].1
    ensures forall i :: 0 <= i < |CurrentLines(ms)| ==> '\n' !in CurrentLines(ms)[i]
  {
    if ms != [] {
      CurrentLinesNoNewline(ms[1..]);
      assert '\n' !in CurrentLine(ms[0]);
      forall i | 1 <= i < |ms| ensures '\n' !in CurrentLines(ms)[i] {
        assert CurrentLines(ms)[i] == CurrentLines(ms[1..])[i - 1];
      }
    }
  }

  lemma NeededLinesNoNewline(parts: seq<string>)
    requires forall i :: 0 <= i < |parts| ==> '\n' !in parts[i]
    ensures forall i :: 0 <= i < |NeededLines(parts)| ==> '\n' !in NeededLines(parts)[i]
  {
    if parts != [] {
      NeededLinesNoNewline(parts[1..]);
      assert '\n' !in NeededLine(parts[0]);
      forall i | 1 <= i < |parts| ensures '\n' !in NeededLines(parts)[i] {
        assert NeededLines(parts)[i] == NeededLines(parts[1..])[i - 1];
      }
    }
  }

  /** When no part or name holds a newline, the lines of the musicians
      text are exactly one `- part: name` line per current musician, in
      order, then one `- part: **_NEEDED_**` line per needed part. */
  lemma MusiciansTextLines(current: seq<Musician>, needed: seq<string>)
    requires forall i :: 0 <= i < |current| ==> '\n' !in current[i].0 && '\n' !in current[i].1
    requires forall i :: 0 <= i < |needed| ==> '\n' !in needed[i]
    requires current != [] || needed != []
    ensures Split(MusiciansText(current, needed), '\n') ==
            CurrentLines(current) + NeededLines(needed)
  {
    var lines := CurrentLines(current) + NeededLines(needed);
    MusiciansTextJoin(current, needed);
    CurrentLinesNoNewline(current);
    NeededLinesNoNewline(needed);
    forall i | 0 <= i < |lines| ensures '\n' !in lines[i] {
      if i >= |current| {
        assert lines[i] == NeededLines(needed)[i - |current|];
      }
    }
    SplitJoin(lines, '\n');
  }

  // ---------------------------------------------------------------------
  // The "Tracks" field

  /** `- Original: track`. */
  function OriginalLine(track: string): string
  {
    "- Original: " + track
  }

  /** `- track` for each further track. */
  function TrackLines(tracks: seq<string>): (r: seq<string>)
    ensures |r| == |tracks|
    ensures forall i :: 0 <= i < |tracks| ==> r[i] == "- " + tracks[i]
  {
    if tracks == [] then [] else ["- " + tracks[0]] + TrackLines(tracks[1..])
  }

  /** The further tracks Python's `if other_tracks:` lets through: none
      for `None` and for the empty list. */
  function ExtraTracks(otherTracks: Option<seq<string>>): seq<string>
  {
    match otherTracks
    case None => []
    case Some(ts) => ts
  }

  /** The tracks text: a newline and the original-track line, then, when
      further tracks are given and there is at least one, a newline, `- `
      and the tracks joined by a newline and `- `. */
  function TracksText(originalTrack: string, otherTracks: Option<seq<string>>): string
  {
    var head := "\n- Original: " + originalTrack;
    if otherTracks.Some? && otherTracks.value != [] then
      head + ("\n- " + Join(otherTracks.value, "\n- "))
    else head
  }

  /** Joining tracks with `\n- ` behind a leading `- ` is joining their
      `- track` lines with newlines. */
  lemma {:induction false} TrackLinesJoin(tracks: seq<string>)
    requires tracks != []
    ensures "- " + Join(tracks, "\n- ") == Join(TrackLines(tracks), "\n")
  {
    if |tracks| > 1 {
      var t, rest := tracks[0], Join(tracks[1..], "\n- ");
      assert "- " + (t + "\n- " + rest) == ("- " + t) + "\n" + ("- " + rest);
      TrackLinesJoin(tracks[1..]);
      assert TrackLines(tracks)[1..] == TrackLines(tracks[1..]);
    }
  }

  /** The tracks text is an empty first line, the original-track line and
      one `- track` line per further track, joined by newlines; without
      further tracks (`None` or the empty list) it is exactly the newline
      and the original-track line. */
  lemma TracksTextJoin(originalTrack: string, otherTracks: Option<seq<string>>)
    ensures TracksText(originalTrack, otherTracks) ==
            Join(["", OriginalLine(originalTrack)] + TrackLines(ExtraTracks(otherTracks)), "\n")
    ensures ExtraTracks(otherTracks) == [] ==>
            TracksText(originalTrack, otherTracks) == "\n" + OriginalLine(originalTrack)
  {
    var text := "\n- Original: " + originalTrack;
    assert text == [] + "\n" + OriginalLine(originalTrack);
    var head := ["", OriginalLine(originalTrack)];
    var extra := ExtraTracks(otherTracks);
    assert Join(head, "\n") == [] + "\n" + OriginalLine(originalTrack) by {
      assert head[1..] == [OriginalLine(originalTrack)];
    }
    if extra == [] {
      assert head + TrackLines(extra) == head;
    } else {
      var rest := Join(extra, "\n- ");
      assert text + ("\n- " + rest) == text + "\n" + ("- " + rest);
      JoinAppend(head, TrackLines(extra), "\n");
      TrackLinesJoin(extra);
    }
  }

  lemma TrackLinesNoNewline(tracks: seq<string>)
    requires forall i :: 0 <= i < |tracks| ==> '\n' !in tracks[i]
    ensures forall i :: 0 <= i < |TrackLines(tracks)| ==> '\n' !in TrackLines(tracks)[i]
  {
    if tracks != [] {
      TrackLinesNoNewline(tracks[1..]);
      assert '\n' !in "- " + tracks[0];
      forall i | 1 <= i < |tracks| ensures '\n' !in TrackLines(tracks)[i] {
        assert TrackLines(tracks)[i] == TrackLines(tracks[1..])[i - 1];
      }
    }
  }

  /** When no track holds a newline, the lines of the tracks text are an
      empty line, `- Original: track` and one `- track` line per further
      track, in order. */
  lemma TracksTextLines(originalTrack: string, otherTracks: Option<seq<string>>)
    requires '\n' !in originalTrack
    requires forall i :: 0 <= i < |ExtraTracks(otherTracks)| ==> '\n' !in ExtraTracks(otherTracks)[i]
    ensures Split(TracksText(originalTrack, otherTracks), '\n') ==
            ["", OriginalLine(originalTrack)] + TrackLines(ExtraTracks(otherTracks))
  {
    var tail := TrackLines(ExtraTracks(otherTracks));
    var lines := ["", OriginalLine(originalTrack)] + tail;
    TracksTextJoin(originalTrack, otherTracks);
    TrackLinesNoNewline(ExtraTracks(otherTracks));
    assert '\n' !in OriginalLine(originalTrack);
    forall i | 0 <= i < |lines| ensures '\n' !in lines[i] {
      if i >= 2 {
        assert lines[i] == tail[i - 2];
      }
    }
    SplitJoin(lines, '\n');
  }

  // ---------------------------------------------------------------------
  // The embed record

  /** The record `create_ensemble_json` serialises. The thumbnail URL is
      passed through as given (an explicit `None` stays `None`); the
      default URL and the default user id apply only to omitted
      arguments. */
  function EnsembleEmbed(
    songTitle: string,
    game: string,
    musiciansNeeded: seq<string>,
    currentMusicians: seq<Musician>,
    originalTrack: string,
    otherTracks: Option<seq<string>>,
    thumbnailUrl: Arg<Option<string>>,
    userId: Arg<string>): (e: Embed)
    ensures |e.fields| == 2
    ensures e.fields[0] == Field("Musicians", MusiciansText(currentMusicians, musiciansNeeded), false)
    ensures e.fields[1] == Field("Tracks", TracksText(originalTrack, otherTracks), false)
    ensures e.title == songTitle + " ~ " + game
    ensures e.author.name == AuthorName && e.color == EmbedColor
    ensures thumbnailUrl.Omitted? ==> e.thumbnail.url == Some(DefaultThumbnailUrl)
    ensures thumbnailUrl.Given? ==> e.thumbnail.url == thumbnailUrl.value
    ensures userId.Omitted? ==> e.description == "Run by @" + DefaultUserId
    ensures userId.Given? ==> e.description == "Run by @" + userId.value
  {
    Embed(
      [ Field("Musicians", MusiciansText(currentMusicians, musiciansNeeded), false),
        Field("Tracks", TracksText(originalTrack, otherTracks), false) ],
      songTitle + " ~ " + game,
      Thumbnail(ArgOr(thumbnailUrl, Some(DefaultThumbnailUrl))),
      Author(AuthorName),
      "Run by @" + ArgOr(userId, DefaultUserId),
      EmbedColor)
  }

  /** What the embed's fields say, line by line, when no text holds a
      newline: the musicians field lists the current then the needed
      parts, the tracks field the original then the further tracks. */
  lemma EmbedFieldLines(
    songTitle: string,
    game: string,
    musiciansNeeded: seq<string>,
    currentMusicians: seq<Musician>,
    originalTrack: string,
    otherTracks: Option<seq<string>>,
    thumbnailUrl: Arg<Option<string>>,
    userId: Arg<string>)
    requires forall i :: 0 <= i < |currentMusicians| ==>
               '\n' !in currentMusicians[i].0 && '\n' !in currentMusicians[i].1
    requires forall i :: 0 <= i < |musiciansNeeded| ==> '\n' !in musiciansNeeded[i]
    requires currentMusicians != [] || musiciansNeeded != []
    requires '\n' !in originalTrack
    requires forall i :: 0 <= i < |ExtraTracks(otherTracks)| ==> '\n' !in ExtraTracks(otherTracks)[i]
    ensures var e := EnsembleEmbed(songTitle, game, musiciansNeeded, currentMusicians,
                                   originalTrack, otherTracks, thumbnailUrl, userId);
            Split(e.fields[0].value, '\n') == CurrentLines(currentMusicians) + NeededLines(musiciansNeeded) &&
            Split(e.fields[1].value, '\n') ==
              ["", OriginalLine(originalTrack)] + TrackLines(ExtraTracks(otherTracks))
  {
    MusiciansTextLines(currentMusicians, musiciansNeeded);
    TracksTextLines(originalTrack, otherTracks);
  }
}
