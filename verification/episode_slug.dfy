/**
 * Episode slugs of the form `{showSlug}-s{seasonNumber}-e{episodeNumber}`:
 * the parser of EpisodeRepository.Get(string) as it is written, and the
 * parser that the format calls for.
 */
module EpisodeSlug {
  import opened Wrappers
  import opened Models
  import opened Strings

  const SeasonMarker: string := "-s"
  const EpisodeMarker: string := "-e"
  const FormatMessage: string := "Invalid episode slug. Format: {showSlug}-s{seasonNumber}-e{episodeNumber}"

  /** The three values the slug lookup delegates to: show slug, season number, episode number. */
  datatype SlugKey = SlugKey(showSlug: string, seasonNumber: int, episodeNumber: int)

  /** The slug the format prescribes for a key. */
  function FormatSlug(k: SlugKey): (slug: string)
  {
    k.showSlug + SeasonMarker + IntToText(k.seasonNumber) + EpisodeMarker + IntToText(k.episodeNumber)
  }

  /**
   * The parsing half of `Get(string slug)` as written: both markers are found by
   * their first ordinal occurrence, and the season number is read from everything
   * after "-s", up to the end of the slug.
   */
  function Parse(slug: string): (r: Result<SlugKey, Exception>)
    ensures r.Failure? ==> r.error == InvalidOperation(FormatMessage)
    ensures r.Success? ==> IsInt32(r.value.seasonNumber) && IsInt32(r.value.episodeNumber)
  {
    var sIndex := IndexOf(slug, SeasonMarker);
    var eIndex := IndexOf(slug, EpisodeMarker);
    if sIndex == -1 || eIndex == -1 || eIndex < sIndex then Failure(InvalidOperation(FormatMessage))
    else ReadKey(slug[..sIndex], slug[sIndex + 2..], slug[eIndex + 2..])
  }

  /** The key made of a show slug and the two numbers read from their texts; either number failing fails the slug. */
  function ReadKey(showSlug: string, seasonText: string, episodeText: string): (r: Result<SlugKey, Exception>)
    ensures r.Failure? ==> r.error == InvalidOperation(FormatMessage)
    ensures r.Success? <==> TryParse(seasonText).Some? && TryParse(episodeText).Some?
    ensures r.Success? ==>
      && r.value.showSlug == showSlug
      && r.value.seasonNumber == TryParse(seasonText).value
      && r.value.episodeNumber == TryParse(episodeText).value
  {
    match TryParse(seasonText)
    case None => Failure(InvalidOperation(FormatMessage))
    case Some(seasonNumber) =>
      match TryParse(episodeText)
      case None => Failure(InvalidOperation(FormatMessage))
      case Some(episodeNumber) => Success(SlugKey(showSlug, seasonNumber, episodeNumber))
  }

  /** An "-e" at or after an "-s" starts at least two characters after it. */
  lemma MarkersApart(slug: string, sIndex: int, eIndex: int)
    requires OccursAt(slug, SeasonMarker, sIndex) && OccursAt(slug, EpisodeMarker, eIndex)
    requires sIndex <= eIndex
    ensures sIndex + 2 <= eIndex
  {
    OccurrenceChar(slug, SeasonMarker, sIndex, 1);
    OccurrenceChar(slug, EpisodeMarker, eIndex, 0);
    OccurrenceChar(slug, EpisodeMarker, eIndex, 1);
  }

  /** A slug without "-s", without "-e", or with an "-e" before every "-s" is rejected. */
  lemma ParseRejectsMisplacedMarkers(slug: string)
    requires || (forall i :: !OccursAt(slug, SeasonMarker, i))
             || (forall i :: !OccursAt(slug, EpisodeMarker, i))
             || (exists j :: OccursAt(slug, EpisodeMarker, j) && forall i :: OccursAt(slug, SeasonMarker, i) ==> j < i)
    ensures Parse(slug) == Failure(InvalidOperation(FormatMessage))
  {
  }

  /**
   * As written, the parser never succeeds: once the marker check passes, the text
   * after "-s" still holds the first "-e", and no text holding an 'e' parses as an Int32.
   */
  lemma ParseNeverSucceeds(slug: string)
    ensures Parse(slug) == Failure(InvalidOperation(FormatMessage))
  {
    var sIndex := IndexOf(slug, SeasonMarker);
    var eIndex := IndexOf(slug, EpisodeMarker);
    if sIndex != -1 && eIndex != -1 && sIndex <= eIndex {
      MarkersApart(slug, sIndex, eIndex);
      var rest := slug[sIndex + 2..];
      OccurrenceChar(slug, EpisodeMarker, eIndex, 1);
      assert rest[eIndex + 1 - (sIndex + 2)] == 'e';
      TryParseRejects(rest, eIndex + 1 - (sIndex + 2));
    }
  }

  /** Even a slug written exactly in the documented format is rejected by the parser as written. */
  lemma ParseRejectsFormattedSlug(k: SlugKey)
    ensures Parse(FormatSlug(k)).Failure?
    ensures IsInt32(k.seasonNumber) && IsInt32(k.episodeNumber) ==> Parse(FormatSlug(k)) != ParseIntended(FormatSlug(k))
  {
    ParseNeverSucceeds(FormatSlug(k));
    if IsInt32(k.seasonNumber) && IsInt32(k.episodeNumber) {
      ParseIntendedRoundTrip(k);
    }
  }

  /**
   * The parser the format calls for: the markers are the last "-s" and the last "-e",
   * and the season number is read from the text between them.
   */
  function ParseIntended(slug: string): (r: Result<SlugKey, Exception>)
    ensures r.Failure? ==> r.error == InvalidOperation(FormatMessage)
    ensures r.Success? ==> IsInt32(r.value.seasonNumber) && IsInt32(r.value.episodeNumber)
  {
    var sIndex := LastIndexOf(slug, SeasonMarker);
    var eIndex := LastIndexOf(slug, EpisodeMarker);
    if sIndex == -1 || eIndex == -1 || eIndex < sIndex then Failure(InvalidOperation(FormatMessage))
    else
      MarkersApart(slug, sIndex, eIndex);
      ReadKey(slug[..sIndex], slug[sIndex + 2..eIndex], slug[eIndex + 2..])
  }

  /** A slug with "-s" at `i` and "-e" at `j` is the text before, "-s", the text between, "-e" and the rest. */
  lemma SplitAtMarkers(slug: string, i: int, j: int)
    requires OccursAt(slug, SeasonMarker, i) && OccursAt(slug, EpisodeMarker, j) && i + 2 <= j
    ensures slug == slug[..i] + SeasonMarker + slug[i + 2..j] + EpisodeMarker + slug[j + 2..]
  {
    assert slug == slug[..i] + slug[i..i + 2] + slug[i + 2..j] + slug[j..j + 2] + slug[j + 2..];
  }

  /** What the corrected parser accepts is a show slug, "-s", a season text, "-e" and an episode text. */
  lemma ParseIntendedSplits(slug: string)
    requires ParseIntended(slug).Success?
    ensures var k := ParseIntended(slug).value;
      exists season: string, episode: string ::
        && slug == k.showSlug + SeasonMarker + season + EpisodeMarker + episode
        && TryParse(season) == Some(k.seasonNumber)
        && TryParse(episode) == Some(k.episodeNumber)
  {
    var k := ParseIntended(slug).value;
    var sIndex := LastIndexOf(slug, SeasonMarker);
    var eIndex := LastIndexOf(slug, EpisodeMarker);
    MarkersApart(slug, sIndex, eIndex);
    var season, episode := slug[sIndex + 2..eIndex], slug[eIndex + 2..];
    assert k.showSlug == slug[..sIndex] && TryParse(season) == Some(k.seasonNumber)
        && TryParse(episode) == Some(k.episodeNumber);
    SplitAtMarkers(slug, sIndex, eIndex);
  }

  /** `slug` is laid out as the format prescribes for `k`: show slug, "-s", season text, "-e", episode text. */
  predicate LaidOut(slug: string, k: SlugKey)
  {
    var sAt := |k.showSlug|;
    var eAt := sAt + 2 + |IntToText(k.seasonNumber)|;
    && eAt + 2 <= |slug|
    && slug[..sAt] == k.showSlug
    && slug[sAt..sAt + 2] == SeasonMarker
    && slug[sAt + 2..eAt] == IntToText(k.seasonNumber)
    && slug[eAt..eAt + 2] == EpisodeMarker
    && slug[eAt + 2..] == IntToText(k.episodeNumber)
  }

  lemma FormatSlugLayout(k: SlugKey)
    ensures LaidOut(FormatSlug(k), k)
  {
    var season, episode := IntToText(k.seasonNumber), IntToText(k.episodeNumber);
    assert FormatSlug(k) == k.showSlug + SeasonMarker + season + EpisodeMarker + episode;
  }

  /** After its "-s" such a slug holds no further 's', and after its "-e" no further 'e'. */
  lemma LaidOutTail(slug: string, k: SlugKey)
    requires LaidOut(slug, k)
    ensures var sAt := |k.showSlug|;
      var eAt := sAt + 2 + |IntToText(k.seasonNumber)|;
      && (forall i :: 0 <= i < |slug| && sAt + 1 < i ==> slug[i] != 's')
      && (forall i :: 0 <= i < |slug| && eAt + 1 < i ==> slug[i] != 'e')
  {
    var sAt := |k.showSlug|;
    var eAt := sAt + 2 + |IntToText(k.seasonNumber)|;
    forall i | 0 <= i < |slug| && sAt + 1 < i
      ensures slug[i] != 's'
    {
      if i < eAt {
        assert slug[i] == slug[sAt + 2..eAt][i - (sAt + 2)];
      } else if i > eAt + 1 {
        assert slug[i] == slug[eAt + 2..][i - (eAt + 2)];
      } else {
        OccurrenceChar(slug, EpisodeMarker, eAt, i - eAt);
      }
    }
    forall i | 0 <= i < |slug| && eAt + 1 < i
      ensures slug[i] != 'e'
    {
      assert slug[i] == slug[eAt + 2..][i - (eAt + 2)];
    }
  }

  /** In such a slug the last "-s" is the one after the show slug and the last "-e" the one after the season text. */
  lemma LaidOutMarkers(slug: string, k: SlugKey)
    requires LaidOut(slug, k)
    ensures LastIndexOf(slug, SeasonMarker) == |k.showSlug|
    ensures LastIndexOf(slug, EpisodeMarker) == |k.showSlug| + 2 + |IntToText(k.seasonNumber)|
  {
    var sAt := |k.showSlug|;
    var eAt := sAt + 2 + |IntToText(k.seasonNumber)|;
    LaidOutTail(slug, k);
    NoOccurrenceAfter(slug, SeasonMarker, sAt);
    NoOccurrenceAfter(slug, EpisodeMarker, eAt);
    LastIndexOfIs(slug, SeasonMarker, sAt);
    LastIndexOfIs(slug, EpisodeMarker, eAt);
  }

  /** The corrected parser reads a slug laid out for `k` back as `k`. */
  lemma LaidOutParses(slug: string, k: SlugKey)
    requires LaidOut(slug, k)
    requires IsInt32(k.seasonNumber) && IsInt32(k.episodeNumber)
    ensures ParseIntended(slug) == Success(k)
  {
    LaidOutMarkers(slug, k);
    ReadKeyOfTexts(k);
  }

  /** The numbers' own texts read back as the numbers. */
  lemma ReadKeyOfTexts(k: SlugKey)
    requires IsInt32(k.seasonNumber) && IsInt32(k.episodeNumber)
    ensures ReadKey(k.showSlug, IntToText(k.seasonNumber), IntToText(k.episodeNumber)) == Success(k)
  {
    TryParseIntToText(k.seasonNumber);
    TryParseIntToText(k.episodeNumber);
  }

  /** Formatting a key and parsing it back with the corrected parser gives the key again, whatever the show slug. */
  lemma ParseIntendedRoundTrip(k: SlugKey)
    requires IsInt32(k.seasonNumber) && IsInt32(k.episodeNumber)
    ensures ParseIntended(FormatSlug(k)) == Success(k)
  {
    FormatSlugLayout(k);
    LaidOutParses(FormatSlug(k), k);
  }

  /**
   * The first "-s" of a slug can lie inside the show slug: in "the-show-s1-e2" it is the
   * one of "-show", at index 3, while the season marker the format writes is the last "-s".
   */
  lemma FirstSeasonMarkerInShowSlug()
    ensures IndexOf("the-show-s1-e2", SeasonMarker) == 3
    ensures LastIndexOf("the-show-s1-e2", SeasonMarker) == 8
    ensures ParseIntended("the-show-s1-e2") == Success(SlugKey("the-show", 1, 2))
  {
    var slug := "the-show-s1-e2";
    var k := SlugKey("the-show", 1, 2);
    assert IntToText(1) == "1" && IntToText(2) == "2";
    assert FormatSlug(k) == slug;
    ParseIntendedRoundTrip(k);
    assert slug[0..2] != SeasonMarker && slug[1..3] != SeasonMarker && slug[2..4] != SeasonMarker by {
      assert slug[0] == 't' && slug[1] == 'h' && slug[3] == '-';
    }
    assert slug[3..5] == SeasonMarker;
    assert IndexFrom(slug, SeasonMarker, 3) == 3;
    assert OccursAt(slug, SeasonMarker, 8);
    NoOccurrenceAfter(slug, SeasonMarker, 8);
    LastIndexOfIs(slug, SeasonMarker, 8);
  }
}
