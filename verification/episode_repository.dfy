/**
 * The episode repository (Kyoo.Controllers.EpisodeRepository) over an in-memory
 * model of its database: the Episodes table, the child tables of external IDs and
 * tracks, and the Shows table it joins with.
 */
module Controllers {
  import opened Wrappers
  import opened Models
  import opened Strings
  import EpisodeSlug

  /** A child row (an external ID or a track) together with the episode that owns it. */
  datatype Owned<T> = Owned(episodeID: int, row: T)

  /** `Take(20)` in Search. */
  const SearchLimit: nat := 20

  const UnknownStateMessage: string := "Unknown database state."

  function OrphanMessage(showID: int): (m: string)
  {
    "Can't store an episode not related to any show (showID: " + IntToText(showID) + ")."
  }

  function DuplicateMessage(slug: string): (m: string)
  {
    "Trying to insert a duplicated episode (slug " + slug + " already exists)."
  }

  function NotFoundMessage(slug: string): (m: string)
  {
    "No episode found with the slug " + slug + "."
  }

  /** The exception Create throws for a failed save: a duplicate-key failure is translated, anything else rethrown. */
  function CreateSaveFailure(e: DbUpdateError, slug: string): (x: Exception)
  {
    if e.isDuplicate then DuplicatedItem(DuplicateMessage(slug)) else DbUpdate(e)
  }

  /** `EF.Functions.Like(title, "%" + query + "%")`, read as substring containment. */
  predicate Like(title: string, query: string)
  {
    IndexOf(title, query) != -1
  }

  // ---------------------------------------------------------------------------
  // Queries over table contents

  /** `Where(p)`: the rows satisfying `p`, in table order. */
  function Filter<T(!new)>(xs: seq<T>, p: T -> bool): (r: seq<T>)
    ensures |r| <= |xs|
    ensures forall x :: x in r <==> x in xs && p(x)
  {
    if xs == [] then [] else (if p(xs[0]) then [xs[0]] else []) + Filter(xs[1..], p)
  }

  /** The index of the first row satisfying `p`, or -1. */
  function FirstIndex<T>(xs: seq<T>, p: T -> bool): (r: int)
    ensures -1 <= r < |xs|
    ensures r == -1 ==> forall i :: 0 <= i < |xs| ==> !p(xs[i])
    ensures r != -1 ==> p(xs[r]) && forall i :: 0 <= i < r ==> !p(xs[i])
  {
    if xs == [] then -1
    else if p(xs[0]) then 0
    else
      var k := FirstIndex(xs[1..], p);
      if k == -1 then -1 else k + 1
  }

  /** `FirstOrDefault(p)`: the first row satisfying `p`, or null. */
  function FirstWhere<T(!new)>(xs: seq<T>, p: T -> bool): (r: Option<T>)
    ensures r.None? <==> forall x :: x in xs ==> !p(x)
    ensures r.Some? ==> r.value in xs && p(r.value)
  {
    var k := FirstIndex(xs, p);
    if k == -1 then None else Some(xs[k])
  }

  /** The Episodes table is ordered by strictly increasing ID, so no two rows share an ID. */
  ghost predicate IdsAscending(xs: seq<Episode>)
  {
    forall i, j :: 0 <= i < j < |xs| ==> xs[i].id < xs[j].id
  }

  lemma {:induction false} FilterKeepsIdsAscending(xs: seq<Episode>, p: Episode -> bool)
    requires IdsAscending(xs)
    ensures IdsAscending(Filter(xs, p))
    decreases |xs|
  {
    if xs != [] {
      FilterKeepsIdsAscending(xs[1..], p);
      var tail := Filter(xs[1..], p);
      forall j | 0 <= j < |tail|
        ensures xs[0].id < tail[j].id
      {
        assert tail[j] in xs[1..];
      }
    }
  }

  /** Removing the rows with a given ID from a table with distinct IDs that holds one removes exactly one row. */
  lemma {:induction false} FilterRemovesOne(xs: seq<Episode>, id: int)
    requires IdsAscending(xs)
    requires exists e :: e in xs && e.id == id
    ensures |Filter(xs, (e: Episode) => e.id != id)| == |xs| - 1
    decreases |xs|
  {
    var p := (e: Episode) => e.id != id;
    if xs[0].id == id {
      assert forall e :: e in xs[1..] ==> p(e);
      FilterKeepsAll(xs[1..], p);
    } else {
      var e :| e in xs && e.id == id;
      assert e in xs[1..];
      FilterRemovesOne(xs[1..], id);
    }
  }

  lemma {:induction false} FilterKeepsAll<T(!new)>(xs: seq<T>, p: T -> bool)
    requires forall x :: x in xs ==> p(x)
    ensures Filter(xs, p) == xs
    decreases |xs|
  {
    if xs != [] {
      assert xs[0] in xs;
      assert forall x :: x in xs[1..] ==> x in xs;
      FilterKeepsAll(xs[1..], p);
      assert [xs[0]] + xs[1..] == xs;
    }
  }

  /** In a table ordered by increasing ID, a row is the only one with its ID. */
  lemma SameIdSameRow(xs: seq<Episode>, x: Episode, y: Episode)
    requires IdsAscending(xs) && x in xs && y in xs && x.id == y.id
    ensures x == y
  {
    var i :| 0 <= i < |xs| && xs[i] == x;
    var j :| 0 <= j < |xs| && xs[j] == y;
    assert !(i < j) && !(j < i);
  }

  // ---------------------------------------------------------------------------
  // Validation and storage of one episode

  /** `Task.WhenAll(ExternalIDs.Select(...))`: each external ID with its provider resolved, in order. */
  function Resolved(ids: seq<MetadataID>, resolve: Provider -> int): (r: seq<MetadataID>)
    ensures |r| == |ids|
    ensures forall i :: 0 <= i < |ids| ==> r[i] == ids[i].(providerID := resolve(ids[i].provider))
  {
    if ids == [] then []
    else [ids[0].(providerID := resolve(ids[0].provider))] + Resolved(ids[1..], resolve)
  }

  /** The episode Validate leaves behind when ShowID is positive. */
  function Validated(obj: Episode, resolve: Provider -> int): (r: Episode)
    ensures r.(externalIDs := obj.externalIDs) == obj
    ensures obj.externalIDs.None? ==> r == obj
    ensures obj.externalIDs.Some? ==>
      && r.externalIDs.Some? && |r.externalIDs.value| == |obj.externalIDs.value|
      && forall i :: 0 <= i < |obj.externalIDs.value| ==>
           r.externalIDs.value[i] == obj.externalIDs.value[i].(providerID := resolve(obj.externalIDs.value[i].provider))
  {
    match obj.externalIDs
    case None => obj
    case Some(ids) => obj.(externalIDs := Some(Resolved(ids, resolve)))
  }

  /** A nullable collection's entries; a null collection has none. */
  function Entries<T>(c: Option<seq<T>>): (xs: seq<T>)
  {
    match c
    case None => []
    case Some(xs) => xs
  }

  /** Child rows of the episode with ID `id`, one per entry, in order. */
  function Attach<T>(id: int, xs: seq<T>): (rows: seq<Owned<T>>)
  {
    seq(|xs|, i requires 0 <= i < |xs| => Owned(id, xs[i]))
  }

  /** The Episodes row of an episode: its own columns, without the child collections. */
  function RowOf(e: Episode, id: int): (row: Episode)
  {
    e.(id := id, externalIDs := None, tracks := None)
  }

  /** The episode Edit stores: the found one, optionally reset, with the edited values merged in. */
  function EditedEpisode(found: Episode, edited: Episode, resetOld: bool,
                         nullify: Episode -> Episode, merge: (Episode, Episode) -> Episode): (e: Episode)
  {
    merge(if resetOld then nullify(found) else found, edited)
  }

  /** The table with the row of `row.id` replaced by `row`. */
  function Replaced(xs: seq<Episode>, row: Episode): (r: seq<Episode>)
  {
    seq(|xs|, i requires 0 <= i < |xs| => if xs[i].id == row.id then row else xs[i])
  }

  /** Replacing a row keeps every position's ID. */
  lemma ReplacedKeepsIds(xs: seq<Episode>, row: Episode)
    ensures |Replaced(xs, row)| == |xs|
    ensures forall i :: 0 <= i < |xs| ==> Replaced(xs, row)[i].id == xs[i].id
    ensures IdsAscending(xs) ==> IdsAscending(Replaced(xs, row))
    ensures forall e :: e in Replaced(xs, row) ==> e == row || e in xs
    ensures forall e :: e in Replaced(xs, row) && e.id == row.id ==> e == row
    ensures forall e :: e in xs && e.id == row.id ==> row in Replaced(xs, row)
    ensures (set e | e in Replaced(xs, row) :: e.id) == (set e | e in xs :: e.id)
  {
    var r := Replaced(xs, row);
    forall e | e in xs && e.id == row.id
      ensures row in r
    {
      var i :| 0 <= i < |xs| && xs[i] == e;
      assert r[i] == row;
    }
    forall e | e in xs
      ensures e.id in (set f | f in r :: f.id)
    {
      var i :| 0 <= i < |xs| && xs[i] == e;
      assert r[i] in r;
    }
  }

  /** Filtering out one ID removes exactly that ID from the table's IDs. */
  lemma FilterDropsId(xs: seq<Episode>, id: int)
    ensures (set e | e in Filter(xs, (e: Episode) => e.id != id) :: e.id) == (set e | e in xs :: e.id) - {id}
  {
    var r := Filter(xs, (e: Episode) => e.id != id);
    forall e | e in xs && e.id != id
      ensures e.id in (set f | f in r :: f.id)
    {
      assert e in r;
    }
  }

  /** In a table whose rows before the last all have smaller IDs, the last row is the first with its ID. */
  lemma FirstIndexOfLast(xs: seq<Episode>, id: int)
    requires xs != [] && xs[|xs| - 1].id == id
    requires forall i :: 0 <= i < |xs| - 1 ==> xs[i].id < id
    ensures FirstWhere(xs, (e: Episode) => e.id == id) == Some(xs[|xs| - 1])
  {
  }

  class EpisodeRepository {
    /** The Shows table, reduced to each show's slug; the repository only reads it. */
    const shows: map<int, string>
    /** The Episodes table, in scan order. */
    var episodes: seq<Episode>
    /** The external-ID table. */
    var externalIDRows: seq<Owned<MetadataID>>
    /** The track table. */
    var trackRows: seq<Owned<Track>>
    /** The next value of the Episodes identity column. */
    var nextID: int

    ghost function Ids(): set<int>
      reads this
    {
      set e | e in episodes :: e.id
    }

    /** IDs are positive, below the identity counter and increasing; every child row has its owner. */
    ghost predicate Valid()
      reads this
    {
      && 1 <= nextID
      && (forall e :: e in episodes ==> 1 <= e.id < nextID)
      && IdsAscending(episodes)
      && (forall x :: x in externalIDRows ==> x.episodeID in Ids())
      && (forall x :: x in trackRows ==> x.episodeID in Ids())
    }

    constructor (shows: map<int, string>)
      ensures Valid()
      ensures this.shows == shows && episodes == [] && externalIDRows == [] && trackRows == []
    {
      this.shows := shows;
      episodes, externalIDRows, trackRows := [], [], [];
      nextID := 1;
    }

    /** `x.Show.Slug == showSlug`: the episode's show exists and has that slug. */
    predicate InShow(e: Episode, showSlug: string)
    {
      e.showID in shows && shows[e.showID] == showSlug
    }

    predicate HasKey(e: Episode, showSlug: string, seasonNumber: int, episodeNumber: int)
    {
      InShow(e, showSlug) && e.seasonNumber == seasonNumber && e.episodeNumber == episodeNumber
    }

    /** The parser reads `o`'s slug as the show, season and episode `o` itself belongs to. */
    predicate SlugNamesKey(o: Episode, parseSlug: string -> Result<EpisodeSlug.SlugKey, Exception>)
    {
      match parseSlug(o.slug)
      case Success(k) => HasKey(o, k.showSlug, k.seasonNumber, k.episodeNumber)
      case Failure(_) => false
    }

    /** A slug written in the format for the episode's own show, season and episode names it for the corrected parser. */
    lemma FormattedSlugNamesKey(o: Episode)
      requires o.showID in shows && IsInt32(o.seasonNumber) && IsInt32(o.episodeNumber)
      requires o.slug == EpisodeSlug.FormatSlug(EpisodeSlug.SlugKey(shows[o.showID], o.seasonNumber, o.episodeNumber))
      ensures SlugNamesKey(o, EpisodeSlug.ParseIntended)
    {
      EpisodeSlug.ParseIntendedRoundTrip(EpisodeSlug.SlugKey(shows[o.showID], o.seasonNumber, o.episodeNumber));
    }

    /** With the corrected parser, a slug in the format looks up exactly the key it was made from. */
    lemma FormattedSlugLookup(k: EpisodeSlug.SlugKey)
      requires IsInt32(k.seasonNumber) && IsInt32(k.episodeNumber)
      ensures GetBySlug(EpisodeSlug.FormatSlug(k), EpisodeSlug.ParseIntended)
           == Success(GetByKey(k.showSlug, k.seasonNumber, k.episodeNumber))
    {
      EpisodeSlug.ParseIntendedRoundTrip(k);
    }

    /** Get(int id): the episode with that ID, or null. */
    function Get(id: int): (r: Option<Episode>)
      reads this
      ensures r.Some? ==> r.value in episodes && r.value.id == id
      ensures r.None? <==> forall e :: e in episodes ==> e.id != id
    {
      FirstWhere(episodes, (e: Episode) => e.id == id)
    }

    /** Get(showSlug, seasonNumber, episodeNumber): the first episode of that show, season and number, or null. */
    function GetByKey(showSlug: string, seasonNumber: int, episodeNumber: int): (r: Option<Episode>)
      reads this
      ensures r.Some? ==> r.value in episodes && HasKey(r.value, showSlug, seasonNumber, episodeNumber)
      ensures r.None? <==> forall e :: e in episodes ==> !HasKey(e, showSlug, seasonNumber, episodeNumber)
    {
      FirstWhere(episodes, (e: Episode) => HasKey(e, showSlug, seasonNumber, episodeNumber))
    }

    /**
     * Get(string slug): parse the slug, then look the three values up. The parser is a
     * parameter; `EpisodeSlug.Parse` is the one the repository has, and with it every
     * lookup throws.
     */
    function GetBySlug(slug: string, parseSlug: string -> Result<EpisodeSlug.SlugKey, Exception>)
      : (r: Result<Option<Episode>, Exception>)
      reads this
      ensures r.Failure? <==> parseSlug(slug).Failure?
      ensures r.Failure? ==> r.error == parseSlug(slug).error
      ensures r.Success? && r.value.Some? ==>
        var k := parseSlug(slug).value;
        r.value.value in episodes && HasKey(r.value.value, k.showSlug, k.seasonNumber, k.episodeNumber)
      ensures r.Success? && r.value.None? <==>
        && parseSlug(slug).Success?
        && var k := parseSlug(slug).value;
           forall e :: e in episodes ==> !HasKey(e, k.showSlug, k.seasonNumber, k.episodeNumber)
      ensures parseSlug == EpisodeSlug.Parse ==> r == Failure(InvalidOperation(EpisodeSlug.FormatMessage))
    {
      EpisodeSlug.ParseNeverSucceeds(slug);
      match parseSlug(slug)
      case Failure(e) => Failure(e)
      case Success(k) => Success(GetByKey(k.showSlug, k.seasonNumber, k.episodeNumber))
    }

    /** Search(query): at most 20 episodes whose title contains the query; all of them when there are fewer. */
    function Search(query: string): (r: seq<Episode>)
      reads this
      ensures |r| <= SearchLimit
      ensures forall e :: e in r ==> e in episodes && Like(e.title, query)
      ensures |r| < SearchLimit ==> forall e :: e in episodes && Like(e.title, query) ==> e in r
      ensures IdsAscending(episodes) ==> IdsAscending(r)
    {
      var found := Filter(episodes, (e: Episode) => Like(e.title, query));
      assert forall e :: e in found <==> e in episodes && Like(e.title, query);
      assert IdsAscending(episodes) ==> IdsAscending(found) by {
        if IdsAscending(episodes) { FilterKeepsIdsAscending(episodes, (e: Episode) => Like(e.title, query)); }
      }
      if |found| <= SearchLimit then found else found[..SearchLimit]
    }

    /** GetAll(): every episode, once each. */
    function GetAll(): (r: seq<Episode>)
      reads this
      ensures |r| == |episodes|
      ensures forall e :: e in r <==> e in episodes
    {
      episodes
    }

    /** GetEpisodes(showID, seasonNumber). */
    function GetEpisodesOfShow(showID: int, seasonNumber: int): (r: seq<Episode>)
      reads this
      ensures forall e :: e in r <==> e in episodes && e.showID == showID && e.seasonNumber == seasonNumber
      ensures IdsAscending(episodes) ==> IdsAscending(r)
    {
      assert IdsAscending(episodes) ==> IdsAscending(Filter(episodes, (e: Episode) => e.showID == showID && e.seasonNumber == seasonNumber)) by {
        if IdsAscending(episodes) { FilterKeepsIdsAscending(episodes, (e: Episode) => e.showID == showID && e.seasonNumber == seasonNumber); }
      }
      Filter(episodes, (e: Episode) => e.showID == showID && e.seasonNumber == seasonNumber)
    }

    /** GetEpisodes(showSlug, seasonNumber). */
    function GetEpisodesOfShowSlug(showSlug: string, seasonNumber: int): (r: seq<Episode>)
      reads this
      ensures forall e :: e in r <==> e in episodes && InShow(e, showSlug) && e.seasonNumber == seasonNumber
      ensures IdsAscending(episodes) ==> IdsAscending(r)
    {
      assert IdsAscending(episodes) ==> IdsAscending(Filter(episodes, (e: Episode) => InShow(e, showSlug) && e.seasonNumber == seasonNumber)) by {
        if IdsAscending(episodes) { FilterKeepsIdsAscending(episodes, (e: Episode) => InShow(e, showSlug) && e.seasonNumber == seasonNumber); }
      }
      Filter(episodes, (e: Episode) => InShow(e, showSlug) && e.seasonNumber == seasonNumber)
    }

    /** GetEpisodes(seasonID): a null SeasonID matches no season. */
    function GetEpisodesOfSeason(seasonID: int): (r: seq<Episode>)
      reads this
      ensures forall e :: e in r <==> e in episodes && e.seasonID == Some(seasonID)
      ensures IdsAscending(episodes) ==> IdsAscending(r)
    {
      assert IdsAscending(episodes) ==> IdsAscending(Filter(episodes, (e: Episode) => e.seasonID == Some(seasonID))) by {
        if IdsAscending(episodes) { FilterKeepsIdsAscending(episodes, (e: Episode) => e.seasonID == Some(seasonID)); }
      }
      Filter(episodes, (e: Episode) => e.seasonID == Some(seasonID))
    }

    /**
     * Validate(obj): an episode with no positive ShowID is refused; otherwise each
     * external ID gets the provider ID the resolver returns for its provider, in order,
     * and a null list stays null.
     */
    method Validate(obj: Episode, resolve: Provider -> int) returns (r: Result<Episode, Exception>)
      ensures obj.showID <= 0 ==> r == Failure(InvalidOperation(OrphanMessage(obj.showID)))
      ensures obj.showID > 0 ==> r == Success(Validated(obj, resolve))
    {
      if obj.showID <= 0 {
        return Failure(InvalidOperation(OrphanMessage(obj.showID)));
      }
      if obj.externalIDs.None? {
        return Success(obj);
      }
      var ids := obj.externalIDs.value;
      var resolved: seq<MetadataID> := [];
      for i := 0 to |ids|
        invariant |resolved| == i
        invariant forall k :: 0 <= k < i ==> resolved[k] == ids[k].(providerID := resolve(ids[k].provider))
      {
        var x := ids[i];
        resolved := resolved + [x.(providerID := resolve(x.provider))];
      }
      assert resolved == Resolved(ids, resolve);
      return Success(obj.(externalIDs := Some(resolved)));
    }

    /** The tables after the episode `v` was inserted with ID `id` on top of the given ones. */
    ghost predicate Inserted(e0: seq<Episode>, x0: seq<Owned<MetadataID>>, t0: seq<Owned<Track>>, id: int, v: Episode)
      reads this
    {
      && episodes == e0 + [RowOf(v, id)]
      && externalIDRows == x0 + Attach(id, Entries(v.externalIDs))
      && trackRows == t0 + Attach(id, Entries(v.tracks))
      && nextID == id + 1
    }

    lemma InsertKeepsValid(e0: seq<Episode>, x0: seq<Owned<MetadataID>>, t0: seq<Owned<Track>>, n0: int, v: Episode)
      requires 1 <= n0
      requires forall e :: e in e0 ==> 1 <= e.id < n0
      requires IdsAscending(e0)
      requires forall x :: x in x0 ==> x.episodeID in (set e | e in e0 :: e.id)
      requires forall x :: x in t0 ==> x.episodeID in (set e | e in e0 :: e.id)
      requires Inserted(e0, x0, t0, n0, v)
      ensures Valid()
    {
      assert RowOf(v, n0) in episodes;
      assert forall e :: e in e0 ==> e in episodes;
    }

    /**
     * Create(obj): refuse null, validate, stage the episode and each of its external IDs
     * and tracks, then save; the new episode's ID is returned.
     */
    method Create(obj: Option<Episode>, resolve: Provider -> int, save: Option<DbUpdateError>)
      returns (r: Result<int, Exception>)
      requires Valid()
      modifies this
      ensures Valid()
      ensures r.Failure? ==> unchanged(this)
      ensures obj.None? ==> r == Failure(ArgumentNull("obj"))
      ensures obj.Some? && obj.value.showID <= 0 ==>
        r == Failure(InvalidOperation(OrphanMessage(obj.value.showID)))
      ensures obj.Some? && obj.value.showID > 0 && save.Some? ==>
        r == Failure(CreateSaveFailure(save.value, obj.value.slug))
      ensures obj.Some? && obj.value.showID > 0 && save.None? ==>
        && r == Success(old(nextID))
        && Inserted(old(episodes), old(externalIDRows), old(trackRows), old(nextID), Validated(obj.value, resolve))
      ensures r.Success? ==> r.value >= 1 && Get(r.value) == Some(RowOf(Validated(obj.value, resolve), r.value))
    {
      if obj.None? {
        return Failure(ArgumentNull("obj"));
      }
      var validated := Validate(obj.value, resolve);
      if validated.Failure? {
        return Failure(validated.error);
      }
      var episode := validated.value;
      var id := nextID;
      var stagedIDs: seq<Owned<MetadataID>> := [];
      if episode.externalIDs.Some? {
        var entries := episode.externalIDs.value;
        for i := 0 to |entries|
          invariant stagedIDs == Attach(id, entries[..i])
        {
          stagedIDs := stagedIDs + [Owned(id, entries[i])];
        }
        assert entries[..|entries|] == entries;
      }
      var stagedTracks: seq<Owned<Track>> := [];
      if episode.tracks.Some? {
        var entries := episode.tracks.value;
        for i := 0 to |entries|
          invariant stagedTracks == Attach(id, entries[..i])
        {
          stagedTracks := stagedTracks + [Owned(id, entries[i])];
        }
        assert entries[..|entries|] == entries;
      }
      if save.Some? {
        return Failure(CreateSaveFailure(save.value, episode.slug));
      }
      ghost var e0, x0, t0 := episodes, externalIDRows, trackRows;
      episodes := episodes + [RowOf(episode, id)];
      externalIDRows := externalIDRows + stagedIDs;
      trackRows := trackRows + stagedTracks;
      nextID := nextID + 1;
      InsertKeepsValid(e0, x0, t0, id, episode);
      FirstIndexOfLast(episodes, id);
      r := Success(id);
    }

    /**
     * CreateIfNotExists(obj): refuse null; return the ID of the episode the slug finds;
     * otherwise create it, and when that reports a duplicate, look the slug up again.
     * With the repository's own parser the first lookup always throws.
     */
    method CreateIfNotExists(obj: Option<Episode>, parseSlug: string -> Result<EpisodeSlug.SlugKey, Exception>,
                             resolve: Provider -> int, save: Option<DbUpdateError>)
      returns (r: Result<int, Exception>)
      requires Valid()
      modifies this
      ensures Valid()
      ensures r.Failure? ==> unchanged(this)
      ensures obj.None? ==> r == Failure(ArgumentNull("obj"))
      ensures obj.Some? && parseSlug == EpisodeSlug.Parse ==> r == Failure(InvalidOperation(EpisodeSlug.FormatMessage))
      ensures obj.Some? ==>
        var o := obj.value;
        var found := old(GetBySlug(o.slug, parseSlug));
        && (found.Failure? ==> r == Failure(found.error))
        && (found.Success? && found.value.Some? ==> r == Success(found.value.value.id) && unchanged(this))
        && (found == Success(None) && o.showID <= 0 ==> r == Failure(InvalidOperation(OrphanMessage(o.showID))))
        && (found == Success(None) && o.showID > 0 && save.Some? ==>
              r == Failure(if save.value.isDuplicate then UnknownState(UnknownStateMessage) else DbUpdate(save.value)))
        && (found == Success(None) && o.showID > 0 && save.None? ==>
              && r == Success(old(nextID))
              && Inserted(old(episodes), old(externalIDRows), old(trackRows), old(nextID), Validated(o, resolve)))
      ensures obj.Some? && r.Success? && SlugNamesKey(obj.value, parseSlug) ==>
        Get(r.value).Some? && GetBySlug(obj.value.slug, parseSlug) == Success(Get(r.value))
    {
      if obj.None? {
        return Failure(ArgumentNull("obj"));
      }
      var found := GetBySlug(obj.value.slug, parseSlug);
      match found {
        case Failure(e) => return Failure(e);
        case Success(Some(e)) =>
          SameIdSameRow(episodes, e, Get(e.id).value);
          return Success(e.id);
        case Success(None) =>
      }
      ghost var e0 := episodes;
      var created := Create(obj, resolve, save);
      if created.Success? && SlugNamesKey(obj.value, parseSlug) {
        AppendedIsFound(e0, RowOf(Validated(obj.value, resolve), created.value), obj.value.slug, parseSlug);
      }
      match created {
        case Failure(DuplicatedItem(_)) =>
          var again := GetBySlug(obj.value.slug, parseSlug);
          match again {
            case Failure(e) => r := Failure(e);
            case Success(None) => r := Failure(UnknownState(UnknownStateMessage));
            case Success(Some(e)) => r := Success(e.id);
          }
        case _ => r := created;
      }
    }

    /**
     * Edit(edited, resetOld): refuse null; find the stored episode by the edited slug;
     * reset it when asked, merge the edited values in, validate and save. With the
     * repository's own parser the lookup always throws.
     */
    method Edit(edited: Option<Episode>, resetOld: bool, parseSlug: string -> Result<EpisodeSlug.SlugKey, Exception>,
                nullify: Episode -> Episode, merge: (Episode, Episode) -> Episode,
                resolve: Provider -> int, save: Option<DbUpdateError>)
      returns (r: Outcome<Exception>)
      requires Valid()
      modifies this
      ensures Valid()
      ensures r.Fail? ==> unchanged(this)
      ensures edited.None? ==> r == Fail(ArgumentNull("edited"))
      ensures edited.Some? && parseSlug == EpisodeSlug.Parse ==> r == Fail(InvalidOperation(EpisodeSlug.FormatMessage))
      ensures edited.Some? ==>
        var found := old(GetBySlug(edited.value.slug, parseSlug));
        && (found.Failure? ==> r == Fail(found.error))
        && (found == Success(None) ==> r == Fail(ItemNotFound(NotFoundMessage(edited.value.slug))))
        && (found.Success? && found.value.Some? ==>
              var stored := found.value.value;
              var merged := EditedEpisode(stored, edited.value, resetOld, nullify, merge);
              && (merged.showID <= 0 ==> r == Fail(InvalidOperation(OrphanMessage(merged.showID))))
              && (merged.showID > 0 && save.Some? ==> r == Fail(DbUpdate(save.value)))
              && (merged.showID > 0 && save.None? ==>
                    && r == Pass
                    && episodes == Replaced(old(episodes), RowOf(Validated(merged, resolve), stored.id))
                    && externalIDRows == old(externalIDRows) && trackRows == old(trackRows)
                    && nextID == old(nextID)
                    && Get(stored.id) == Some(RowOf(Validated(merged, resolve), stored.id))
                    && Ids() == old(Ids())))
    {
      if edited.None? {
        return Fail(ArgumentNull("edited"));
      }
      var found := GetBySlug(edited.value.slug, parseSlug);
      match found {
        case Failure(e) => return Fail(e);
        case Success(None) => return Fail(ItemNotFound(NotFoundMessage(edited.value.slug)));
        case Success(Some(stored)) =>
          var merged := EditedEpisode(stored, edited.value, resetOld, nullify, merge);
          var validated := Validate(merged, resolve);
          if validated.Failure? {
            return Fail(validated.error);
          }
          if save.Some? {
            return Fail(DbUpdate(save.value));
          }
          ghost var e0 := episodes;
          episodes := Replaced(episodes, RowOf(validated.value, stored.id));
          ReplaceKeepsValid(e0, stored, RowOf(validated.value, stored.id));
          r := Pass;
      }
    }

    /**
     * Delete(obj): remove the episode with obj's ID and, by cascade, its child rows, then
     * save. A missing row makes the save fail with `concurrencyError`, which stands for the
     * `DbUpdateConcurrencyException` the ORM raises when a DELETE affects no row; any save
     * failure is rethrown unchanged.
     */
    method Delete(obj: Episode, save: Option<DbUpdateError>, concurrencyError: DbUpdateError) returns (r: Outcome<Exception>)
      requires Valid()
      modifies this
      ensures Valid()
      ensures r.Fail? ==> unchanged(this)
      ensures obj.id !in old(Ids()) ==> r == Fail(DbUpdate(concurrencyError))
      ensures obj.id in old(Ids()) && save.Some? ==> r == Fail(DbUpdate(save.value))
      ensures obj.id in old(Ids()) && save.None? ==>
        && r == Pass
        && episodes == Filter(old(episodes), (e: Episode) => e.id != obj.id)
        && externalIDRows == Filter(old(externalIDRows), (x: Owned<MetadataID>) => x.episodeID != obj.id)
        && trackRows == Filter(old(trackRows), (x: Owned<Track>) => x.episodeID != obj.id)
        && nextID == old(nextID)
      ensures r.Pass? ==> Get(obj.id) == None && |episodes| == |old(episodes)| - 1 && Ids() == old(Ids()) - {obj.id}
    {
      if Get(obj.id).None? {
        return Fail(DbUpdate(concurrencyError));
      }
      if save.Some? {
        return Fail(DbUpdate(save.value));
      }
      ghost var e0, x0, t0 := episodes, externalIDRows, trackRows;
      FilterRemovesOne(episodes, obj.id);
      episodes := Filter(episodes, (e: Episode) => e.id != obj.id);
      externalIDRows := Filter(externalIDRows, (x: Owned<MetadataID>) => x.episodeID != obj.id);
      trackRows := Filter(trackRows, (x: Owned<Track>) => x.episodeID != obj.id);
      RemoveKeepsValid(e0, x0, t0, obj.id);
      r := Pass;
    }

    /** A row appended to a table where no row had its key is the one a lookup of that key finds. */
    lemma AppendedIsFound(e0: seq<Episode>, row: Episode, slug: string,
                          parseSlug: string -> Result<EpisodeSlug.SlugKey, Exception>)
      requires episodes == e0 + [row]
      requires parseSlug(slug).Success?
      requires var k := parseSlug(slug).value;
        && HasKey(row, k.showSlug, k.seasonNumber, k.episodeNumber)
        && forall e :: e in e0 ==> !HasKey(e, k.showSlug, k.seasonNumber, k.episodeNumber)
      ensures GetBySlug(slug, parseSlug) == Success(Some(row))
    {
    }

    /** Replacing the row of a stored episode, child tables untouched, keeps the tables consistent. */
    lemma ReplaceKeepsValid(e0: seq<Episode>, stored: Episode, row: Episode)
      requires 1 <= nextID
      requires forall e :: e in e0 ==> 1 <= e.id < nextID
      requires IdsAscending(e0)
      requires forall x :: x in externalIDRows ==> x.episodeID in (set e | e in e0 :: e.id)
      requires forall x :: x in trackRows ==> x.episodeID in (set e | e in e0 :: e.id)
      requires stored in e0 && stored.id == row.id
      requires episodes == Replaced(e0, row)
      ensures Valid()
      ensures Get(row.id) == Some(row)
      ensures Ids() == (set e | e in e0 :: e.id)
    {
      ReplacedKeepsIds(e0, row);
    }

    /** Removing the rows of one episode and, by cascade, its child rows keeps the tables consistent. */
    lemma RemoveKeepsValid(e0: seq<Episode>, x0: seq<Owned<MetadataID>>, t0: seq<Owned<Track>>, id: int)
      requires 1 <= nextID
      requires forall e :: e in e0 ==> 1 <= e.id < nextID
      requires IdsAscending(e0)
      requires forall x :: x in x0 ==> x.episodeID in (set e | e in e0 :: e.id)
      requires forall x :: x in t0 ==> x.episodeID in (set e | e in e0 :: e.id)
      requires episodes == Filter(e0, (e: Episode) => e.id != id)
      requires externalIDRows == Filter(x0, (x: Owned<MetadataID>) => x.episodeID != id)
      requires trackRows == Filter(t0, (x: Owned<Track>) => x.episodeID != id)
      ensures Valid()
      ensures Ids() == (set e | e in e0 :: e.id) - {id}
    {
      FilterKeepsIdsAscending(e0, (e: Episode) => e.id != id);
      FilterDropsId(e0, id);
    }
  }
}
