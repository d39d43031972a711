/** The entities and exceptions the episode repository works with (Kyoo.Models). */
module Models {
  import opened Wrappers

  /** The provider descriptor an external ID names; the resolver turns it into a provider ID. */
  datatype Provider = Provider(slug: string)

  /** An external identifier of an episode: the provider, its resolved ID and the provider-side ID. */
  datatype MetadataID = MetadataID(provider: Provider, providerID: int, dataID: string)

  /** A media stream of an episode; its own fields play no part in the repository. */
  datatype Track = Track(descriptor: string)

  /**
   * An episode as the repository sees it. `externalIDs` and `tracks` are nullable
   * collections; `seasonID` is a nullable foreign key. The slug is carried as given.
   */
  datatype Episode = Episode(
    id: int,
    slug: string,
    showID: int,
    seasonID: Option<int>,
    seasonNumber: int,
    episodeNumber: int,
    title: string,
    externalIDs: Option<seq<MetadataID>>,
    tracks: Option<seq<Track>>)

  /** A failed save; `isDuplicate` is what the duplicate-key test reports about it. */
  datatype DbUpdateError = DbUpdateError(isDuplicate: bool, message: string)

  /** The exceptions the repository throws or lets through. */
  datatype Exception =
    | ArgumentNull(paramName: string)        // ArgumentNullException
    | InvalidOperation(message: string)      // InvalidOperationException
    | DuplicatedItem(message: string)        // DuplicatedItemException
    | ItemNotFound(message: string)          // ItemNotFound
    | UnknownState(message: string)          // SystemException
    | DbUpdate(cause: DbUpdateError)         // DbUpdateException, rethrown unchanged
}
