/** The detail page of one PAC event. */
module EventsPage {
  import opened Wrappers
  import opened Content
  import opened Sections

  /**
   * An event record. Older records carry no `sections` array but a top-level `heading`,
   * `body` and gallery id; `galleryAlbumId` is the event-level `image_gallery_album_id`.
   */
  datatype Event = Event(
    number: string,
    title: string,
    date: string,
    coverImage: string,
    sections: Option<seq<Section>>,
    heading: Option<string>,
    body: Option<string>,
    galleryAlbumId: Option<string>)

  function Number(e: Event): string {
    e.number
  }

  const FetchError: string := "Failed to fetch PAC Events"

  function NotFoundError(n: string): string {
    "Event #" + n + " not found"
  }

  /** The fetch-then-find of the page: the first event whose number is the route's, or an error. */
  function FetchEvent(resp: Response<seq<Event>>, eventNumber: string): (r: Result<Event, string>)
    ensures !resp.ok ==> r == Failure(FetchError)
    ensures resp.ok ==> (r.Success? <==> exists i :: 0 <= i < |resp.data| && resp.data[i].number == eventNumber)
    ensures resp.ok && r.Success? ==>
      exists i :: 0 <= i < |resp.data| && resp.data[i] == r.value && r.value.number == eventNumber
        && forall j :: 0 <= j < i ==> resp.data[j].number != eventNumber
    ensures resp.ok && r.Failure? ==> r.error == NotFoundError(eventNumber)
  {
    if !resp.ok then Failure(FetchError)
    else match Find(resp.data, Number, eventNumber)
      case None => Failure(NotFoundError(eventNumber))
      case Some(e) => Success(e)
  }

  /** A fetch failure can always be told apart from a missing event. */
  lemma ErrorsDistinct(n: string)
    ensures FetchError != NotFoundError(n)
  {
    assert FetchError[0] != NotFoundError(n)[0];
  }

  /** An older record's top-level heading and body, shown as a section of their own. */
  function LegacySection(e: Event): Section {
    Section(e.heading, e.body, None, None)
  }

  /**
   * The section groups of a found event: its sections newest first, each with its
   * gallery link, or the legacy heading and body as one group.
   */
  function EventGroups(backend: string, e: Event): (g: seq<seq<Block>>)
    ensures e.sections.Some? ==>
      |g| == |e.sections.value|
      && forall i :: 0 <= i < |g| ==>
           RendersSection(g[i], backend, e.sections.value[|g| - 1 - i], true)
    ensures e.sections.None? ==>
      |g| == 1 && RendersSection(g[0], backend, Section(e.heading, e.body, None, None), false)
  {
    match e.sections
    case Some(secs) => EventSections(backend, Reversed(secs))
    case None => [ArticleBlocks(backend, LegacySection(e))]
  }

  /** What the page renders for a found event. */
  function EventView(backend: string, e: Event): (v: DetailView)
    ensures v.cover == MediaUrl(backend, e.coverImage)
    ensures !v.placeholder
    ensures v.groups == EventGroups(backend, e)
    ensures v.galleryLink.Some? <==> Truthy(e.galleryAlbumId)
    ensures v.galleryLink.Some? ==> v.galleryLink.value == GalleryPath(e.galleryAlbumId.value)
  {
    var gallery := if Truthy(e.galleryAlbumId) then Some(GalleryPath(e.galleryAlbumId.value)) else None;
    DetailView(MediaUrl(backend, e.coverImage), EventGroups(backend, e), false, gallery)
  }

  /** An empty `sections` array renders nothing, and no placeholder either. */
  lemma EmptySectionsRenderNothing(backend: string, e: Event)
    requires e.sections == Some([])
    ensures EventView(backend, e).groups == [] && !EventView(backend, e).placeholder
  {
  }
}
