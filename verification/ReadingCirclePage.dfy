/** The detail page of one reading-circle session. */
module ReadingCirclePage {
  import opened Wrappers
  import opened Content
  import opened Sections

  /** A session record; its `sections` array is always present. */
  datatype Session = Session(
    number: string,
    title: string,
    coverImage: string,
    date: string,
    sections: seq<Section>)

  function Number(s: Session): string {
    s.number
  }

  const FetchError: string := "Failed to fetch Reading Circle events"

  function NotFoundError(n: string): string {
    "Event #" + n + " not found"
  }

  /** The fetch-then-find of the page: the first session whose number is the route's, or an error. */
  function FetchSession(resp: Response<seq<Session>>, eventNumber: string): (r: Result<Session, string>)
    ensures !resp.ok ==> r == Failure(FetchError)
    ensures resp.ok ==> (r.Success? <==> exists i :: 0 <= i < |resp.data| && resp.data[i].number == eventNumber)
    ensures resp.ok && r.Success? ==>
      exists i :: 0 <= i < |resp.data| && resp.data[i] == r.value && r.value.number == eventNumber
        && forall j :: 0 <= j < i ==> resp.data[j].number != eventNumber
    ensures resp.ok && r.Failure? ==> r.error == NotFoundError(eventNumber)
  {
    if !resp.ok then Failure(FetchError)
    else match Find(resp.data, Number, eventNumber)
      case None => Failure(NotFoundError(eventNumber))
      case Some(s) => Success(s)
  }

  /** A fetch failure can always be told apart from a missing session. */
  lemma ErrorsDistinct(n: string)
    ensures FetchError != NotFoundError(n)
  {
    assert FetchError[0] != NotFoundError(n)[0];
  }

  /** What the page renders for a found session: newest section first, no gallery links. */
  function SessionView(backend: string, s: Session): (v: DetailView)
    ensures v.cover == MediaUrl(backend, s.coverImage)
    ensures |v.groups| == |s.sections|
    ensures forall i :: 0 <= i < |v.groups| ==>
      RendersSection(v.groups[i], backend, s.sections[|v.groups| - 1 - i], false)
    ensures v.placeholder <==> |s.sections| == 0
    ensures v.galleryLink.None?
  {
    ArticlesOfReversed(backend, s.sections);
    DetailView(MediaUrl(backend, s.coverImage), Articles(backend, Reversed(s.sections)), |s.sections| == 0, None)
  }
}
