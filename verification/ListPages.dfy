/** The four list pages: events, reading circle, PAC Times issues and photo albums. */
module ListPages {
  import opened Wrappers
  import opened Text
  import opened Content
  import opened DateOrder

  datatype ListKind = EventsList | ReadingCircleList | TimesList | GalleryList

  /** The message each list page shows when its fetch answers with a non-OK status. */
  function FetchError(kind: ListKind): string {
    match kind
    case EventsList => "Failed to fetch events"
    case ReadingCircleList => "Failed to fetch reading circle events"
    case TimesList => "Failed to fetch issues"
    case GalleryList => "Failed to fetch albums"
  }

  /**
   * Loading a list: an error on a non-OK answer, otherwise the collection sorted newest
   * first with undated items at the epoch and ties kept in backend order.
   */
  function LoadList(kind: ListKind, resp: Response<seq<Summary>>, parse: string -> Option<int>)
    : (r: Result<seq<Summary>, string>)
    ensures !resp.ok ==> r == Failure(FetchError(kind))
    ensures resp.ok ==> r.Success? && IsDateOrdered(r.value, resp.data, parse)
  {
    if !resp.ok then Failure(FetchError(kind))
    else
      SortByDateOrders(resp.data, parse);
      Success(SortByDate(resp.data, parse))
  }

  /** Any answer that is ordered as the page promises is the very list the page shows. */
  lemma LoadListIsDetermined(kind: ListKind, resp: Response<seq<Summary>>, parse: string -> Option<int>, r: seq<Summary>)
    requires resp.ok && IsDateOrdered(r, resp.data, parse)
    ensures LoadList(kind, resp, parse) == Success(r)
  {
    DateOrderIsSort(r, resp.data, parse);
  }

  // ---------------------------------------------------------------------------
  // Cards and routes
  // ---------------------------------------------------------------------------

  /** The route prefix of each kind's detail page. */
  function RoutePrefix(kind: ListKind): string {
    match kind
    case EventsList => "/pac-events/"
    case ReadingCircleList => "/reading-circle/"
    case TimesList => "/pac-times/"
    case GalleryList => "/gallery/"
  }

  const DateFallback: string := "Date TBA"

  /** One list card: cover image, date label, title, optional description and target route. */
  datatype Card = Card(
    cover: string,
    dateLabel: string,
    title: string,
    description: Option<string>,
    target: string)

  function DateLabel(date: string): (shown: string)
    ensures shown != ""
    ensures date != "" ==> shown == date
    ensures date == "" ==> shown == DateFallback
  {
    if date == "" then DateFallback else date
  }

  function CardFor(kind: ListKind, backend: string, s: Summary): (c: Card)
    ensures c.cover == MediaUrl(backend, s.coverImage)
    ensures c.dateLabel == DateLabel(s.date)
    ensures c.title == s.title
    ensures c.description.Some? <==> kind == GalleryList && Truthy(s.description)
    ensures c.description.Some? ==> c.description.value == s.description.value
    ensures StartsWith(c.target, RoutePrefix(kind)) && c.target[|RoutePrefix(kind)|..] == s.number
  {
    var description := if kind == GalleryList && Truthy(s.description) then s.description else None;
    Card(MediaUrl(backend, s.coverImage), DateLabel(s.date), s.title, description, RoutePrefix(kind) + s.number)
  }

  /**
   * The inverse of a card's navigation target: the text after the kind's route prefix,
   * when the path starts with it.
   */
  function RouteParam(kind: ListKind, path: string): (n: Option<string>)
    ensures n.Some? <==> StartsWith(path, RoutePrefix(kind))
    ensures n.Some? ==> RoutePrefix(kind) + n.value == path
  {
    var p := RoutePrefix(kind);
    if StartsWith(path, p) then Some(path[|p|..]) else None
  }

  /** Stripping the route prefix from a card's target gives back the item's number. */
  lemma CardRouteRoundTrip(kind: ListKind, backend: string, s: Summary)
    ensures RouteParam(kind, CardFor(kind, backend, s).target) == Some(s.number)
  {
  }

  /** No card leads to another kind's detail page. */
  lemma CardRoutesDisjoint(kind: ListKind, other: ListKind, backend: string, s: Summary)
    requires kind != other
    ensures RouteParam(other, CardFor(kind, backend, s).target).None?
  {
    var t := CardFor(kind, backend, s).target;
    var p := RoutePrefix(other);
    var q := RoutePrefix(kind);
    var d := if kind.ReadingCircleList? || other.ReadingCircleList? || kind.GalleryList? || other.GalleryList? then 1 else 5;
    assert d < |p| && d < |q| && t[d] == q[d] && q[d] != p[d];
  }
}
