/** Records and helpers shared by the list and detail pages. */
module Content {
  import opened Wrappers

  /**
   * The fields a list page reads from one item of its collection: the item's number
   * (`event_number`, `issue_number` or `album_number`), title, cover image, date
   * (`event_date`, `issue_date` or `album_date`) and, for albums, the description.
   */
  datatype Summary = Summary(
    number: string,
    title: string,
    coverImage: string,
    date: string,
    description: Option<string>)

  /** A backend answer: `response.ok`, and the collection the JSON body decoded to. */
  datatype Response<T> = Response(ok: bool, data: T)

  /** A stored media path resolved against the backend origin: `${backend_url}${path}`. */
  function MediaUrl(backend: string, path: string): (url: string)
    ensures |url| == |backend| + |path|
    ensures url[..|backend|] == backend && url[|backend|..] == path
  {
    backend + path
  }

  /** A JavaScript string used as a condition: present and not empty. */
  predicate Truthy(field: Option<string>) {
    field.Some? && field.value != ""
  }
}
