/** The detail page of one PAC Times issue. */
module TimesPage {
  import opened Wrappers
  import opened Content
  import opened Sections
  import ReadingCirclePage

  /** An issue record; its `sections` array may be missing. */
  datatype Issue = Issue(
    number: string,
    title: string,
    coverImage: string,
    date: string,
    sections: Option<seq<Section>>)

  function Number(i: Issue): string {
    i.number
  }

  const FetchError: string := "Failed to fetch issue"
  const NotFoundError: string := "Issue not found"

  /** The fetch-then-find of the page: the first issue whose number is the route's, or an error. */
  function FetchIssue(resp: Response<seq<Issue>>, issueNumber: string): (r: Result<Issue, string>)
    ensures !resp.ok ==> r == Failure(FetchError)
    ensures resp.ok ==> (r.Success? <==> exists i :: 0 <= i < |resp.data| && resp.data[i].number == issueNumber)
    ensures resp.ok && r.Success? ==>
      exists i :: 0 <= i < |resp.data| && resp.data[i] == r.value && r.value.number == issueNumber
        && forall j :: 0 <= j < i ==> resp.data[j].number != issueNumber
    ensures resp.ok && r.Failure? ==> r.error == NotFoundError
  {
    if !resp.ok then Failure(FetchError)
    else match Find(resp.data, Number, issueNumber)
      case None => Failure(NotFoundError)
      case Some(i) => Success(i)
  }

  /** A fetch failure can always be told apart from a missing issue. */
  lemma ErrorsDistinct()
    ensures FetchError != NotFoundError
  {
    assert FetchError[0] != NotFoundError[0];
  }

  /** What the page renders for a found issue: sections in stored order. */
  function IssueView(backend: string, i: Issue): (v: DetailView)
    ensures v.cover == MediaUrl(backend, i.coverImage)
    ensures i.sections.Some? ==>
      |v.groups| == |i.sections.value|
      && forall k :: 0 <= k < |v.groups| ==> RendersSection(v.groups[k], backend, i.sections.value[k], false)
    ensures i.sections.None? ==> v.groups == []
    ensures v.placeholder <==> i.sections.None? || |i.sections.value| == 0
    ensures v.galleryLink.None?
  {
    var secs := i.sections.GetOr([]);
    DetailView(MediaUrl(backend, i.coverImage), Articles(backend, secs), |secs| == 0, None)
  }

  /**
   * The same sections show in opposite orders on the two pages: the reading circle
   * reverses them, PAC Times does not.
   */
  lemma OppositeOrders(backend: string, secs: seq<Section>, n: string, t: string, c: string, d: string)
    ensures ReadingCirclePage.SessionView(backend, ReadingCirclePage.Session(n, t, c, d, secs)).groups
         == Reversed(IssueView(backend, Issue(n, t, c, d, Some(secs))).groups)
  {
    ArticlesReversed(backend, secs);
  }
}
