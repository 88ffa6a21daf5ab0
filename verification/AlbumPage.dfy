/** The page of one photo album: its photo grid and the full-screen viewer. */
module AlbumPage {
  import opened Wrappers
  import opened Content
  import opened Sections

  /** An album record as the album endpoint returns it. */
  datatype Album = Album(
    number: string,
    title: string,
    date: string,
    description: Option<string>,
    coverImage: string,
    photos: seq<string>)

  function Number(a: Album): string {
    a.number
  }

  const FetchError: string := "Failed to fetch albums"

  function NotFoundError(n: string): string {
    "Album #" + n + " not found"
  }

  /** The fetch-then-find of the page: the first album whose number is the route's, or an error. */
  function FetchAlbum(resp: Response<seq<Album>>, albumNumber: string): (r: Result<Album, string>)
    ensures !resp.ok ==> r == Failure(FetchError)
    ensures resp.ok ==> (r.Success? <==> exists i :: 0 <= i < |resp.data| && resp.data[i].number == albumNumber)
    ensures resp.ok && r.Success? ==>
      exists i :: 0 <= i < |resp.data| && resp.data[i] == r.value && r.value.number == albumNumber
        && forall j :: 0 <= j < i ==> resp.data[j].number != albumNumber
    ensures resp.ok && r.Failure? ==> r.error == NotFoundError(albumNumber)
  {
    if !resp.ok then Failure(FetchError)
    else match Find(resp.data, Number, albumNumber)
      case None => Failure(NotFoundError(albumNumber))
      case Some(a) => Success(a)
  }

  /** A fetch failure can always be told apart from a missing album. */
  lemma ErrorsDistinct(n: string)
    ensures FetchError != NotFoundError(n)
  {
    assert FetchError[0] != NotFoundError(n)[0];
  }

  // ---------------------------------------------------------------------------
  // The full-screen viewer
  // ---------------------------------------------------------------------------

  /**
   * What the user can click. A click on the close button also reaches the backdrop
   * behind it; a click on the enlarged image stops there.
   */
  datatype Click = PhotoClicked(photo: string) | BackdropClicked | CloseClicked | ImageClicked

  /** The selected photo after one click. */
  function Step(selected: Option<string>, c: Click): (r: Option<string>)
    ensures c.ImageClicked? ==> r == selected
    ensures !c.ImageClicked? ==> (r.Some? <==> c.PhotoClicked?)
    ensures c.PhotoClicked? ==> r == Some(c.photo)
  {
    match c
    case PhotoClicked(p) => Some(p)
    case BackdropClicked => None
    case CloseClicked => None
    case ImageClicked => selected
  }

  /** The selection when the page opens: none. */
  const InitialSelection: Option<string> := None

  /** The selected photo after a run of clicks, oldest first. */
  function Run(selected: Option<string>, clicks: seq<Click>): Option<string>
    decreases |clicks|
  {
    if |clicks| == 0 then selected else Run(Step(selected, clicks[0]), clicks[1..])
  }

  /** What a click decides on its own: a new selection, or nothing for a click on the image. */
  function Decision(c: Click): Option<Option<string>> {
    match c
    case PhotoClicked(p) => Some(Some(p))
    case BackdropClicked => Some(None)
    case CloseClicked => Some(None)
    case ImageClicked => None
  }

  /** The decision of the newest click that decides anything, if there is one. */
  function LastDecision(clicks: seq<Click>): Option<Option<string>>
    decreases |clicks|
  {
    if |clicks| == 0 then None
    else match Decision(clicks[|clicks| - 1])
      case Some(d) => Some(d)
      case None => LastDecision(clicks[..|clicks| - 1])
  }

  lemma {:induction false} RunSnoc(selected: Option<string>, clicks: seq<Click>, c: Click)
    ensures Run(selected, clicks + [c]) == Step(Run(selected, clicks), c)
    decreases |clicks|
  {
    if |clicks| > 0 {
      assert (clicks + [c])[1..] == clicks[1..] + [c];
      RunSnoc(Step(selected, clicks[0]), clicks[1..], c);
    }
  }

  /**
   * Only the newest deciding click matters: the viewer shows what that click chose,
   * and keeps the starting selection when every click landed on the image.
   */
  lemma {:induction false} RunIsLastDecision(selected: Option<string>, clicks: seq<Click>)
    ensures Run(selected, clicks) == LastDecision(clicks).GetOr(selected)
    decreases |clicks|
  {
    if |clicks| > 0 {
      var init := clicks[..|clicks| - 1];
      var c := clicks[|clicks| - 1];
      assert clicks == init + [c];
      RunSnoc(selected, init, c);
      RunIsLastDecision(selected, init);
    }
  }

  /** Clicks on the enlarged image never change what is shown. */
  lemma ImageClicksKeepSelection(selected: Option<string>, clicks: seq<Click>)
    requires forall i :: 0 <= i < |clicks| ==> clicks[i].ImageClicked?
    ensures Run(selected, clicks) == selected
  {
    RunIsLastDecision(selected, clicks);
    NoDecisionAmongImageClicks(clicks);
  }

  lemma {:induction false} NoDecisionAmongImageClicks(clicks: seq<Click>)
    requires forall i :: 0 <= i < |clicks| ==> clicks[i].ImageClicked?
    ensures LastDecision(clicks).None?
    decreases |clicks|
  {
    if |clicks| > 0 {
      NoDecisionAmongImageClicks(clicks[..|clicks| - 1]);
    }
  }

  // ---------------------------------------------------------------------------
  // Rendering
  // ---------------------------------------------------------------------------

  /** The album page: cover, optional description, photo grid and the viewer's image. */
  datatype View = View(
    cover: string,
    description: Option<string>,
    grid: seq<string>,
    viewer: Option<string>)

  function AlbumView(backend: string, a: Album, selected: Option<string>): (v: View)
    ensures v.cover == MediaUrl(backend, a.coverImage)
    ensures v.description.Some? <==> Truthy(a.description)
    ensures v.description.Some? ==> v.description.value == a.description.value
    ensures |v.grid| == |a.photos|
    ensures forall i :: 0 <= i < |a.photos| ==> v.grid[i] == MediaUrl(backend, a.photos[i])
    ensures v.viewer.Some? <==> Truthy(selected)
    ensures v.viewer.Some? ==> v.viewer.value == MediaUrl(backend, selected.value)
  {
    View(
      MediaUrl(backend, a.coverImage),
      if Truthy(a.description) then a.description else None,
      seq(|a.photos|, i requires 0 <= i < |a.photos| => MediaUrl(backend, a.photos[i])),
      if Truthy(selected) then Some(MediaUrl(backend, selected.value)) else None)
  }

  /**
   * Clicking the k-th grid tile opens the viewer on the same image the tile shows,
   * unless the stored path is empty, in which case the viewer stays closed.
   */
  lemma GridClickShowsTile(backend: string, a: Album, selected: Option<string>, k: nat)
    requires k < |a.photos|
    ensures AlbumView(backend, a, Step(selected, PhotoClicked(a.photos[k]))).viewer
         == (if a.photos[k] != "" then Some(AlbumView(backend, a, selected).grid[k]) else None)
  {
  }

  /** After a close or backdrop click the viewer is gone, whatever was selected. */
  lemma CloseHidesViewer(backend: string, a: Album, selected: Option<string>, c: Click)
    requires c.CloseClicked? || c.BackdropClicked?
    ensures AlbumView(backend, a, Step(selected, c)).viewer.None?
  {
  }

  /**
   * The viewer starts closed; after any run of clicks from there it shows the photo of
   * the newest photo click, unless a close or backdrop click came after it.
   */
  lemma ViewerStartsEmpty(backend: string, a: Album, clicks: seq<Click>)
    ensures AlbumView(backend, a, InitialSelection).viewer.None?
    ensures Run(InitialSelection, clicks) == LastDecision(clicks).GetOr(None)
  {
    RunIsLastDecision(InitialSelection, clicks);
  }
}
