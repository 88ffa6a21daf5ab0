/**
 * What the three detail pages share: the authored section record, the blocks a section
 * renders to, the exact-match lookup of an item by its number, and the two display
 * orders of the sections.
 */
module Sections {
  import opened Wrappers
  import opened Content
  import opened Links

  /**
   * One authored section. Every field may be missing in the data; the reading-circle and
   * PAC Times pages never read `galleryAlbumId` (`image_gallery_album_id`).
   */
  datatype Section = Section(
    heading: Option<string>,
    body: Option<string>,
    image: Option<string>,
    galleryAlbumId: Option<string>)

  /** One rendered element of a section, in the order a section can emit them. */
  datatype Block =
    | Heading(text: string)
    | Body(pieces: seq<Piece>)
    | Image(src: string)
    | GalleryLink(target: string)

  /** The position of a block kind within a section. */
  function Rank(b: Block): nat {
    match b
    case Heading(_) => 0
    case Body(_) => 1
    case Image(_) => 2
    case GalleryLink(_) => 3
  }

  /** The in-site route of a photo album: `/gallery/{id}`. */
  function GalleryPath(id: string): (path: string)
    ensures |path| == |"/gallery/"| + |id|
    ensures path[..|"/gallery/"|] == "/gallery/" && path[|"/gallery/"|..] == id
  {
    "/gallery/" + id
  }

  /** Block `b` carries the content of its field of `s`, and that field is truthy. */
  ghost predicate Carries(b: Block, backend: string, s: Section, withGallery: bool) {
    match b
    case Heading(t) => Truthy(s.heading) && t == s.heading.value
    case Body(ps) => Truthy(s.body) && ps == Linkify(s.body.value)
    case Image(u) => Truthy(s.image) && u == MediaUrl(backend, s.image.value)
    case GalleryLink(g) => withGallery && Truthy(s.galleryAlbumId) && g == GalleryPath(s.galleryAlbumId.value)
  }

  /** Some block of `blocks` has rank `k`. */
  ghost predicate HasRank(blocks: seq<Block>, k: nat) {
    exists i :: 0 <= i < |blocks| && Rank(blocks[i]) == k
  }

  /**
   * `blocks` is a faithful rendering of section `s`: kinds in heading, body, image, gallery
   * order with no kind twice; a block for each truthy field (the gallery link only when
   * the page shows it) and for nothing else; each block carrying its field's content, the
   * body as the pieces `Linkify` makes of the body text.
   */
  ghost predicate RendersSection(blocks: seq<Block>, backend: string, s: Section, withGallery: bool) {
    && (forall i, j :: 0 <= i < j < |blocks| ==> Rank(blocks[i]) < Rank(blocks[j]))
    && (forall i :: 0 <= i < |blocks| ==> Carries(blocks[i], backend, s, withGallery))
    && (Truthy(s.heading) ==> HasRank(blocks, 0))
    && (Truthy(s.body) ==> HasRank(blocks, 1))
    && (Truthy(s.image) ==> HasRank(blocks, 2))
    && (withGallery && Truthy(s.galleryAlbumId) ==> HasRank(blocks, 3))
  }

  /** The block of a field when the field is truthy. */
  function When(present: bool, b: Block): seq<Block> {
    if present then [b] else []
  }

  /** The heading, body and image blocks of `s`, with `pieces` as the rendered body. */
  function ArticleOf(backend: string, s: Section, pieces: seq<Piece>): seq<Block> {
    When(Truthy(s.heading), Heading(s.heading.GetOr("")))
    + When(Truthy(s.body), Body(pieces))
    + When(Truthy(s.image), Image(MediaUrl(backend, s.image.GetOr(""))))
  }

  lemma ArticleOfRenders(backend: string, s: Section, pieces: seq<Piece>)
    requires Truthy(s.body) ==> pieces == Linkify(s.body.value)
    ensures RendersSection(ArticleOf(backend, s, pieces), backend, s, false)
  {
    var h, b, i := Heading(s.heading.GetOr("")), Body(pieces), Image(MediaUrl(backend, s.image.GetOr("")));
    var r := ArticleOf(backend, s, pieces);
    if Truthy(s.heading) {
      if Truthy(s.body) {
        if Truthy(s.image) {
          assert r == [h, b, i] && Rank(r[0]) == 0 && Rank(r[1]) == 1 && Rank(r[2]) == 2;
        } else {
          assert r == [h, b] && Rank(r[0]) == 0 && Rank(r[1]) == 1;
        }
      } else {
        if Truthy(s.image) {
          assert r == [h, i] && Rank(r[0]) == 0 && Rank(r[1]) == 2;
        } else {
          assert r == [h] && Rank(r[0]) == 0;
        }
      }
    } else {
      if Truthy(s.body) {
        if Truthy(s.image) {
          assert r == [b, i] && Rank(r[0]) == 1 && Rank(r[1]) == 2;
        } else {
          assert r == [b] && Rank(r[0]) == 1;
        }
      } else {
        if Truthy(s.image) {
          assert r == [i] && Rank(r[0]) == 2;
        } else {
          assert r == [];
        }
      }
    }
  }

  /** A section as the reading-circle and PAC Times pages render it: heading, body, image. */
  function ArticleBlocks(backend: string, s: Section): (r: seq<Block>)
    ensures RendersSection(r, backend, s, false)
  {
    var pieces := Linkify(s.body.GetOr(""));
    ArticleOfRenders(backend, s, pieces);
    ArticleOf(backend, s, pieces)
  }

  /**
   * The body block of a faithful rendering shows the body text exactly, and its pieces
   * agree with the pages' as-written classification on every piece after the first.
   */
  lemma RenderedBody(blocks: seq<Block>, backend: string, s: Section, withGallery: bool, i: nat)
    requires RendersSection(blocks, backend, s, withGallery) && i < |blocks| && blocks[i].Body?
    ensures ShownAll(blocks[i].pieces) == s.body.value
    ensures |blocks[i].pieces| == |LinkifyAsWritten(s.body.value)|
    ensures forall k :: 0 < k < |blocks[i].pieces| ==>
      blocks[i].pieces[k] == LinkifyAsWritten(s.body.value)[k]
  {
    assert Carries(blocks[i], backend, s, withGallery);
    LinkifyRoundTrip(s.body.value);
    AsWrittenAgreesAfterFirst(s.body.value);
  }

  /** The sections of a reading-circle session or PAC Times issue rendered one by one. */
  function Articles(backend: string, secs: seq<Section>): (r: seq<seq<Block>>)
    ensures |r| == |secs|
    ensures forall k :: 0 <= k < |r| ==> RendersSection(r[k], backend, secs[k], false)
  {
    Map(s => ArticleBlocks(backend, s), secs)
  }

  /** The gallery-link block of `s` when its album id is truthy. */
  function GalleryPart(s: Section): seq<Block> {
    When(Truthy(s.galleryAlbumId), GalleryLink(GalleryPath(s.galleryAlbumId.GetOr(""))))
  }

  /** A faithful article rendering followed by the gallery link renders the section with its gallery. */
  lemma WithGalleryRenders(backend: string, s: Section, article: seq<Block>)
    requires RendersSection(article, backend, s, false)
    ensures RendersSection(article + GalleryPart(s), backend, s, true)
  {
    var r := article + GalleryPart(s);
    forall i | 0 <= i < |article| ensures Carries(r[i], backend, s, true) && Rank(r[i]) < 3 {
      assert r[i] == article[i] && Carries(article[i], backend, s, false);
    }
    forall i, j | 0 <= i < j < |r| ensures Rank(r[i]) < Rank(r[j]) {
      if j < |article| {
        assert r[i] == article[i] && r[j] == article[j];
      }
    }
    forall k | HasRank(article, k) ensures HasRank(r, k) {
      var i :| 0 <= i < |article| && Rank(article[i]) == k;
      assert r[i] == article[i];
    }
    if Truthy(s.galleryAlbumId) {
      assert Rank(r[|article|]) == 3;
    }
  }

  /** A section as the events page renders it: the article blocks, then the gallery link. */
  function EventSectionBlocks(backend: string, s: Section): (r: seq<Block>)
    ensures RendersSection(r, backend, s, true)
  {
    WithGalleryRenders(backend, s, ArticleBlocks(backend, s));
    ArticleBlocks(backend, s) + GalleryPart(s)
  }

  /** The sections of a PAC event rendered one by one, each with its gallery link. */
  function EventSections(backend: string, secs: seq<Section>): (r: seq<seq<Block>>)
    ensures |r| == |secs|
    ensures forall k :: 0 <= k < |r| ==> RendersSection(r[k], backend, secs[k], true)
  {
    Map(s => EventSectionBlocks(backend, s), secs)
  }

  /** The events page's blocks are the other pages' blocks plus, at most, one trailing gallery link. */
  lemma EventBlocksExtendArticle(backend: string, s: Section)
    ensures EventSectionBlocks(backend, s)[..|ArticleBlocks(backend, s)|] == ArticleBlocks(backend, s)
    ensures |EventSectionBlocks(backend, s)| == |ArticleBlocks(backend, s)| + (if Truthy(s.galleryAlbumId) then 1 else 0)
  {
  }

  /** A section with no gallery field renders the same on every page. */
  lemma NoGalleryRendersAlike(backend: string, s: Section)
    requires !Truthy(s.galleryAlbumId)
    ensures EventSectionBlocks(backend, s) == ArticleBlocks(backend, s)
  {
  }

  /**
   * The body of a detail page: the cover image, one group of blocks per displayed
   * section, whether the "no content" placeholder shows, and the item-level gallery link.
   */
  datatype DetailView = DetailView(
    cover: string,
    groups: seq<seq<Block>>,
    placeholder: bool,
    galleryLink: Option<string>)

  // ---------------------------------------------------------------------------
  // Display order
  // ---------------------------------------------------------------------------

  /** `[...sections].reverse()`: a reversed copy; the stored list is a value and stays as it is. */
  function Reversed<T>(xs: seq<T>): (r: seq<T>)
    ensures |r| == |xs|
    ensures forall i :: 0 <= i < |xs| ==> r[i] == xs[|xs| - 1 - i]
  {
    seq(|xs|, i requires 0 <= i < |xs| => xs[|xs| - 1 - i])
  }

  /** `xs.map(f)`. */
  function Map<A, B>(f: A -> B, xs: seq<A>): (r: seq<B>)
    ensures |r| == |xs|
    ensures forall i :: 0 <= i < |xs| ==> r[i] == f(xs[i])
  {
    seq(|xs|, i requires 0 <= i < |xs| => f(xs[i]))
  }

  /** Mapping the reversed list gives the mapped list reversed. */
  lemma MapReversed<A, B>(f: A -> B, xs: seq<A>)
    ensures Map(f, Reversed(xs)) == Reversed(Map(f, xs))
  {
  }

  /** Rendering the sections in reverse gives the renderings in reverse. */
  lemma ArticlesReversed(backend: string, secs: seq<Section>)
    ensures Articles(backend, Reversed(secs)) == Reversed(Articles(backend, secs))
  {
    MapReversed(s => ArticleBlocks(backend, s), secs);
  }

  /** Group `i` of the reversed renderings renders section `|secs| - 1 - i`. */
  lemma ArticlesOfReversed(backend: string, secs: seq<Section>)
    ensures forall i :: 0 <= i < |secs| ==>
      RendersSection(Articles(backend, Reversed(secs))[i], backend, secs[|secs| - 1 - i], false)
  {
    var shown := Reversed(secs);
    forall i | 0 <= i < |secs|
      ensures RendersSection(Articles(backend, shown)[i], backend, secs[|secs| - 1 - i], false)
    {
      assert shown[i] == secs[|secs| - 1 - i];
    }
  }

  /** Reversing the display order twice gives the stored order back. */
  lemma ReversedTwice<T>(xs: seq<T>)
    ensures Reversed(Reversed(xs)) == xs
  {
  }

  /** The most recently appended section is displayed first. */
  lemma ReversedShowsNewestFirst<T>(s1: T, s2: T, s3: T)
    ensures Reversed([s1, s2, s3]) == [s3, s2, s1]
  {
  }

  // ---------------------------------------------------------------------------
  // Lookup by number
  // ---------------------------------------------------------------------------

  /**
   * `items.find(i => key(i) === wanted)`, as the index it stops at: the first item whose
   * number is the same string, or none.
   */
  function FindIndex<T>(items: seq<T>, key: T -> string, wanted: string): (r: Option<nat>)
    ensures r.Some? ==> r.value < |items| && key(items[r.value]) == wanted
    ensures r.Some? ==> forall j :: 0 <= j < r.value ==> key(items[j]) != wanted
    ensures r.None? <==> forall j :: 0 <= j < |items| ==> key(items[j]) != wanted
  {
    if |items| == 0 then None
    else if key(items[0]) == wanted then Some(0)
    else match FindIndex(items[1..], key, wanted)
      case None => None
      case Some(i) => Some(i + 1)
  }

  /** The item `find` returns. */
  function Find<T>(items: seq<T>, key: T -> string, wanted: string): (r: Option<T>)
    ensures r.Some? <==> exists i :: 0 <= i < |items| && key(items[i]) == wanted
    ensures r.Some? ==> exists i :: 0 <= i < |items| && items[i] == r.value && key(items[i]) == wanted
                          && forall j :: 0 <= j < i ==> key(items[j]) != wanted
  {
    match FindIndex(items, key, wanted)
    case None => None
    case Some(i) => Some(items[i])
  }

  /** When numbers are unique, the lookup returns the one item with the requested number. */
  lemma FindUnique<T>(items: seq<T>, key: T -> string, i: nat)
    requires i < |items|
    requires forall a, b :: 0 <= a < b < |items| ==> key(items[a]) != key(items[b])
    ensures Find(items, key, key(items[i])) == Some(items[i])
  {
  }
}
