/**
 * `linkify`, shared verbatim by the three detail pages: the body text is split on the
 * pattern `(https?:\/\/[^\s]+)` (leftmost, greedy, with the matches kept as pieces of
 * their own), and each piece becomes either an anchor or literal text.
 */
module Links {
  import opened Text

  const Http: string := "http://"
  const Https: string := "https://"

  /** `http://` is written at index `i` of `s`, compared character by character. */
  predicate HttpAt(s: string, i: nat) {
    && i + 7 <= |s|
    && s[i] == 'h' && s[i + 1] == 't' && s[i + 2] == 't' && s[i + 3] == 'p'
    && s[i + 4] == ':' && s[i + 5] == '/' && s[i + 6] == '/'
  }

  /** `https://` is written at index `i` of `s`, compared character by character. */
  predicate HttpsAt(s: string, i: nat) {
    && i + 8 <= |s|
    && s[i] == 'h' && s[i + 1] == 't' && s[i + 2] == 't' && s[i + 3] == 'p'
    && s[i + 4] == 's' && s[i + 5] == ':' && s[i + 6] == '/' && s[i + 7] == '/'
  }

  /** Comparing character by character with `http://` is exactly an occurrence of that string. */
  lemma HttpTestIsOccurrence(s: string, i: nat)
    ensures HttpAt(s, i) <==> OccursAt(s, Http, i)
  {
    if i + 7 <= |s| {
      var w := s[i..i + 7];
      forall m | 0 <= m < 7 ensures w[m] == s[i + m] { }
      if HttpAt(s, i) {
        forall m | 0 <= m < 7 ensures w[m] == Http[m] { }
        assert w == Http;
      }
      if w == Http {
        assert w[0] == 'h' && w[1] == 't' && w[2] == 't' && w[3] == 'p';
        assert w[4] == ':' && w[5] == '/' && w[6] == '/';
      }
    }
  }

  /** Comparing character by character with `https://` is exactly an occurrence of that string. */
  lemma HttpsTestIsOccurrence(s: string, i: nat)
    ensures HttpsAt(s, i) <==> OccursAt(s, Https, i)
  {
    if i + 8 <= |s| {
      var w := s[i..i + 8];
      forall m | 0 <= m < 8 ensures w[m] == s[i + m] { }
      if HttpsAt(s, i) {
        forall m | 0 <= m < 8 ensures w[m] == Https[m] { }
        assert w == Https;
      }
      if w == Https {
        assert w[0] == 'h' && w[1] == 't' && w[2] == 't' && w[3] == 'p';
        assert w[4] == 's' && w[5] == ':' && w[6] == '/' && w[7] == '/';
      }
    }
  }

  /** The length of the scheme `https?://` written at index `i` of `s`, or 0 when none is. */
  function SchemeLen(s: string, i: nat): (k: nat)
    ensures k == 0 || k == |Http| || k == |Https|
    ensures k == |Https| <==> HttpsAt(s, i)
    ensures k == |Http| <==> HttpAt(s, i)
    ensures k > 0 ==> i + k <= |s| && s[i] == 'h' && NoSpace(s[i..i + k])
  {
    if HttpsAt(s, i) then SchemeHasNoSpace(s, i, |Https|); |Https|
    else if HttpAt(s, i) then SchemeHasNoSpace(s, i, |Http|); |Http|
    else 0
  }

  /** A scheme is made of visible characters only. */
  lemma SchemeHasNoSpace(s: string, i: nat, k: nat)
    requires (k == 7 && HttpAt(s, i)) || (k == 8 && HttpsAt(s, i))
    ensures NoSpace(s[i..i + k])
  {
    var w := s[i..i + k];
    forall j | 0 <= j < k ensures !IsSpace(w[j]) {
      assert w[j] == s[i + j];
      VisibleIsNotSpace(s[i + j]);
    }
  }

  /** The pattern matches at index `i`: a scheme followed by at least one non-space character. */
  predicate IsUrlAt(s: string, i: nat) {
    var k := SchemeLen(s, i);
    k > 0 && i + k < |s| && !IsSpace(s[i + k])
  }

  /** The length of the maximal run of non-space characters starting at `i`. */
  function RunLen(s: string, i: nat): (n: nat)
    requires i <= |s|
    ensures i + n <= |s|
    ensures forall j :: i <= j < i + n ==> !IsSpace(s[j])
    ensures i + n == |s| || IsSpace(s[i + n])
    decreases |s| - i
  {
    if i < |s| && !IsSpace(s[i]) then 1 + RunLen(s, i + 1) else 0
  }

  /** A match of the pattern runs past its scheme. */
  lemma RunCoversScheme(s: string, i: nat)
    requires i <= |s| && IsUrlAt(s, i)
    ensures RunLen(s, i) > SchemeLen(s, i)
  {
    var k := SchemeLen(s, i);
    assert forall j :: i <= j < i + k ==> s[j] == s[i..i + k][j - i];
  }

  /** A piece that is exactly one match: a scheme, then only non-space characters, at least one. */
  predicate IsUrl(t: string) {
    IsUrlAt(t, 0) && NoSpace(t)
  }

  /** No index of `t` starts a match. */
  predicate NoUrlIn(t: string) {
    forall j: nat :: j <= |t| ==> !IsUrlAt(t, j)
  }

  /**
   * The split from text start `p`, scanning at `q`: at each scan position either a match
   * begins (the text before it and the match are emitted, and both restart after it) or
   * the scan moves on; at the end the remaining text is emitted.
   */
  function SplitFrom(s: string, p: nat, q: nat): seq<string>
    requires p <= q <= |s|
    decreases |s| - q
  {
    if q == |s| then [s[p..]]
    else if IsUrlAt(s, q) then
      RunCoversScheme(s, q);
      var e := q + RunLen(s, q);
      [s[p..q], s[q..e]] + SplitFrom(s, e, e)
    else SplitFrom(s, p, q + 1)
  }

  /** `text.split(/(https?:\/\/[^\s]+)/g)`. */
  function Split(s: string): seq<string> {
    SplitFrom(s, 0, 0)
  }

  /** The pieces written one after the other. */
  function Join(parts: seq<string>): string {
    if |parts| == 0 then "" else parts[0] + Join(parts[1..])
  }

  lemma JoinTwoMore(a: string, b: string, rest: seq<string>)
    ensures Join([a, b] + rest) == a + b + Join(rest)
  {
    var r := [a, b] + rest;
    assert r[1..] == [b] + rest;
    assert r[1..][1..] == rest;
  }

  /** One step of the split at a scan position where a match begins. */
  lemma SplitFromUrlStep(s: string, p: nat, q: nat, e: nat)
    requires p <= q < |s| && IsUrlAt(s, q) && e == q + RunLen(s, q)
    ensures q < e <= |s|
    ensures SplitFrom(s, p, q) == [s[p..q], s[q..e]] + SplitFrom(s, e, e)
  {
    RunCoversScheme(s, q);
  }

  /** One step of the split at a scan position where no match begins. */
  lemma SplitFromSkipStep(s: string, p: nat, q: nat)
    requires p <= q < |s| && !IsUrlAt(s, q)
    ensures SplitFrom(s, p, q) == SplitFrom(s, p, q + 1)
  {
  }

  /** The join of a split that emitted text and a match before the rest. */
  lemma JoinAfterMatch(s: string, p: nat, q: nat, e: nat, rest: seq<string>)
    requires p <= q <= e <= |s| && Join(rest) == s[e..]
    ensures Join([s[p..q], s[q..e]] + rest) == s[p..]
  {
    JoinTwoMore(s[p..q], s[q..e], rest);
    assert s[p..] == s[p..q] + s[q..e] + s[e..];
  }

  /** Joining the split of `s` from text start `p` gives back `s[p..]`. */
  lemma {:induction false} SplitFromJoin(s: string, p: nat, q: nat)
    requires p <= q <= |s|
    ensures Join(SplitFrom(s, p, q)) == s[p..]
    decreases |s| - q, 1
  {
    if q == |s| {
      assert SplitFrom(s, p, q) == [s[p..]];
    } else if IsUrlAt(s, q) {
      SplitFromJoinAtMatch(s, p, q);
    } else {
      SplitFromSkipStep(s, p, q);
      SplitFromJoin(s, p, q + 1);
    }
  }

  /** The induction step of `SplitFromJoin` at a scan position where a match begins. */
  lemma {:induction false} SplitFromJoinAtMatch(s: string, p: nat, q: nat)
    requires p <= q < |s| && IsUrlAt(s, q)
    ensures Join(SplitFrom(s, p, q)) == s[p..]
    decreases |s| - q, 0
  {
    var e := q + RunLen(s, q);
    SplitFromUrlStep(s, p, q, e);
    SplitFromJoin(s, e, e);
    JoinAfterMatch(s, p, q, e, SplitFrom(s, e, e));
  }

  /** Round trip of the split: the pieces join back to the input. */
  lemma SplitJoin(s: string)
    ensures Join(Split(s)) == s
  {
    SplitFromJoin(s, 0, 0);
  }

  /** A match inside a slice of `s` is a match in `s` itself. */
  lemma UrlInSliceIsUrl(s: string, p: nat, q: nat, j: nat)
    requires p <= q <= |s| && IsUrlAt(s[p..q], j)
    ensures IsUrlAt(s, p + j)
  {
    var t := s[p..q];
    assert forall m :: j <= m < |t| ==> t[m] == s[p + m];
  }

  /** The shape of the split: text and match pieces alternate, starting and ending with text. */
  ghost predicate Alternates(r: seq<string>) {
    && |r| % 2 == 1
    && (forall k :: 0 <= k < |r| && k % 2 == 1 ==> IsUrl(r[k]))
    && (forall k :: 0 <= k < |r| && k % 2 == 0 ==> NoUrlIn(r[k]))
    && (forall k :: 0 < k < |r| && k % 2 == 0 ==> r[k] == "" || IsSpace(r[k][0]))
  }

  /** The same shape, one text-and-match pair at a time. */
  ghost predicate WellSplit(r: seq<string>)
    decreases |r|
  {
    && |r| > 0
    && NoUrlIn(r[0])
    && (|r| == 1 || (|r| >= 3 && IsUrl(r[1]) && (r[2] == "" || IsSpace(r[2][0])) && WellSplit(r[2..])))
  }

  lemma {:induction false} WellSplitAlternates(r: seq<string>)
    requires WellSplit(r)
    ensures Alternates(r)
    decreases |r|
  {
    if |r| > 1 {
      var rest := r[2..];
      WellSplitAlternates(rest);
      forall k | 2 <= k < |r| ensures r[k] == rest[k - 2] { }
    }
  }

  /** Text, a match, then a well-shaped split whose first text starts with whitespace. */
  lemma WellSplitCons(a: string, u: string, rest: seq<string>)
    requires NoUrlIn(a) && IsUrl(u) && WellSplit(rest)
    requires rest[0] == "" || IsSpace(rest[0][0])
    ensures WellSplit([a, u] + rest)
  {
    assert ([a, u] + rest)[2..] == rest;
  }

  /** The text matched at `q` is one whole match. */
  lemma MatchIsUrl(s: string, q: nat)
    requires q <= |s| && IsUrlAt(s, q)
    ensures RunLen(s, q) > SchemeLen(s, q)
    ensures IsUrl(s[q..q + RunLen(s, q)])
  {
    RunCoversScheme(s, q);
    var u := s[q..q + RunLen(s, q)];
    assert forall m :: 0 <= m < |u| ==> u[m] == s[q + m];
  }

  /** `r` is a well-shaped split whose first text piece is a prefix of `s[p..]`. */
  ghost predicate ShapedFrom(s: string, p: nat, r: seq<string>) {
    WellSplit(r) && p + |r[0]| <= |s| && r[0] == s[p..p + |r[0]|]
  }

  /** The shape step at a scan position where a match begins. */
  lemma ShapeAfterMatch(s: string, p: nat, q: nat)
    requires p <= q < |s| && IsUrlAt(s, q)
    requires forall j :: p <= j < q ==> !IsUrlAt(s, j)
    requires ShapedFrom(s, q + RunLen(s, q), SplitFrom(s, q + RunLen(s, q), q + RunLen(s, q)))
    ensures ShapedFrom(s, p, SplitFrom(s, p, q))
  {
    var e := q + RunLen(s, q);
    SplitFromUrlStep(s, p, q, e);
    MatchIsUrl(s, q);
    var rest := SplitFrom(s, e, e);
    TextHasNoUrl(s, p, q);
    assert rest[0] == "" || IsSpace(rest[0][0]) by {
      if rest[0] != "" {
        assert e < |s|;
        assert rest[0][0] == s[e..e + |rest[0]|][0] == s[e];
      }
    }
    WellSplitCons(s[p..q], s[q..e], rest);
  }

  /** The split from `p`, scanning at `q`, is well shaped and begins with a prefix of `s[p..]`. */
  lemma {:induction false} SplitFromShape(s: string, p: nat, q: nat)
    requires p <= q <= |s|
    requires forall j :: p <= j < q ==> !IsUrlAt(s, j)
    ensures ShapedFrom(s, p, SplitFrom(s, p, q))
    decreases |s| - q, 1
  {
    if q == |s| {
      ShapeAtEnd(s, p);
    } else if IsUrlAt(s, q) {
      SplitFromShapeAtMatch(s, p, q);
    } else {
      SplitFromShape(s, p, q + 1);
      ShapeAfterSkip(s, p, q);
    }
  }

  /** The induction step of `SplitFromShape` at a scan position where a match begins. */
  lemma {:induction false} SplitFromShapeAtMatch(s: string, p: nat, q: nat)
    requires p <= q < |s| && IsUrlAt(s, q)
    requires forall j :: p <= j < q ==> !IsUrlAt(s, j)
    ensures ShapedFrom(s, p, SplitFrom(s, p, q))
    decreases |s| - q, 0
  {
    RunCoversScheme(s, q);
    var e := q + RunLen(s, q);
    SplitFromShape(s, e, e);
    ShapeAfterMatch(s, p, q);
  }

  /** The shape at the end of the text: the rest of the text is one piece. */
  lemma ShapeAtEnd(s: string, p: nat)
    requires p <= |s|
    requires forall j :: p <= j < |s| ==> !IsUrlAt(s, j)
    ensures ShapedFrom(s, p, SplitFrom(s, p, |s|))
  {
    TextHasNoUrl(s, p, |s|);
    assert s[p..|s|] == s[p..];
    assert SplitFrom(s, p, |s|) == [s[p..|s|]];
  }

  /** The shape step at a scan position where no match begins. */
  lemma ShapeAfterSkip(s: string, p: nat, q: nat)
    requires p <= q < |s| && !IsUrlAt(s, q)
    requires ShapedFrom(s, p, SplitFrom(s, p, q + 1))
    ensures ShapedFrom(s, p, SplitFrom(s, p, q))
  {
    SplitFromSkipStep(s, p, q);
  }

  /** Text in which the scan found no match contains no match of its own. */
  lemma TextHasNoUrl(s: string, p: nat, q: nat)
    requires p <= q <= |s|
    requires forall j :: p <= j < q ==> !IsUrlAt(s, j)
    ensures NoUrlIn(s[p..q])
  {
    forall j: nat | j <= q - p && IsUrlAt(s[p..q], j) ensures false {
      UrlInSliceIsUrl(s, p, q, j);
    }
  }

  /** The split of any text is well shaped. */
  lemma SplitShape(s: string)
    ensures Alternates(Split(s))
  {
    SplitFromShape(s, 0, 0);
    WellSplitAlternates(Split(s));
  }

  /** What the renderer makes of a piece: an anchor (with its target and its text) or literal text. */
  datatype Piece = Plain(text: string) | Anchor(href: string, linkText: string)

  /** The characters a piece puts on screen. */
  function Shown(x: Piece): string {
    match x
    case Plain(t) => t
    case Anchor(_, t) => t
  }

  function ShownAll(xs: seq<Piece>): string {
    if |xs| == 0 then "" else Shown(xs[0]) + ShownAll(xs[1..])
  }

  /** `part.match(/^https?:\/\//)`: the source decides by the piece's prefix alone. */
  predicate HasSchemePrefix(part: string) {
    HttpAt(part, 0) || HttpsAt(part, 0)
  }

  /** The rendering as written: every piece with a scheme prefix becomes an anchor. */
  function LinkifyAsWritten(s: string): (r: seq<Piece>)
    ensures |r| == |Split(s)|
    ensures forall k :: 0 <= k < |r| ==>
      r[k] == if HasSchemePrefix(Split(s)[k]) then Anchor(Split(s)[k], Split(s)[k]) else Plain(Split(s)[k])
  {
    var parts := Split(s);
    seq(|parts|, k requires 0 <= k < |parts| =>
      if HasSchemePrefix(parts[k]) then Anchor(parts[k], parts[k]) else Plain(parts[k]))
  }

  /** The intended rendering: exactly the pieces the pattern matched become anchors. */
  function Linkify(s: string): (r: seq<Piece>)
    ensures |r| == |Split(s)|
    ensures forall k :: 0 <= k < |r| ==> Shown(r[k]) == Split(s)[k]
    ensures forall k :: 0 <= k < |r| ==> (r[k].Anchor? <==> k % 2 == 1)
  {
    var parts := Split(s);
    seq(|parts|, k requires 0 <= k < |parts| =>
      if k % 2 == 1 then Anchor(parts[k], parts[k]) else Plain(parts[k]))
  }

  /** Pieces whose shown text is `parts` show, together, the joined parts. */
  lemma {:induction false} ShownAllJoin(xs: seq<Piece>, parts: seq<string>)
    requires |xs| == |parts|
    requires forall k :: 0 <= k < |xs| ==> Shown(xs[k]) == parts[k]
    ensures ShownAll(xs) == Join(parts)
  {
    if |xs| > 0 {
      ShownAllJoin(xs[1..], parts[1..]);
    }
  }

  /** Round trip: the rendered pieces show the body text exactly, whitespace included. */
  lemma LinkifyRoundTrip(s: string)
    ensures ShownAll(Linkify(s)) == s
  {
    SplitJoin(s);
    ShownAllJoin(Linkify(s), Split(s));
  }

  /** The rendering as written shows the body text exactly too. */
  lemma LinkifyAsWrittenRoundTrip(s: string)
    ensures ShownAll(LinkifyAsWritten(s)) == s
  {
    SplitJoin(s);
    var r := LinkifyAsWritten(s);
    forall k | 0 <= k < |r| ensures Shown(r[k]) == Split(s)[k] { }
    ShownAllJoin(r, Split(s));
  }

  /**
   * Every anchor targets its own text, which is one whole match: a scheme followed by
   * non-space characters only. Every literal piece contains no match.
   */
  lemma LinkifyPieces(s: string)
    ensures forall x :: x in Linkify(s) && x.Anchor? ==> x.href == x.linkText && IsUrl(x.href)
    ensures forall x :: x in Linkify(s) && x.Plain? ==> NoUrlIn(x.text)
  {
    SplitShape(s);
    var r := Linkify(s);
    forall x | x in r ensures x.Anchor? ==> x.href == x.linkText && IsUrl(x.href)
      ensures x.Plain? ==> NoUrlIn(x.text)
    {
      var k :| 0 <= k < |r| && r[k] == x;
    }
  }

  /** A match starts with its scheme. */
  lemma UrlHasSchemePrefix(t: string)
    requires IsUrl(t)
    ensures HasSchemePrefix(t)
  {
  }

  /**
   * The two renderings agree on every piece after the first: later literal pieces begin
   * with whitespace (or are empty), so they never carry a scheme prefix.
   */
  lemma AsWrittenAgreesAfterFirst(s: string)
    ensures forall k :: 0 < k < |Split(s)| ==> LinkifyAsWritten(s)[k] == Linkify(s)[k]
  {
    SplitShape(s);
    var parts := Split(s);
    forall k | 0 < k < |parts| ensures LinkifyAsWritten(s)[k] == Linkify(s)[k] {
      if k % 2 == 1 {
        UrlHasSchemePrefix(parts[k]);
      } else if parts[k] != "" {
        assert parts[k][0] != 'h';
      }
    }
  }

  /** A text without any match is split into itself alone. */
  lemma {:induction false} NoUrlSplitsToItself(s: string, p: nat, q: nat)
    requires p <= q <= |s|
    requires forall j :: q <= j < |s| ==> !IsUrlAt(s, j)
    ensures SplitFrom(s, p, q) == [s[p..]]
    decreases |s| - q
  {
    if q < |s| {
      NoUrlSplitsToItself(s, p, q + 1);
    }
  }

  /** The body `http:// x` contains no match: its only scheme is followed by a space. */
  lemma BareSchemeHasNoUrl()
    ensures forall j :: 0 <= j < |"http:// x"| ==> !IsUrlAt("http:// x", j)
  {
    var s := "http:// x";
    forall j | 0 <= j < |s| ensures !IsUrlAt(s, j) {
      if j > 0 && SchemeLen(s, j) > 0 {
        assert s[1..] == "ttp:// x";
        assert s[1..][j - 1] == 'h';
      }
    }
  }

  /**
   * The as-written rendering turns a body that starts with a bare scheme into an anchor
   * whose target contains whitespace; the intended rendering keeps it as text.
   */
  lemma BareSchemeBecomesAnchor()
    ensures LinkifyAsWritten("http:// x") == [Anchor("http:// x", "http:// x")]
    ensures !NoSpace("http:// x")
    ensures Linkify("http:// x") == [Plain("http:// x")]
  {
    BareSchemeAsWritten();
    BareSchemeIntended();
    assert IsSpace("http:// x"[7]);
  }

  /** The body `http:// x` is split into itself alone. */
  lemma BareSchemeSplit()
    ensures Split("http:// x") == ["http:// x"]
  {
    var s := "http:// x";
    BareSchemeHasNoUrl();
    NoUrlSplitsToItself(s, 0, 0);
    assert s[0..] == s;
  }

  /** The as-written half of `BareSchemeBecomesAnchor`. */
  lemma BareSchemeAsWritten()
    ensures LinkifyAsWritten("http:// x") == [Anchor("http:// x", "http:// x")]
  {
    var s := "http:// x";
    BareSchemeSplit();
    assert HttpAt(s, 0);
    var r := LinkifyAsWritten(s);
    assert |r| == 1 && r[0] == Anchor(s, s);
  }

  /** The intended half of `BareSchemeBecomesAnchor`. */
  lemma BareSchemeIntended()
    ensures Linkify("http:// x") == [Plain("http:// x")]
  {
    var s := "http:// x";
    BareSchemeSplit();
    var r := Linkify(s);
    assert |r| == 1 && r[0] == Plain(s);
  }
}
