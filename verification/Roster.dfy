/**
 * The team roster page: year-scoped photo paths, the responsive card count,
 * the grouping of members by position and the per-card contact toggle.
 */
module Roster {
  import opened Wrappers
  import opened Text

  /** One entry of a year's team dataset. `mobile` is the optional "Mobile Number" field. */
  datatype Member = Member(
    name: string,
    field: string,
    position: string,
    email: string,
    mobile: Option<string>,
    img: string)

  // ---------------------------------------------------------------------------
  // Photo paths
  // ---------------------------------------------------------------------------

  /** The substring that marks a path as already scoped to a year. */
  const YearMarker: string := "team-photos-"

  /** The un-scoped directory prefix used by older datasets. */
  const LegacyPrefix: string := "/team-photos/"

  /** The photo directory of one academic year, `/team-photos-{year}/`. */
  function YearDir(year: string): string {
    "/team-photos-" + year + "/"
  }

  /** `getImagePath`: resolves a member's `img` against the selected year. */
  function ImagePath(img: string, year: string): (r: string)
    ensures Contains(img, YearMarker) ==> r == img
    ensures !Contains(img, YearMarker) && StartsWith(img, LegacyPrefix) ==>
      r == YearDir(year) + img[|LegacyPrefix|..]
    ensures !Contains(img, YearMarker) && !StartsWith(img, LegacyPrefix) ==>
      r == YearDir(year) + img
  {
    if Contains(img, YearMarker) then img
    else if StartsWith(img, LegacyPrefix) then
      StartsWithIndexOf(img, LegacyPrefix);
      ReplaceFirst(img, LegacyPrefix, YearDir(year))
    else YearDir(year) + img
  }

  /** Anything placed under a year directory carries the year marker. */
  lemma YearDirHasMarker(year: string, rest: string)
    ensures Contains(YearDir(year) + rest, YearMarker)
  {
    var s := YearDir(year) + rest;
    assert s[1..1 + |YearMarker|] == YearMarker;
    ContainsAt(s, YearMarker, 1);
  }

  /** Every resolved path carries the year marker. */
  lemma ImagePathHasMarker(img: string, year: string)
    ensures Contains(ImagePath(img, year), YearMarker)
  {
    if !Contains(img, YearMarker) {
      if StartsWith(img, LegacyPrefix) {
        YearDirHasMarker(year, img[|LegacyPrefix|..]);
      } else {
        YearDirHasMarker(year, img);
      }
    }
  }

  /** Resolving an already resolved path again, for any year, changes nothing. */
  lemma ImagePathIdempotent(img: string, year: string, other: string)
    ensures ImagePath(ImagePath(img, year), other) == ImagePath(img, year)
  {
    ImagePathHasMarker(img, year);
  }

  /**
   * The marker check wins over the prefix check: a legacy-prefixed path that also
   * mentions a year directory is left alone.
   */
  lemma ImagePathMarkerWins(img: string, year: string)
    requires StartsWith(img, LegacyPrefix) && Contains(img, YearMarker)
    ensures ImagePath(img, year) == img
  {
  }

  /** `ImagePathMarkerWins` on a concrete legacy path that names the 2023 directory. */
  lemma ImagePathMarkerWinsExample()
    ensures ImagePath("/team-photos/old/team-photos-2023/a.jpg", "2025-26")
         == "/team-photos/old/team-photos-2023/a.jpg"
  {
    var p := "/team-photos/old/team-photos-2023/a.jpg";
    assert p == "/team-photos/old/" + YearMarker + "2023/a.jpg";
    OccursBetween("/team-photos/old/", YearMarker, "2023/a.jpg");
    ContainsAt(p, YearMarker, 17);
  }

  /** A legacy path has its leading directory replaced by the year's directory. */
  lemma ImagePathLegacyExample(year: string)
    ensures ImagePath("/team-photos/a.jpg", year) == YearDir(year) + "a.jpg"
  {
    var p := "/team-photos/a.jpg";
    assert StartsWith(p, LegacyPrefix);
    assert p[11..] == "s/a.jpg";
    MissingCharNotContained(p, YearMarker, 11);
  }

  /**
   * A legacy directory that appears only mid-path is not the prefix, so the path is
   * treated as a bare file name and placed under the year's directory.
   */
  lemma ImagePathMidPathLegacy(year: string)
    ensures ImagePath("x/team-photos/a.jpg", year) == YearDir(year) + "x/team-photos/a.jpg"
  {
    var p := "x/team-photos/a.jpg";
    assert !StartsWith(p, LegacyPrefix) by { assert p[0] != LegacyPrefix[0]; }
    assert p[11..] == "os/a.jpg";
    MissingCharNotContained(p, YearMarker, 11);
  }

  // ---------------------------------------------------------------------------
  // Cards per row
  // ---------------------------------------------------------------------------

  const CardWidth: nat := 350
  const CardGap: nat := 32

  /** The card count shown before the container has been measured. */
  const InitialCardsPerRow: nat := 3

  /** `n` cards and the `n - 1` gaps between them fit in `width` pixels. */
  predicate Fits(n: nat, width: nat) {
    n * CardWidth + (n - 1) * CardGap <= width
  }

  /** The card count for a measured container width (`offsetWidth`, a whole number of pixels). */
  function CardsPerRow(width: nat): (r: nat)
    ensures r >= 1
  {
    var maxCards := (width + CardGap) / (CardWidth + CardGap);
    if maxCards < 1 then 1 else maxCards
  }

  /** The card count is the largest number of cards that fits, or one when none does. */
  lemma CardsPerRowIsLargestFit(width: nat)
    ensures var r := CardsPerRow(width);
      (r == 1 || Fits(r, width)) && !Fits(r + 1, width)
      && forall n: nat :: n >= 1 && Fits(n, width) ==> n <= r
  {
    var q := (width + CardGap) / (CardWidth + CardGap);
    var rem := (width + CardGap) % (CardWidth + CardGap);
    assert width + 32 == 382 * q + rem && 0 <= rem < 382;
    forall n: nat | n >= 1 && Fits(n, width) ensures n <= CardsPerRow(width) {
      assert 382 * n <= 382 * q + rem;
    }
  }

  /** A wider container never shows fewer cards per row. */
  lemma CardsPerRowMonotone(w1: nat, w2: nat)
    requires w1 <= w2
    ensures CardsPerRow(w1) <= CardsPerRow(w2)
  {
    CardsPerRowIsLargestFit(w1);
    CardsPerRowIsLargestFit(w2);
  }

  /**
   * The `cardsPerRow` state after a (re)measurement: unchanged while the container is
   * not mounted, the computed count otherwise.
   */
  function UpdateCardsPerRow(current: nat, containerWidth: Option<nat>): (r: nat)
    ensures containerWidth.None? ==> r == current
    ensures containerWidth.Some? ==>
      r >= 1 && (r == 1 || Fits(r, containerWidth.value)) && !Fits(r + 1, containerWidth.value)
  {
    match containerWidth
    case None => current
    case Some(w) => CardsPerRowIsLargestFit(w); CardsPerRow(w)
  }

  /**
   * The count after the handler has run once per entry of `measures` (on mount, then on
   * each resize), each entry the container's width or `None` while it is not mounted.
   */
  function CardsPerRowAfter(measures: seq<Option<nat>>): nat {
    if |measures| == 0 then InitialCardsPerRow
    else UpdateCardsPerRow(CardsPerRowAfter(measures[..|measures| - 1]), measures[|measures| - 1])
  }

  /** Entry `i` of `measures` is the most recent one that measured a width. */
  predicate LastMeasured(measures: seq<Option<nat>>, i: nat) {
    i < |measures| && measures[i].Some? && forall j :: i < j < |measures| ==> measures[j].None?
  }

  /**
   * The count is the initial one until a width is measured, and afterwards the count for
   * the most recently measured width.
   */
  lemma {:induction false} CardsPerRowAfterLastMeasure(measures: seq<Option<nat>>)
    ensures (forall i :: 0 <= i < |measures| ==> measures[i].None?) ==>
              CardsPerRowAfter(measures) == InitialCardsPerRow
    ensures forall i: nat :: LastMeasured(measures, i) ==>
              CardsPerRowAfter(measures) == CardsPerRow(measures[i].value)
  {
    if |measures| > 0 {
      var n := |measures|;
      var init := measures[..n - 1];
      CardsPerRowAfterLastMeasure(init);
      forall i: nat | LastMeasured(measures, i)
        ensures CardsPerRowAfter(measures) == CardsPerRow(measures[i].value)
      {
        if i < n - 1 {
          assert measures[n - 1].None?;
          assert init[i] == measures[i];
          assert LastMeasured(init, i);
        }
      }
    }
  }

  // ---------------------------------------------------------------------------
  // Grouping by position
  // ---------------------------------------------------------------------------

  /** The `positions` prop of a team section: one role, or a list of roles. */
  datatype Positions = Single(role: string) | AnyOf(roles: seq<string>)

  predicate Selects(key: Positions, m: Member) {
    match key
    case Single(p) => m.position == p
    case AnyOf(ps) => m.position in ps
  }

  /** `a` is `b` with some elements deleted, the rest kept in order. */
  predicate IsSubsequence<T(==)>(a: seq<T>, b: seq<T>)
    decreases |b|
  {
    if |a| == 0 then true
    else if |b| == 0 then false
    else if a[0] == b[0] then IsSubsequence(a[1..], b[1..])
    else IsSubsequence(a, b[1..])
  }

  /** The members shown in one team section. */
  function FilterMembers(ms: seq<Member>, key: Positions): (r: seq<Member>)
    ensures forall m :: multiset(r)[m] == if Selects(key, m) then multiset(ms)[m] else 0
  {
    if |ms| == 0 then []
    else
      var rest := FilterMembers(ms[1..], key);
      assert ms == [ms[0]] + ms[1..];
      if Selects(key, ms[0]) then [ms[0]] + rest else rest
  }

  /** The shown members keep their order in the dataset. */
  lemma {:induction false} FilterMembersInOrder(ms: seq<Member>, key: Positions)
    ensures IsSubsequence(FilterMembers(ms, key), ms)
  {
    if |ms| > 0 {
      FilterMembersInOrder(ms[1..], key);
      var rest := FilterMembers(ms[1..], key);
      if !Selects(key, ms[0]) && |rest| > 0 {
        assert multiset(rest)[rest[0]] > 0;
        assert rest[0] != ms[0];
      }
    }
  }

  /** A member is shown exactly when they come from the dataset and hold one of the roles. */
  lemma FilterMembersExact(ms: seq<Member>, key: Positions, m: Member)
    ensures m in FilterMembers(ms, key) <==> m in ms && Selects(key, m)
  {
    var r := FilterMembers(ms, key);
    assert m in r <==> multiset(r)[m] > 0;
    assert m in ms <==> multiset(ms)[m] > 0;
  }

  /** A single role key selects the same members as the one-element role list. */
  lemma {:induction false} SingleIsOneRoleList(ms: seq<Member>, p: string)
    ensures FilterMembers(ms, Single(p)) == FilterMembers(ms, AnyOf([p]))
  {
    if |ms| > 0 {
      SingleIsOneRoleList(ms[1..], p);
    }
  }

  // ---------------------------------------------------------------------------
  // Contact toggle
  // ---------------------------------------------------------------------------

  /** `prev.filter(i => i !== index)`. */
  function RemoveAll(v: seq<int>, index: int): (r: seq<int>)
    ensures forall x :: multiset(r)[x] == if x == index then 0 else multiset(v)[x]
    ensures index !in v ==> r == v
  {
    if |v| == 0 then []
    else
      assert v == [v[0]] + v[1..];
      (if v[0] == index then [] else [v[0]]) + RemoveAll(v[1..], index)
  }

  /** `toggleContact`: hide the card's contacts when shown, show them otherwise. */
  function ToggleContact(visible: seq<int>, index: int): (r: seq<int>)
    ensures index in r <==> index !in visible
    ensures forall x :: x != index ==> multiset(r)[x] == multiset(visible)[x]
    ensures multiset(r)[index] <= 1
  {
    if index in visible then RemoveAll(visible, index) else visible + [index]
  }

  ghost predicate NoDuplicates(v: seq<int>) {
    forall x :: multiset(v)[x] <= 1
  }

  /** Toggling never introduces a duplicate index. */
  lemma ToggleKeepsNoDuplicates(visible: seq<int>, index: int)
    requires NoDuplicates(visible)
    ensures NoDuplicates(ToggleContact(visible, index))
  {
    var r := ToggleContact(visible, index);
    forall x ensures multiset(r)[x] <= 1 {
      if x != index {
        assert multiset(r)[x] == multiset(visible)[x];
      }
    }
  }

  /** Opening and then closing a card's contacts restores the list exactly. */
  lemma ToggleTwiceRestores(visible: seq<int>, index: int)
    requires index !in visible
    ensures ToggleContact(ToggleContact(visible, index), index) == visible
  {
    RemoveAllAppended(visible, index);
  }

  lemma {:induction false} RemoveAllAppended(v: seq<int>, index: int)
    requires index !in v
    ensures RemoveAll(v + [index], index) == v
  {
    if |v| > 0 {
      assert (v + [index])[1..] == v[1..] + [index];
      RemoveAllAppended(v[1..], index);
    }
  }

  // ---------------------------------------------------------------------------
  // Year selection and the page's sections
  // ---------------------------------------------------------------------------

  const Year2025: string := "2025-26"
  const Year2024: string := "2024-25"

  /** The year selected when the page opens. */
  const DefaultYear: string := Year2025

  /** The dataset shown for the selected year; an unknown year falls back to 2025-26. */
  function TeamDataFor(year: string, data2025: seq<Member>, data2024: seq<Member>): (r: seq<Member>)
    ensures year == Year2024 ==> r == data2024
    ensures year != Year2024 ==> r == data2025
  {
    if year == Year2025 then data2025
    else if year == Year2024 then data2024
    else data2025
  }

  /** One titled group of cards on the page. */
  datatype TeamSection = TeamSection(title: string, positions: Positions)

  /** The groups shown for a year: panel members and core team members only in 2024-25. */
  function SectionsFor(year: string): (r: seq<TeamSection>)
    ensures |r| == (if year == Year2024 then 5 else 3)
    ensures r[0] == TeamSection("Leadership", AnyOf(["Faculty President", "Overall Coordinator"]))
    ensures r[|r| - 2] == TeamSection("Coordinators", Single("Coordinator"))
    ensures r[|r| - 1] == TeamSection("Executives", Single("Executive"))
    ensures TeamSection("Panel Members", Single("Panel Member")) in r <==> year == Year2024
    ensures TeamSection("Core Team Members", Single("CTM")) in r <==> year == Year2024
    ensures year == Year2024 ==>
      r[1] == TeamSection("Panel Members", Single("Panel Member"))
      && r[2] == TeamSection("Core Team Members", Single("CTM"))
  {
    var leadership := TeamSection("Leadership", AnyOf(["Faculty President", "Overall Coordinator"]));
    var coordinators := TeamSection("Coordinators", Single("Coordinator"));
    var executives := TeamSection("Executives", Single("Executive"));
    if year == Year2024 then
      [leadership,
       TeamSection("Panel Members", Single("Panel Member")),
       TeamSection("Core Team Members", Single("CTM")),
       coordinators, executives]
    else [leadership, coordinators, executives]
  }

  /** The page opens on 2025-26: its dataset, and no panel or core team section. */
  lemma OpensOnDefaultYear(data2025: seq<Member>, data2024: seq<Member>)
    ensures TeamDataFor(DefaultYear, data2025, data2024) == data2025
    ensures |SectionsFor(DefaultYear)| == 3
  {
  }

  // ---------------------------------------------------------------------------
  // One member card
  // ---------------------------------------------------------------------------

  /** What one card shows: photo, caption, the mobile number when shown, whether the toggle exists. */
  datatype MemberCard = MemberCard(
    photo: string,
    caption: string,
    contactsOpen: bool,
    mobile: Option<string>,
    hasToggle: bool)

  /** The roles whose mobile number is published. */
  const MobileRoles: seq<string> := ["Overall Coordinator", "CTM"]

  /** The card of the `index`-th member of a section, given the section's visible contacts. */
  function Card(m: Member, index: int, year: string, visible: seq<int>): (c: MemberCard)
    ensures c.mobile.Some? <==> m.position in MobileRoles && m.mobile.Some? && m.mobile.value != ""
    ensures c.mobile.Some? ==> c.mobile == m.mobile
    ensures c.hasToggle <==> m.email != ""
    ensures c.contactsOpen <==> index in visible
    ensures c.photo == ImagePath(m.img, year) && Contains(c.photo, YearMarker)
    ensures c.caption == m.field + " " + m.position
  {
    ImagePathHasMarker(m.img, year);
    var showMobile := m.position in MobileRoles && m.mobile.Some? && m.mobile.value != "";
    MemberCard(
      ImagePath(m.img, year),
      m.field + " " + m.position,
      index in visible,
      if showMobile then m.mobile else None,
      m.email != "")
  }
}
