/**
 * The ordering the four list pages apply to a fetched collection: `Array.prototype.sort`
 * (a stable sort) with the comparator `validDateB - validDateA`, where a date that does
 * not parse counts as time 0.
 */
module DateOrder {
  import opened Wrappers
  import opened Content

  /**
   * The sort key of an item: its date parsed to a time (`new Date(d).getTime()`, given
   * here as `parse`, `None` standing for NaN), or 0 when it does not parse.
   */
  function DateKey(parse: string -> Option<int>, s: Summary): (k: int)
    ensures parse(s.date).None? ==> k == 0
    ensures parse(s.date).Some? ==> k == parse(s.date).value
  {
    match parse(s.date)
    case Some(t) => t
    case None => 0
  }

  /** Keys never increase along `xs`: newest first. */
  ghost predicate SortedDesc(xs: seq<Summary>, parse: string -> Option<int>) {
    forall i, j :: 0 <= i < j < |xs| ==> DateKey(parse, xs[i]) >= DateKey(parse, xs[j])
  }

  /** The items of `xs` whose key is `k`, in their order in `xs`. */
  function WithKey(xs: seq<Summary>, parse: string -> Option<int>, k: int): seq<Summary> {
    if |xs| == 0 then []
    else (if DateKey(parse, xs[0]) == k then [xs[0]] else []) + WithKey(xs[1..], parse, k)
  }

  /** Items with equal keys keep their relative order: what a stable sort promises. */
  ghost predicate SameTies(r: seq<Summary>, xs: seq<Summary>, parse: string -> Option<int>) {
    forall k :: WithKey(r, parse, k) == WithKey(xs, parse, k)
  }

  /** `r` is a stable newest-first ordering of `xs`. */
  ghost predicate IsDateOrdered(r: seq<Summary>, xs: seq<Summary>, parse: string -> Option<int>) {
    SortedDesc(r, parse) && multiset(r) == multiset(xs) && SameTies(r, xs, parse)
  }

  /** `x` placed before the first item whose key is not larger than its own. */
  function Insert(x: Summary, ys: seq<Summary>, parse: string -> Option<int>): (r: seq<Summary>)
    ensures multiset(r) == multiset(ys) + multiset{x}
    ensures |r| == |ys| + 1 && (r[0] == x || (|ys| > 0 && r[0] == ys[0]))
  {
    if |ys| == 0 then [x]
    else if DateKey(parse, x) >= DateKey(parse, ys[0]) then [x] + ys
    else
      assert ys == [ys[0]] + ys[1..];
      [ys[0]] + Insert(x, ys[1..], parse)
  }

  /** Inserting into a newest-first list keeps it newest first. */
  lemma {:induction false} InsertSorted(x: Summary, ys: seq<Summary>, parse: string -> Option<int>)
    requires SortedDesc(ys, parse)
    ensures SortedDesc(Insert(x, ys, parse), parse)
  {
    if |ys| > 0 && DateKey(parse, x) < DateKey(parse, ys[0]) {
      var rest := Insert(x, ys[1..], parse);
      InsertSorted(x, ys[1..], parse);
      assert DateKey(parse, ys[0]) >= DateKey(parse, rest[0]);
      SortedCons(ys[0], rest, parse);
      assert Insert(x, ys, parse) == [ys[0]] + rest;
    }
  }

  /** A newest-first list stays so when an item at least as new as its head is put in front. */
  lemma SortedCons(y: Summary, rest: seq<Summary>, parse: string -> Option<int>)
    requires SortedDesc(rest, parse)
    requires |rest| > 0 ==> DateKey(parse, y) >= DateKey(parse, rest[0])
    ensures SortedDesc([y] + rest, parse)
  {
    var r := [y] + rest;
    forall i, j | 0 <= i < j < |r| ensures DateKey(parse, r[i]) >= DateKey(parse, r[j]) {
      if i == 0 {
        assert r[j] == rest[j - 1];
        assert DateKey(parse, rest[0]) >= DateKey(parse, rest[j - 1]) || j == 1;
      } else {
        assert r[i] == rest[i - 1] && r[j] == rest[j - 1];
      }
    }
  }

  /** The list pages' sort, as the insertion sort of the items from last to first. */
  function SortByDate(xs: seq<Summary>, parse: string -> Option<int>): (r: seq<Summary>)
    ensures SortedDesc(r, parse)
    ensures multiset(r) == multiset(xs)
  {
    if |xs| == 0 then []
    else
      assert xs == [xs[0]] + xs[1..];
      var rest := SortByDate(xs[1..], parse);
      InsertSorted(xs[0], rest, parse);
      Insert(xs[0], rest, parse)
  }

  lemma WithKeyCons(x: Summary, ys: seq<Summary>, parse: string -> Option<int>, k: int)
    ensures WithKey([x] + ys, parse, k)
         == (if DateKey(parse, x) == k then [x] else []) + WithKey(ys, parse, k)
  {
    assert ([x] + ys)[1..] == ys;
  }

  /** Inserting `x` adds it in front of the items that share its key, and nowhere else. */
  lemma {:induction false} InsertWithKey(x: Summary, ys: seq<Summary>, parse: string -> Option<int>, k: int)
    ensures WithKey(Insert(x, ys, parse), parse, k)
         == (if DateKey(parse, x) == k then [x] else []) + WithKey(ys, parse, k)
  {
    if |ys| == 0 {
    } else if DateKey(parse, x) >= DateKey(parse, ys[0]) {
      WithKeyCons(x, ys, parse, k);
    } else {
      InsertWithKey(x, ys[1..], parse, k);
      InsertWithKeyPast(x, ys, parse, k);
    }
  }

  /** The step of `InsertWithKey` where `x` moves past the strictly newer head of `ys`. */
  lemma InsertWithKeyPast(x: Summary, ys: seq<Summary>, parse: string -> Option<int>, k: int)
    requires |ys| > 0 && DateKey(parse, x) < DateKey(parse, ys[0])
    requires WithKey(Insert(x, ys[1..], parse), parse, k)
          == (if DateKey(parse, x) == k then [x] else []) + WithKey(ys[1..], parse, k)
    ensures WithKey(Insert(x, ys, parse), parse, k)
         == (if DateKey(parse, x) == k then [x] else []) + WithKey(ys, parse, k)
  {
    var rest := Insert(x, ys[1..], parse);
    var head := if DateKey(parse, ys[0]) == k then [ys[0]] else [];
    var mine := if DateKey(parse, x) == k then [x] else [];
    var tail := WithKey(ys[1..], parse, k);
    assert WithKey(Insert(x, ys, parse), parse, k) == head + WithKey(rest, parse, k) by {
      assert Insert(x, ys, parse) == [ys[0]] + rest;
      WithKeyCons(ys[0], rest, parse, k);
    }
    assert WithKey(ys, parse, k) == head + tail by {
      assert ys == [ys[0]] + ys[1..];
      WithKeyCons(ys[0], ys[1..], parse, k);
    }
    SwapEmpty(head, mine, tail);
  }

  /** Two groups of which one is empty can be prepended in either order. */
  lemma SwapEmpty(a: seq<Summary>, b: seq<Summary>, t: seq<Summary>)
    requires a == [] || b == []
    ensures a + (b + t) == b + (a + t)
  {
  }


  /** The sort is stable: items with equal keys keep their fetched order. */
  lemma {:induction false} SortByDateStable(xs: seq<Summary>, parse: string -> Option<int>, k: int)
    ensures WithKey(SortByDate(xs, parse), parse, k) == WithKey(xs, parse, k)
  {
    if |xs| > 0 {
      SortByDateStable(xs[1..], parse, k);
      InsertWithKey(xs[0], SortByDate(xs[1..], parse), parse, k);
      assert xs == [xs[0]] + xs[1..];
      WithKeyCons(xs[0], xs[1..], parse, k);
    }
  }

  /** The sort meets the whole ordering contract. */
  lemma SortByDateOrders(xs: seq<Summary>, parse: string -> Option<int>)
    ensures IsDateOrdered(SortByDate(xs, parse), xs, parse)
  {
    forall k ensures WithKey(SortByDate(xs, parse), parse, k) == WithKey(xs, parse, k) {
      SortByDateStable(xs, parse, k);
    }
  }

  /** An item is kept by `WithKey` exactly when it has that key. */
  lemma {:induction false} WithKeyMembers(xs: seq<Summary>, parse: string -> Option<int>, k: int, z: Summary)
    ensures z in WithKey(xs, parse, k) <==> z in xs && DateKey(parse, z) == k
  {
    if |xs| > 0 {
      WithKeyMembers(xs[1..], parse, k, z);
      assert xs == [xs[0]] + xs[1..];
    }
  }

  /** The first item of a newest-first list is the first item `WithKey` keeps for its key. */
  lemma WithKeyHead(xs: seq<Summary>, parse: string -> Option<int>)
    requires |xs| > 0
    ensures WithKey(xs, parse, DateKey(parse, xs[0]))
         == [xs[0]] + WithKey(xs[1..], parse, DateKey(parse, xs[0]))
  {
  }

  /** A non-empty list has a non-empty group for the key of its first item. */
  lemma NonEmptyHasTies(xs: seq<Summary>, parse: string -> Option<int>)
    ensures |xs| > 0 ==> WithKey(xs, parse, DateKey(parse, xs[0])) != []
  {
  }

  /**
   * The ordering contract determines the result: two newest-first lists that agree on
   * the order of every group of equal keys are the same list.
   */
  lemma {:induction false} DateOrderUnique(a: seq<Summary>, b: seq<Summary>, parse: string -> Option<int>)
    requires SortedDesc(a, parse) && SortedDesc(b, parse) && SameTies(a, b, parse)
    ensures a == b
    decreases |a| + |b|
  {
    if |a| == 0 || |b| == 0 {
      NonEmptyHasTies(a, parse);
      NonEmptyHasTies(b, parse);
    } else {
      var ka, kb := DateKey(parse, a[0]), DateKey(parse, b[0]);
      WithKeyHead(a, parse);
      WithKeyHead(b, parse);
      assert ka == kb by {
        WithKeyMembers(b, parse, ka, a[0]);
        WithKeyMembers(a, parse, kb, b[0]);
        assert a[0] in WithKey(b, parse, ka);
        assert b[0] in WithKey(a, parse, kb);
      }
      assert a[0] == b[0] by {
        assert WithKey(a, parse, ka)[0] == WithKey(b, parse, ka)[0];
      }
      forall k ensures WithKey(a[1..], parse, k) == WithKey(b[1..], parse, k) {
        assert a == [a[0]] + a[1..] && b == [b[0]] + b[1..];
        WithKeyCons(a[0], a[1..], parse, k);
        WithKeyCons(b[0], b[1..], parse, k);
        var head := if DateKey(parse, a[0]) == k then [a[0]] else [];
        var wa, wb := WithKey(a[1..], parse, k), WithKey(b[1..], parse, k);
        assert head + wa == head + wb;
        assert (head + wa)[|head|..] == wa && (head + wb)[|head|..] == wb;
      }
      DateOrderUnique(a[1..], b[1..], parse);
      assert a == [a[0]] + a[1..] && b == [b[0]] + b[1..];
    }
  }

  /** Any list meeting the ordering contract is exactly what the sort returns. */
  lemma DateOrderIsSort(r: seq<Summary>, xs: seq<Summary>, parse: string -> Option<int>)
    requires IsDateOrdered(r, xs, parse)
    ensures r == SortByDate(xs, parse)
  {
    SortByDateOrders(xs, parse);
    DateOrderUnique(r, SortByDate(xs, parse), parse);
  }

  /**
   * The epoch stands in for an unparseable date, so an undated item comes after every item
   * dated after 1970 and before every item dated before it.
   */
  lemma UndatedSortsAtEpoch(r: seq<Summary>, parse: string -> Option<int>, i: nat, j: nat)
    requires SortedDesc(r, parse) && i < |r| && j < |r|
    requires parse(r[i].date).None?
    ensures parse(r[j].date).Some? && parse(r[j].date).value > 0 ==> j < i
    ensures parse(r[j].date).Some? && parse(r[j].date).value < 0 ==> i < j
  {
  }

  /** A strictly newer item always comes first; equal keys leave the order to the fetch. */
  lemma NewerComesFirst(r: seq<Summary>, parse: string -> Option<int>, i: nat, j: nat)
    requires SortedDesc(r, parse) && i < |r| && j < |r|
    requires DateKey(parse, r[i]) > DateKey(parse, r[j])
    ensures i < j
  {
  }
}
