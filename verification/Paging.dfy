/** Cursor paging over the state items of one account. */
module Paging {
  import opened Prelude

  datatype Item =
    | Module(id: nat, code: nat)
    | Resource(tag: nat, bytes: nat)
    | ResourceGroup(groupTag: nat, groupBytes: nat)
    | Malformed     // a read error, a path that does not parse, or a foreign key

  /** A state item and its position in the key order. */
  datatype Entry = Entry(key: nat, item: Item)

  /** The account's items in key order, with the functions that rebuild keys from ids and tags. */
  datatype Store = Store(entries: seq<Entry>, moduleKey: nat -> nat, resourceKey: nat -> nat)

  datatype Listing = Modules | Resources

  predicate Ascending(es: seq<Entry>) {
    forall i, j :: 0 <= i < j < |es| ==> es[i].key < es[j].key
  }

  /** Keys ascend and a module's or plain resource's key is the one rebuilt from it. */
  predicate ValidStore(s: Store) {
    && Ascending(s.entries)
    && (forall i :: 0 <= i < |s.entries| ==>
          match s.entries[i].item
          case Module(id, _) => s.entries[i].key == s.moduleKey(id)
          case Resource(tag, _) => s.entries[i].key == s.resourceKey(tag)
          case _ => true)
  }

  /** The items a listing returns or stumbles over. */
  predicate Relevant(l: Listing, item: Item) {
    match item
    case Module(_, _) => l.Modules?
    case Resource(_, _) => l.Resources?
    case ResourceGroup(_, _) => l.Resources?
    case Malformed => true
  }

  /** The iterator starts at the cursor, inclusively. */
  function Seek(es: seq<Entry>, cursor: Option<nat>): (r: seq<Entry>)
    ensures |r| <= |es|
  {
    if cursor.None? || es == [] || es[0].key >= cursor.value then es else Seek(es[1..], cursor)
  }

  function Filter(l: Listing, es: seq<Entry>): seq<Entry> {
    if es == [] then [] else (if Relevant(l, es[0].item) then [es[0]] else []) + Filter(l, es[1..])
  }

  /** collect::<Result<_>>: the items, or None at the first bad one. */
  function Collect(es: seq<Entry>): Option<seq<Item>> {
    if es == [] then Some([])
    else
      var rest := Collect(es[1..]);
      if es[0].item.Malformed? || rest.None? then None else Some([es[0].item] + rest.value)
  }

  /** The cursor that resumes at the given item; a resource group gets a plain resource key too. */
  function CursorFor(s: Store, item: Item): nat
    requires !item.Malformed?
  {
    match item
    case Module(id, _) => s.moduleKey(id)
    case Resource(tag, _) => s.resourceKey(tag)
    case ResourceGroup(tag, _) => s.resourceKey(tag)
  }

  datatype Page = Page(items: seq<Item>, next: Option<nat>)

  /** One page, or None when it meets a bad item among the first limit + 1. */
  function GetPage(s: Store, l: Listing, cursor: Option<nat>, limit: nat): Option<Page> {
    var found := Take(Filter(l, Seek(s.entries, cursor)), limit + 1);
    var items := Collect(Take(found, limit));
    if items.None? then None
    else if |found| <= limit then Some(Page(items.value, None))
    else if found[limit].item.Malformed? then None
    else Some(Page(items.value, Some(CursorFor(s, found[limit].item))))
  }

  // ---------------------------------------------------------------- where a cursor lands

  lemma {:induction false} FilterMembers(l: Listing, es: seq<Entry>)
    ensures |Filter(l, es)| <= |es|
    ensures forall e :: e in Filter(l, es) <==> e in es && Relevant(l, e.item)
  {
    if es != [] {
      FilterMembers(l, es[1..]);
      assert forall e :: e in es <==> e == es[0] || e in es[1..];
    }
  }

  lemma {:induction false} FilterAscends(l: Listing, es: seq<Entry>)
    requires Ascending(es)
    ensures Ascending(Filter(l, es))
  {
    if es != [] {
      FilterAscends(l, es[1..]);
      FilterMembers(l, es[1..]);
      var rest := Filter(l, es[1..]);
      forall k | 0 <= k < |rest| ensures es[0].key < rest[k].key {
        TailAbove(es, rest[k]);
      }
    }
  }

  lemma TailAbove(es: seq<Entry>, e: Entry)
    requires Ascending(es) && es != [] && e in es[1..]
    ensures es[0].key < e.key
  {
    var n :| 0 <= n < |es[1..]| && es[1..][n] == e;
    assert es[n + 1] == e;
  }

  lemma FilterFacts(l: Listing, es: seq<Entry>)
    requires Ascending(es)
    ensures Ascending(Filter(l, es)) && |Filter(l, es)| <= |es|
    ensures forall e :: e in Filter(l, es) <==> e in es && Relevant(l, e.item)
  {
    FilterMembers(l, es);
    FilterAscends(l, es);
  }

  /** The entries before position p are those below the cursor. */
  ghost predicate SplitsAt(es: seq<Entry>, c: nat, p: nat) {
    && p <= |es|
    && (forall k :: 0 <= k < p ==> es[k].key < c)
    && (forall k :: p <= k < |es| ==> es[k].key >= c)
  }

  lemma SplitsCons(e: Entry, es: seq<Entry>, c: nat, p: nat)
    requires e.key < c && SplitsAt(es, c, p)
    ensures SplitsAt([e] + es, c, p + 1) && ([e] + es)[p + 1..] == es[p..]
  {
    var all := [e] + es;
    assert forall k :: 0 < k < |all| ==> all[k] == es[k - 1];
  }

  lemma SplitsNowhere(l: Listing, es: seq<Entry>, c: nat)
    requires Ascending(es) && (es == [] || es[0].key >= c)
    ensures SplitsAt(Filter(l, es), c, 0)
  {
    var all := Filter(l, es);
    FilterFacts(l, es);
    forall k | 0 <= k < |all| ensures all[k].key >= c {
      assert all[k] in es;
    }
  }

  /** Seeking and then filtering drops exactly the filtered entries below the cursor. */
  lemma {:induction false} SeekDrops(l: Listing, es: seq<Entry>, c: nat) returns (p: nat)
    requires Ascending(es)
    ensures SplitsAt(Filter(l, es), c, p) && Filter(l, Seek(es, Some(c))) == Filter(l, es)[p..]
  {
    if es == [] || es[0].key >= c {
      p := 0;
      SplitsNowhere(l, es, c);
    } else {
      p := SeekDrops(l, es[1..], c);
      if Relevant(l, es[0].item) {
        SplitsCons(es[0], Filter(l, es[1..]), c, p);
        p := p + 1;
      }
    }
  }

  /**
   Exactly when a cursor resumes at the p-th relevant item: no relevant item before it has a
   key at or above the cursor, and its own key is not below the cursor.
   */
  lemma CursorExact(s: Store, l: Listing, c: nat, p: nat)
    requires ValidStore(s) && p < |Filter(l, s.entries)|
    ensures var all := Filter(l, s.entries);
            Filter(l, Seek(s.entries, Some(c))) == all[p..] <==> c <= all[p].key && (p == 0 || all[p - 1].key < c)
  {
    var all := Filter(l, s.entries);
    FilterFacts(l, s.entries);
    var q := SeekDrops(l, s.entries, c);
    if all[q..] == all[p..] {
      assert |all| - q == |all| - p;
    }
  }

  /** The cursor built from an item resumes at that item, for modules and plain resources. */
  lemma CursorResumes(s: Store, l: Listing, p: nat)
    requires ValidStore(s) && p < |Filter(l, s.entries)|
    requires Filter(l, s.entries)[p].item.Module? || Filter(l, s.entries)[p].item.Resource?
    ensures Filter(l, Seek(s.entries, Some(CursorFor(s, Filter(l, s.entries)[p].item)))) == Filter(l, s.entries)[p..]
  {
    var all := Filter(l, s.entries);
    FilterFacts(l, s.entries);
    assert all[p] in s.entries;
    CursorExact(s, l, all[p].key, p);
  }

  /**
   The cursor of the p-th item returns the item before it again exactly when it does not lie above
   that item's key. Only a resource group's cursor can do that.
   */
  lemma CursorRepeatsIff(s: Store, l: Listing, p: nat)
    requires ValidStore(s) && 0 < p < |Filter(l, s.entries)| && !Filter(l, s.entries)[p].item.Malformed?
    ensures var all := Filter(l, s.entries);
            var c := CursorFor(s, all[p].item);
            && (all[p - 1] in Filter(l, Seek(s.entries, Some(c))) <==> c <= all[p - 1].key)
            && (c <= all[p - 1].key ==> all[p].item.ResourceGroup?)
  {
    var all := Filter(l, s.entries);
    var c := CursorFor(s, all[p].item);
    FilterFacts(l, s.entries);
    assert all[p] in s.entries;
    var q := SeekDrops(l, s.entries, c);
    if q <= p - 1 {
      assert all[q..][p - 1 - q] == all[p - 1];
    } else {
      assert forall k :: 0 <= k < |all[q..]| ==> all[q..][k] == all[q + k];
    }
  }

  // ---------------------------------------------------------------- following cursors

  function From(s: Store, l: Listing, cursor: Option<nat>): seq<Entry> {
    Filter(l, Seek(s.entries, cursor))
  }

  /**
   Exactly what is listed from a cursor on: the entries at or after it that are bad or of the
   listing's kind, modules for one and resources and resource groups for the other.
   */
  lemma ListingExactly(s: Store, l: Listing, cursor: Option<nat>, e: Entry)
    requires ValidStore(s)
    ensures e in From(s, l, cursor) <==>
            && e in s.entries && (cursor.Some? ==> e.key >= cursor.value)
            && (|| e.item.Malformed?
                || (l == Modules && e.item.Module?)
                || (l == Resources && (e.item.Resource? || e.item.ResourceGroup?)))
  {
    var all := Filter(l, s.entries);
    FilterFacts(l, s.entries);
    if cursor.Some? {
      var p := SeekDrops(l, s.entries, cursor.value);
      if e in all && e.key >= cursor.value {
        var k :| 0 <= k < |all| && all[k] == e;
        assert all[p..][k - p] == e;
      }
    }
  }

  /** A page is as long as the limit allows and has a next cursor exactly when more is left. */
  lemma PageIsFull(s: Store, l: Listing, cursor: Option<nat>, limit: nat)
    requires GetPage(s, l, cursor, limit).Some?
    ensures var page, rest := GetPage(s, l, cursor, limit).value, From(s, l, cursor);
            && |page.items| == Min(limit, |rest|) && (page.next.Some? <==> |rest| > limit)
            && forall k :: 0 <= k < |page.items| ==> page.items[k] == rest[k].item
  {
    var rest := From(s, l, cursor);
    var first := Take(Take(rest, limit + 1), limit);
    if first != [] {
      forall k | 0 <= k < |first| ensures |Collect(first).value| == |first| && Collect(first).value[k] == rest[k].item {
        CollectItems(first, k);
      }
      CollectItems(first, 0);
    }
  }

  lemma SuffixOfAll(s: Store, l: Listing, cursor: Option<nat>) returns (p: nat)
    requires ValidStore(s)
    ensures p <= |Filter(l, s.entries)| && From(s, l, cursor) == Filter(l, s.entries)[p..]
  {
    if cursor.None? {
      p := 0;
    } else {
      p := SeekDrops(l, s.entries, cursor.value);
    }
  }

  /** A page has a next cursor when more than `limit` items are left; it is built from the next one. */
  lemma NextItem(s: Store, l: Listing, cursor: Option<nat>, limit: nat)
    requires GetPage(s, l, cursor, limit).Some? && GetPage(s, l, cursor, limit).value.next.Some?
    ensures var rest := From(s, l, cursor);
            && |rest| > limit && !rest[limit].item.Malformed?
            && GetPage(s, l, cursor, limit).value.next.value == CursorFor(s, rest[limit].item)
  {
  }

  /** The cursor of item n of rest lies above the item before it and not above the item itself. */
  predicate CleanBoundary(s: Store, rest: seq<Entry>, n: nat)
    requires 0 < n < |rest| && !rest[n].item.Malformed?
  {
    rest[n - 1].key < CursorFor(s, rest[n].item) <= rest[n].key
  }

  lemma ResumesIff(s: Store, l: Listing, cursor: Option<nat>, n: nat, rest: seq<Entry>)
    requires ValidStore(s) && rest == From(s, l, cursor) && 0 < n < |rest| && !rest[n].item.Malformed?
    ensures From(s, l, Some(CursorFor(s, rest[n].item))) == rest[n..] <==> CleanBoundary(s, rest, n)
  {
    var p := SuffixOfAll(s, l, cursor);
    ResumesAt(s, l, Filter(l, s.entries), p, n, CursorFor(s, rest[n].item));
  }

  lemma ResumesAt(s: Store, l: Listing, all: seq<Entry>, p: nat, n: nat, c: nat)
    requires ValidStore(s) && all == Filter(l, s.entries) && 0 < n && p + n < |all|
    ensures From(s, l, Some(c)) == all[p..][n..] <==> all[p..][n - 1].key < c <= all[p..][n].key
  {
    SliceFacts(all, p, n);
    CursorExact(s, l, c, p + n);
  }

  lemma SliceFacts(all: seq<Entry>, p: nat, n: nat)
    requires 0 < n && p + n < |all|
    ensures all[p..][n] == all[p + n] && all[p..][n - 1] == all[p + n - 1] && all[p..][n..] == all[p + n..]
  {
  }

  /** The next page starts at the first item left out if and only if the boundary is clean. */
  lemma NextContinuesIff(s: Store, l: Listing, cursor: Option<nat>, limit: nat)
    requires ValidStore(s) && limit > 0
    requires GetPage(s, l, cursor, limit).Some? && GetPage(s, l, cursor, limit).value.next.Some?
    ensures var rest := From(s, l, cursor);
            && |rest| > limit && !rest[limit].item.Malformed?
            && (From(s, l, GetPage(s, l, cursor, limit).value.next) == rest[limit..] <==> CleanBoundary(s, rest, limit))
  {
    NextItem(s, l, cursor, limit);
    ResumesIff(s, l, cursor, limit, From(s, l, cursor));
  }

  /** Every page boundary met from here on is clean, up to the first bad item at a boundary. */
  predicate Boundaries(s: Store, rest: seq<Entry>, limit: nat)
    requires limit > 0
    decreases |rest|
  {
    || |rest| <= limit
    || rest[limit].item.Malformed?
    || (CleanBoundary(s, rest, limit) && Boundaries(s, rest[limit..], limit))
  }

  /** No page boundary met from here on falls on a resource group. */
  predicate NoGroupBoundary(rest: seq<Entry>, limit: nat)
    requires limit > 0
    decreases |rest|
  {
    |rest| <= limit || (!rest[limit].item.ResourceGroup? && NoGroupBoundary(rest[limit..], limit))
  }

  lemma {:induction false} PlainBoundaries(s: Store, rest: seq<Entry>, limit: nat)
    requires ValidStore(s) && limit > 0 && Ascending(rest) && NoGroupBoundary(rest, limit)
    requires forall k :: 0 <= k < |rest| ==> rest[k] in s.entries
    ensures Boundaries(s, rest, limit)
    decreases |rest|
  {
    if |rest| > limit && !rest[limit].item.Malformed? {
      assert rest[limit] in s.entries;
      PlainBoundaries(s, rest[limit..], limit);
    }
  }

  lemma FromFacts(s: Store, l: Listing, cursor: Option<nat>)
    requires ValidStore(s)
    ensures var rest := From(s, l, cursor);
            Ascending(rest) && forall k :: 0 <= k < |rest| ==> rest[k] in s.entries && Relevant(l, rest[k].item)
  {
    var all := Filter(l, s.entries);
    var p := SuffixOfAll(s, l, cursor);
    FilterFacts(l, s.entries);
    SuffixFacts(s, l, all, p);
  }

  lemma SuffixFacts(s: Store, l: Listing, all: seq<Entry>, p: nat)
    requires p <= |all| && Ascending(all) && forall e :: e in all ==> e in s.entries && Relevant(l, e.item)
    ensures Ascending(all[p..]) && forall k :: 0 <= k < |all[p..]| ==> all[p..][k] in s.entries && Relevant(l, all[p..][k].item)
  {
    forall k | 0 <= k < |all[p..]| ensures all[p..][k] in all {
      assert all[p..][k] == all[p + k];
    }
  }

  lemma {:induction false} NoGroups(rest: seq<Entry>, limit: nat)
    requires limit > 0 && forall k :: 0 <= k < |rest| ==> !rest[k].item.ResourceGroup?
    ensures NoGroupBoundary(rest, limit)
    decreases |rest|
  {
    if |rest| > limit {
      NoGroups(rest[limit..], limit);
    }
  }

  /** All pages from a cursor on, concatenated; None as soon as one page fails. */
  function WalkPages(s: Store, l: Listing, cursor: Option<nat>, limit: nat): Option<seq<Item>>
    requires ValidStore(s) && limit > 0 && Boundaries(s, From(s, l, cursor), limit)
    decreases |From(s, l, cursor)|
  {
    var page := GetPage(s, l, cursor, limit);
    if page.None? then None
    else if page.value.next.None? then Some(page.value.items)
    else
      NextContinuesIff(s, l, cursor, limit);
      var rest := WalkPages(s, l, page.value.next, limit);
      if rest.None? then None else Some(page.value.items + rest.value)
  }

  lemma {:induction false} CollectSplit(es: seq<Entry>, n: nat)
    requires n <= |es|
    ensures var a, b := Collect(es[..n]), Collect(es[n..]);
            Collect(es) == if a.None? || b.None? then None else Some(a.value + b.value)
  {
    if n == 0 {
      assert es[0..] == es && es[..0] == [];
      if Collect(es).Some? {
        assert [] + Collect(es).value == Collect(es).value;
      }
    } else {
      CollectSplit(es[1..], n - 1);
      assert es[..n][1..] == es[1..][..n - 1] && es[n..] == es[1..][n - 1..];
      var a, b := Collect(es[1..][..n - 1]), Collect(es[n..]);
      if a.Some? && b.Some? {
        assert [es[0].item] + (a.value + b.value) == ([es[0].item] + a.value) + b.value;
      }
    }
  }

  /**
   When every boundary is clean, following cursors ends and the pages together are the whole
   list in order, nothing lost and nothing repeated; the walk fails exactly when some item is bad.
   */
  lemma {:induction false} WalkIsComplete(s: Store, l: Listing, cursor: Option<nat>, limit: nat)
    requires ValidStore(s) && limit > 0 && Boundaries(s, From(s, l, cursor), limit)
    ensures WalkPages(s, l, cursor, limit) == Collect(From(s, l, cursor))
    decreases |From(s, l, cursor)|
  {
    var rest := From(s, l, cursor);
    var page := GetPage(s, l, cursor, limit);
    var found := Take(rest, limit + 1);
    if |rest| > limit {
      assert Take(found, limit) == rest[..limit];
      CollectSplit(rest, limit);
      if page.Some? {
        NextContinuesIff(s, l, cursor, limit);
        WalkIsComplete(s, l, page.value.next, limit);
      }
    } else {
      assert Take(found, limit) == rest;
    }
  }

  /** The items of all pages when the walk ends with its n-th page; None if it fails or does not end there. */
  function Collected(s: Store, l: Listing, cursor: Option<nat>, limit: nat, n: nat): Option<seq<Item>>
    decreases n
  {
    var page := GetPage(s, l, cursor, limit);
    if n == 0 || page.None? then None
    else if page.value.next.None? then if n == 1 then Some(page.value.items) else None
    else
      var rest := Collected(s, l, page.value.next, limit, n - 1);
      if rest.None? then None else Some(page.value.items + rest.value)
  }

  /** The walk ends, after some number of pages, with exactly the items left from the cursor on. */
  ghost predicate WalkYieldsAll(s: Store, l: Listing, cursor: Option<nat>, limit: nat) {
    exists n :: 0 <= n && Collected(s, l, cursor, limit, n).Some?
                && Collected(s, l, cursor, limit, n) == Collect(From(s, l, cursor))
  }

  predicate DistinctItems(es: seq<Entry>) {
    forall i, j :: 0 <= i < j < |es| ==> es[i].item != es[j].item
  }

  lemma {:induction false} CleanWalkEnds(s: Store, l: Listing, cursor: Option<nat>, limit: nat) returns (n: nat)
    requires ValidStore(s) && limit > 0 && Boundaries(s, From(s, l, cursor), limit)
    ensures n > 0 && (WalkPages(s, l, cursor, limit).Some? ==>
              Collected(s, l, cursor, limit, n) == WalkPages(s, l, cursor, limit))
    decreases |From(s, l, cursor)|
  {
    var page := GetPage(s, l, cursor, limit);
    n := 1;
    if page.Some? && page.value.next.Some? {
      NextContinuesIff(s, l, cursor, limit);
      var m := CleanWalkEnds(s, l, page.value.next, limit);
      n := m + 1;
    }
  }

  lemma {:induction false} CollectItems(es: seq<Entry>, k: nat)
    requires Collect(es).Some? && k < |es|
    ensures |Collect(es).value| == |es| && Collect(es).value[k] == es[k].item
  {
    if |es| > 1 {
      CollectItems(es[1..], if k == 0 then 0 else k - 1);
    } else {
      assert es[1..] == [];
    }
  }

  /** What an ended walk has collected starts with the first item left, if there is one. */
  lemma CollectedFirst(s: Store, l: Listing, cursor: Option<nat>, limit: nat, n: nat)
    requires limit > 0 && Collected(s, l, cursor, limit, n).Some?
    ensures var rest, items := From(s, l, cursor), Collected(s, l, cursor, limit, n).value;
            if rest == [] then items == [] else items != [] && items[0] == rest[0].item
  {
    var rest := From(s, l, cursor);
    var page := Take(Take(rest, limit + 1), limit);
    if rest != [] {
      assert page[0] == rest[0];
      CollectItems(page, 0);
    }
  }

  lemma PageSplits(s: Store, l: Listing, cursor: Option<nat>, limit: nat)
    requires GetPage(s, l, cursor, limit).Some? && GetPage(s, l, cursor, limit).value.next.Some?
    requires Collect(From(s, l, cursor)).Some?
    ensures var rest := From(s, l, cursor);
            && |rest| > limit && Collect(rest[limit..]).Some?
            && Collect(rest).value == GetPage(s, l, cursor, limit).value.items + Collect(rest[limit..]).value
  {
    var rest := From(s, l, cursor);
    assert Take(Take(rest, limit + 1), limit) == rest[..limit];
    CollectSplit(rest, limit);
  }

  /** Two ends of one list that start with the same item are the same. */
  lemma SameSuffix(all: seq<Entry>, p: nat, q: nat)
    requires DistinctItems(all) && p < |all| && q < |all| && all[p].item == all[q].item
    ensures p == q
  {
    assert p < q || q < p || p == q;
  }

  lemma BoundaryWasClean(s: Store, l: Listing, cursor: Option<nat>, limit: nat, n: nat)
    requires ValidStore(s) && limit > 0 && DistinctItems(Filter(l, s.entries))
    requires GetPage(s, l, cursor, limit).Some? && GetPage(s, l, cursor, limit).value.next.Some?
    requires var rest := From(s, l, cursor);
             var next := GetPage(s, l, cursor, limit).value.next;
             && |rest| > limit && Collect(rest[limit..]).Some?
             && Collected(s, l, next, limit, n) == Collect(rest[limit..])
    ensures From(s, l, GetPage(s, l, cursor, limit).value.next) == From(s, l, cursor)[limit..]
  {
    var all, rest := Filter(l, s.entries), From(s, l, cursor);
    var next := GetPage(s, l, cursor, limit).value.next;
    var p := SuffixOfAll(s, l, cursor);
    var q := SuffixOfAll(s, l, next);
    CollectedFirst(s, l, next, limit, n);
    CollectItems(rest[limit..], 0);
    assert rest[limit] == all[p + limit] && rest[limit..] == all[p + limit..];
    assert q < |all| ==> all[q..][0] == all[q];
    SameSuffix(all, p + limit, q);
  }

  lemma {:induction false} CompleteWalkIsClean(s: Store, l: Listing, cursor: Option<nat>, limit: nat, n: nat)
    requires ValidStore(s) && limit > 0 && DistinctItems(Filter(l, s.entries))
    requires Collected(s, l, cursor, limit, n).Some? && Collected(s, l, cursor, limit, n) == Collect(From(s, l, cursor))
    ensures Boundaries(s, From(s, l, cursor), limit)
    decreases n
  {
    var rest, page := From(s, l, cursor), GetPage(s, l, cursor, limit).value;
    if page.next.Some? {
      PageSplits(s, l, cursor, limit);
      var later := Collected(s, l, page.next, limit, n - 1).value;
      assert (page.items + later)[|page.items|..] == later;
      assert (page.items + Collect(rest[limit..]).value)[|page.items|..] == Collect(rest[limit..]).value;
      BoundaryWasClean(s, l, cursor, limit, n - 1);
      NextContinuesIff(s, l, cursor, limit);
      CompleteWalkIsClean(s, l, page.next, limit, n - 1);
    }
  }

  /**
   For distinct items and no bad one: following cursors ends with exactly the items of the list, in
   order, if and only if every boundary met is clean. Otherwise it loses or repeats items, or never ends.
   */
  lemma WalkCompleteIff(s: Store, l: Listing, cursor: Option<nat>, limit: nat)
    requires ValidStore(s) && limit > 0 && DistinctItems(Filter(l, s.entries)) && Collect(From(s, l, cursor)).Some?
    ensures WalkYieldsAll(s, l, cursor, limit) <==> Boundaries(s, From(s, l, cursor), limit)
  {
    if Boundaries(s, From(s, l, cursor), limit) {
      WalkIsComplete(s, l, cursor, limit);
      var n := CleanWalkEnds(s, l, cursor, limit);
    }
    if WalkYieldsAll(s, l, cursor, limit) {
      var n: nat :| Collected(s, l, cursor, limit, n).Some? && Collected(s, l, cursor, limit, n) == Collect(From(s, l, cursor));
      CompleteWalkIsClean(s, l, cursor, limit, n);
    }
  }

  /** Modules: for every cursor and every limit of at least 1 the walk is complete. */
  lemma ModuleWalkIsComplete(s: Store, cursor: Option<nat>, limit: nat)
    requires ValidStore(s) && limit > 0
    ensures Boundaries(s, From(s, Modules, cursor), limit)
    ensures WalkPages(s, Modules, cursor, limit) == Collect(From(s, Modules, cursor))
  {
    FromFacts(s, Modules, cursor);
    NoGroups(From(s, Modules, cursor), limit);
    PlainBoundaries(s, From(s, Modules, cursor), limit);
    WalkIsComplete(s, Modules, cursor, limit);
  }

  /** Resources: the walk is complete when no page boundary falls on a resource group. */
  lemma ResourceWalkIsComplete(s: Store, cursor: Option<nat>, limit: nat)
    requires ValidStore(s) && limit > 0 && NoGroupBoundary(From(s, Resources, cursor), limit)
    ensures Boundaries(s, From(s, Resources, cursor), limit)
    ensures WalkPages(s, Resources, cursor, limit) == Collect(From(s, Resources, cursor))
  {
    FromFacts(s, Resources, cursor);
    PlainBoundaries(s, From(s, Resources, cursor), limit);
    WalkIsComplete(s, Resources, cursor, limit);
  }

  lemma {:induction false} CollectFails(es: seq<Entry>)
    ensures Collect(es).None? <==> exists e :: e in es && e.item.Malformed?
  {
    if es != [] {
      CollectFails(es[1..]);
      assert forall e :: e in es <==> e == es[0] || e in es[1..];
    }
  }

  /** With a limit of zero the cursor of a module page never moves. */
  lemma ZeroLimitSticks(s: Store, p: nat)
    requires ValidStore(s) && p < |Filter(Modules, s.entries)| && Filter(Modules, s.entries)[p].item.Module?
    ensures var cursor := Some(CursorFor(s, Filter(Modules, s.entries)[p].item));
            GetPage(s, Modules, cursor, 0) == Some(Page([], cursor))
  {
    CursorResumes(s, Modules, p);
  }

  // ---------------------------------------------------------------- walks that never end

  /** The cursor after n more pages; None once a page fails or has no next cursor. */
  function Follow(s: Store, l: Listing, cursor: Option<nat>, limit: nat, n: nat): Option<Option<nat>>
    decreases n
  {
    if n == 0 then Some(cursor)
    else
      var page := GetPage(s, l, cursor, limit);
      if page.None? || page.value.next.None? then None else Follow(s, l, page.value.next, limit, n - 1)
  }

  /**
   More than `limit` resource groups in a row from position g, whose plain keys all sort at or
   below the first of them, and nothing before them that leads past them.
   */
  predicate GroupTrap(s: Store, limit: nat, g: nat) {
    var all := Filter(Resources, s.entries);
    && g + limit < |all|
    && (forall x :: 0 <= x <= g + limit ==> !all[x].item.Malformed?)
    && (forall x :: g <= x <= g + limit ==> all[x].item.ResourceGroup?)
    && (forall x :: 0 <= x <= g + limit && all[x].item.ResourceGroup? ==> CursorFor(s, all[x].item) <= all[g].key)
  }

  /** A page whose items and next item are all good. */
  lemma GoodPage(s: Store, l: Listing, cursor: Option<nat>, limit: nat, rest: seq<Entry>)
    requires rest == From(s, l, cursor) && |rest| > limit
    requires forall k :: 0 <= k <= limit ==> !rest[k].item.Malformed?
    ensures GetPage(s, l, cursor, limit).Some?
    ensures GetPage(s, l, cursor, limit).value.next == Some(CursorFor(s, rest[limit].item))
  {
    var found := Take(rest, limit + 1);
    assert found == rest[..limit + 1] && Take(found, limit) == rest[..limit];
    CollectFails(rest[..limit]);
  }

  /** The cursor of every item up to the last of the groups lies at or below the first of them. */
  lemma TrapItem(s: Store, limit: nat, g: nat, x: nat)
    requires ValidStore(s) && GroupTrap(s, limit, g) && x <= g + limit
    ensures var all := Filter(Resources, s.entries);
            !all[x].item.Malformed? && CursorFor(s, all[x].item) <= all[g].key
  {
    var all := Filter(Resources, s.entries);
    FilterFacts(Resources, s.entries);
    assert all[x] in s.entries;
    if !all[x].item.ResourceGroup? {
      assert x == g || all[x].key < all[g].key;
    }
  }

  /** The page at the cursor has a next cursor, and it does not lie above the given key. */
  predicate GoesOn(s: Store, l: Listing, limit: nat, key: nat, cursor: Option<nat>) {
    var page := GetPage(s, l, cursor, limit);
    page.Some? && page.value.next.Some? && page.value.next.value <= key
  }

  predicate Below(cursor: Option<nat>, key: nat) {
    cursor.None? || cursor.value <= key
  }

  lemma GoesOnAt(s: Store, l: Listing, limit: nat, key: nat, cursor: Option<nat>, all: seq<Entry>, p: nat)
    requires p + limit < |all| && From(s, l, cursor) == all[p..]
    requires forall x :: p <= x <= p + limit ==> !all[x].item.Malformed? && CursorFor(s, all[x].item) <= key
    ensures GoesOn(s, l, limit, key, cursor)
  {
    var rest := all[p..];
    forall k | 0 <= k <= limit ensures !rest[k].item.Malformed? && CursorFor(s, rest[k].item) <= key {
      assert rest[k] == all[p + k];
    }
    GoodPage(s, l, cursor, limit, rest);
  }

  lemma TrapPage(s: Store, limit: nat, g: nat, cursor: Option<nat>)
    requires ValidStore(s) && GroupTrap(s, limit, g) && Below(cursor, Filter(Resources, s.entries)[g].key)
    ensures GoesOn(s, Resources, limit, Filter(Resources, s.entries)[g].key, cursor)
  {
    var all := Filter(Resources, s.entries);
    var p := LandsAtOrBefore(s, Resources, cursor, g);
    forall x | p <= x <= p + limit ensures !all[x].item.Malformed? && CursorFor(s, all[x].item) <= all[g].key {
      TrapItem(s, limit, g, x);
    }
    GoesOnAt(s, Resources, limit, all[g].key, cursor, all, p);
  }

  lemma LandsAtOrBefore(s: Store, l: Listing, cursor: Option<nat>, g: nat) returns (p: nat)
    requires ValidStore(s) && g < |Filter(l, s.entries)|
    requires Below(cursor, Filter(l, s.entries)[g].key)
    ensures p <= g && From(s, l, cursor) == Filter(l, s.entries)[p..]
  {
    p := 0;
    if cursor.Some? {
      p := SeekDrops(l, s.entries, cursor.value);
    }
  }

  lemma {:induction false} FollowForever(s: Store, l: Listing, limit: nat, key: nat, cursor: Option<nat>, n: nat)
    requires forall c :: Below(c, key) ==> GoesOn(s, l, limit, key, c)
    requires Below(cursor, key)
    ensures Follow(s, l, cursor, limit, n).Some?
    decreases n
  {
    if n > 0 {
      assert GoesOn(s, l, limit, key, cursor);
      FollowForever(s, l, limit, key, GetPage(s, l, cursor, limit).value.next, n - 1);
    }
  }

  /** From anywhere at or before the first of the groups, following cursors never ends. */
  lemma TrapNeverEnds(s: Store, limit: nat, g: nat, cursor: Option<nat>, n: nat)
    requires ValidStore(s) && GroupTrap(s, limit, g) && Below(cursor, Filter(Resources, s.entries)[g].key)
    ensures Follow(s, Resources, cursor, limit, n).Some?
  {
    var key := Filter(Resources, s.entries)[g].key;
    forall c | Below(c, key) ensures GoesOn(s, Resources, limit, key, c) {
      TrapPage(s, limit, g, c);
    }
    FollowForever(s, Resources, limit, key, cursor, n);
  }

  /**
   Stored keys compare the length of the path before its kind, and a plain resource before a
   group: among paths of one length every plain key sorts below every group key.
   */
  ghost predicate PlainBeforeGroup(s: Store, groupKey: nat -> nat, length: nat -> nat) {
    && (forall a, b :: length(a) == length(b) ==> s.resourceKey(a) < groupKey(b))
    && (forall k :: 0 <= k < |s.entries| && s.entries[k].item.ResourceGroup? ==>
          s.entries[k].key == groupKey(s.entries[k].item.groupTag))
  }

  /** So more than `limit` groups of equal path length in a row always trap the walk. */
  lemma EqualLengthsTrap(s: Store, limit: nat, g: nat, groupKey: nat -> nat, length: nat -> nat)
    requires ValidStore(s) && PlainBeforeGroup(s, groupKey, length) && g + limit < |Filter(Resources, s.entries)|
    requires var all := Filter(Resources, s.entries);
             && (forall x :: 0 <= x <= g + limit ==> !all[x].item.Malformed?)
             && all[g].item.ResourceGroup?
             && (forall x :: g <= x <= g + limit ==>
                   all[x].item.ResourceGroup? && length(all[x].item.groupTag) == length(all[g].item.groupTag))
    ensures GroupTrap(s, limit, g)
  {
    var all := Filter(Resources, s.entries);
    FilterFacts(Resources, s.entries);
    forall x | 0 <= x <= g + limit && all[x].item.ResourceGroup? ensures CursorFor(s, all[x].item) <= all[g].key {
      assert all[x] in s.entries && all[g] in s.entries;
    }
  }

  /** Two groups whose plain keys sort below both of them. */
  const TwoGroups: Store := Store(
    [Entry(10, ResourceGroup(0, 0)), Entry(11, ResourceGroup(1, 0))],
    (id: nat) => 20 + id,
    (tag: nat) => tag)

  /** With pages of one item their walk never ends: the second cursor leads back to the first group. */
  lemma TwoGroupsNeverEnd(n: nat)
    ensures ValidStore(TwoGroups) && Follow(TwoGroups, Resources, None, 1, n).Some?
    ensures From(TwoGroups, Resources, GetPage(TwoGroups, Resources, None, 1).value.next) == TwoGroups.entries
  {
    var es := TwoGroups.entries;
    assert es[1..] == [es[1]] && es[1..][1..] == [];
    assert Filter(Resources, es[1..]) == [es[1]];
    assert Filter(Resources, es) == es;
    TrapNeverEnds(TwoGroups, 1, 0, None, n);
    TrapPage(TwoGroups, 1, 0, None);
    NextItem(TwoGroups, Resources, None, 1);
  }
}
