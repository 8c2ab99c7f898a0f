/**
 * Fetching the newest items of a list that a server hands out oldest first,
 * in pages of 100: walk the pages backwards, stop as soon as enough are held,
 * and never fetch more than a capped number of pages.
 */
module Pagination {
  import opened Prelude

  const PER_PAGE: nat := 100
  const EXTRA_PAGES: nat := 2

  /** The `id` of a JSON payload, by its type. */
  datatype JsonId = Missing | Flag(b: bool) | Number(n: int) | Text(s: string)

  datatype Item = Item(id: JsonId, body: string)

  function Decimal(n: int): (s: string)
    decreases n < 0, if n < 0 then -n else n
  {
    if n < 0 then "-" + Decimal(-n)
    else (if n < 10 then "" else Decimal(n / 10)) + [(n % 10 + '0' as int) as char]
  }

  /** Numbers and texts identify an item; booleans do not. */
  function IdKey(item: Item): (r: Option<string>)
    ensures r.Some? <==> item.id.Number? || item.id.Text?
  {
    match item.id
    case Number(n) => Some(Decimal(n))
    case Text(s) => Some(s)
    case _ => None
  }

  // ----- what the keys say

  function ReadDigits(s: string): (n: int) {
    if s == "" then 0 else ReadDigits(s[..|s| - 1]) * 10 + (s[|s| - 1] as int - '0' as int)
  }

  /** The number a decimal text stands for. */
  function ReadDecimal(s: string): (n: int) {
    if s != "" && s[0] == '-' then -ReadDigits(s[1..]) else ReadDigits(s)
  }

  predicate Digits(s: string) {
    s != "" && forall i | 0 <= i < |s| :: '0' <= s[i] <= '9'
  }

  function Digit(d: int): (c: char)
    requires 0 <= d < 10
  {
    (d + '0' as int) as char
  }

  lemma DecimalStep(n: nat)
    ensures Decimal(n) == (if n < 10 then "" else Decimal(n / 10)) + [Digit(n % 10)]
  {
  }

  lemma ReadOneMore(s: string, d: int)
    requires 0 <= d < 10
    ensures ReadDigits(s + [Digit(d)]) == ReadDigits(s) * 10 + d
    ensures s == "" || Digits(s) ==> Digits(s + [Digit(d)])
  {
    assert (s + [Digit(d)])[..|s|] == s;
  }

  lemma {:induction false} DigitsRead(n: nat)
    ensures Digits(Decimal(n)) && ReadDigits(Decimal(n)) == n
    decreases n
  {
    hide Decimal, Digits, Digit;
    DecimalStep(n);
    if n < 10 {
      ReadOneMore("", n);
      assert n % 10 == n;
    } else {
      DigitsRead(n / 10);
      ReadOneMore(Decimal(n / 10), n % 10);
    }
  }

  lemma DecimalReads(n: int)
    ensures ReadDecimal(Decimal(n)) == n
  {
    if n < 0 {
      DigitsRead(-n);
      assert Decimal(n)[1..] == Decimal(-n);
    } else {
      DigitsRead(n);
      assert '0' <= Decimal(n)[0] <= '9';
    }
  }

  /** Different numbers have different keys, and so do different texts; a number shares one only with its own digits. */
  lemma KeysIdentify(a: Item, b: Item)
    requires IdKey(a).Some? && IdKey(a) == IdKey(b)
    ensures a.id == b.id
         || (a.id.Number? && b.id == Text(Decimal(a.id.n)))
         || (b.id.Number? && a.id == Text(Decimal(b.id.n)))
    ensures a.id.Number? && b.id.Text? ==> ReadDecimal(b.id.s) == a.id.n
  {
    if a.id.Number? { DecimalReads(a.id.n); }
    if b.id.Number? { DecimalReads(b.id.n); }
  }

  // ----- what is wanted

  predicate Shadowed(item: Item, newer: seq<Item>) {
    IdKey(item).Some? && exists i | 0 <= i < |newer| :: IdKey(newer[i]) == IdKey(item)
  }

  /** With `unique`, the items that no newer item shares its id with. */
  function Kept(items: seq<Item>, unique: bool): (r: seq<Item>) {
    if items == [] then []
    else if unique && Shadowed(items[0], items[1..]) then Kept(items[1..], unique)
    else [items[0]] + Kept(items[1..], unique)
  }

  function LastK<T>(s: seq<T>, k: int): (r: seq<T>) {
    if k <= 0 then [] else if |s| <= k then s else s[|s| - k..]
  }

  /** No newer item shares the id of the one at `i`. */
  predicate Newest(items: seq<Item>, i: nat)
    requires i < |items|
  {
    !Shadowed(items[i], items[i + 1..])
  }

  predicate DistinctIds(items: seq<Item>) {
    forall i, j | 0 <= i < j < |items| :: IdKey(items[i]).None? || IdKey(items[i]) != IdKey(items[j])
  }

  lemma NewestBehind(items: seq<Item>, i: nat)
    requires 0 < i < |items|
    ensures Newest(items, i) == Newest(items[1..], i - 1) && items[1..][i - 1] == items[i]
  {
    assert items[1..][i..] == items[i + 1..];
  }

  /** With ids compared, exactly the newest item of each id is kept, and items without an id all are. */
  lemma {:induction false} KeptIsExact(items: seq<Item>, item: Item)
    ensures item in Kept(items, true) <==> exists i | 0 <= i < |items| :: items[i] == item && Newest(items, i)
  {
    if items != [] {
      var rest := items[1..];
      hide Shadowed;
      KeptIsExact(rest, item);
      if item in Kept(rest, true) {
        var i :| 0 <= i < |rest| && rest[i] == item && Newest(rest, i);
        NewestBehind(items, i + 1);
      }
      if i :| 0 <= i < |items| && items[i] == item && Newest(items, i) {
        if i > 0 { NewestBehind(items, i); }
      }
      assert Newest(items, 0) == !Shadowed(items[0], rest);
    }
  }

  lemma {:induction false} KeptIdsAreDistinct(items: seq<Item>)
    ensures DistinctIds(Kept(items, true))
  {
    if items != [] {
      var first, rest := items[0], items[1..];
      KeptIdsAreDistinct(rest);
      if !Shadowed(first, rest) {
        var kept := Kept(rest, true);
        forall j | 0 <= j < |kept|
          ensures IdKey(first).None? || IdKey(first) != IdKey(kept[j])
        {
          KeptIsExact(rest, kept[j]);
        }
      }
    }
  }

  // ----- the selector

  function Keys(items: seq<Item>): (r: set<string>) {
    set i | 0 <= i < |items| && IdKey(items[i]).Some? :: IdKey(items[i]).value
  }

  class NewestTailSelector {
    const maxItems: int
    const uniqueById: bool
    var itemsNewestFirst: seq<Item>
    var seenIds: set<string>
    var selectedCount: nat
    var limitReached: bool
    /** Everything offered so far, oldest first. */
    ghost var offered: seq<Item>

    ghost predicate Valid()
      reads this
    {
      && Reversed(itemsNewestFirst) == LastK(Kept(offered, uniqueById), maxItems)
      && selectedCount == |itemsNewestFirst|
      && (limitReached <==> |Kept(offered, uniqueById)| >= maxItems)
      && (!limitReached && uniqueById ==> seenIds == Keys(offered))
    }

    constructor (maxItems: int, uniqueById: bool)
      ensures Valid() && offered == [] && this.maxItems == maxItems && this.uniqueById == uniqueById
      ensures limitReached <==> maxItems <= 0
    {
      this.maxItems := maxItems;
      this.uniqueById := uniqueById;
      itemsNewestFirst, seenIds, selectedCount, limitReached := [], {}, 0, maxItems <= 0;
      offered := [];
    }

    method AddNewerItem(item: Item)
      requires Valid() && !limitReached
      modifies this
      ensures Valid() && offered == [item] + old(offered)
    {
      offered := [item] + offered;
      assert offered[1..] == old(offered);
      if uniqueById {
        var key := IdKey(item);
        if key.Some? {
          if key.value in seenIds {
            KeysGrow(item, old(offered));
            return;
          }
          seenIds := seenIds + {key.value};
        }
      }
      KeysGrow(item, old(offered));
      itemsNewestFirst := itemsNewestFirst + [item];
      selectedCount := selectedCount + 1;
      if selectedCount >= maxItems { limitReached := true; }
      assert Reversed(itemsNewestFirst) == [item] + Reversed(old(itemsNewestFirst));
    }

    method AddAscendingPage(items: seq<Item>)
      requires Valid()
      modifies this
      ensures Valid()
      ensures limitReached || offered == items + old(offered)
      ensures exists n: nat | n <= |items| :: offered == items[n..] + old(offered)
    {
      ghost var before := offered;
      var i := |items|;
      assert items[i..] + before == before;
      while i > 0
        invariant 0 <= i <= |items|
        invariant Valid() && offered == items[i..] + before
      {
        if limitReached { return; }
        AddNewerItem(items[i - 1]);
        assert [items[i - 1]] + items[i..] == items[i - 1..];
        i := i - 1;
      }
      assert items[0..] == items;
    }

    method ItemsAscending() returns (r: seq<Item>)
      requires Valid()
      ensures r == LastK(Kept(offered, uniqueById), maxItems)
    {
      r := Reversed(itemsNewestFirst);
    }
  }

  lemma KeysGrow(item: Item, newer: seq<Item>)
    ensures Keys([item] + newer) == Keys(newer) + if IdKey(item).Some? then {IdKey(item).value} else {}
    ensures Shadowed(item, newer) <==> IdKey(item).Some? && IdKey(item).value in Keys(newer)
  {
    var all := [item] + newer;
    forall key
      ensures key in Keys(all) <==> key in Keys(newer) || IdKey(item) == Some(key)
    {
      if key in Keys(newer) {
        var i :| 0 <= i < |newer| && IdKey(newer[i]) == Some(key);
        assert all[i + 1] == newer[i];
      }
      if IdKey(item) == Some(key) { assert all[0] == item; }
    }
  }

  // ----- the page walk

  /** The page number the server's Link header names as last; 1 when there is no such header. */
  function LastPage(n: nat): (p: nat)
    ensures p >= 1
  {
    if n <= PER_PAGE then 1 else (n + PER_PAGE - 1) / PER_PAGE
  }

  function PageStart(n: nat, page: nat): (i: nat)
    ensures i <= n
  {
    if page * PER_PAGE <= n then page * PER_PAGE else n
  }

  /** Page numbers count from 1. */
  function Page(list: seq<Item>, page: nat): (r: seq<Item>)
    requires page >= 1
  {
    list[PageStart(|list|, page - 1)..PageStart(|list|, page)]
  }

  function PageFetchLimit(maxItems: nat): (r: nat) {
    (maxItems + PER_PAGE - 1) / PER_PAGE + EXTRA_PAGES
  }

  /** The number of pages at the front that the cap keeps from being fetched. */
  function Unfetched(n: nat, maxItems: nat): (pages: nat)
    ensures pages < LastPage(n)
  {
    if LastPage(n) <= PageFetchLimit(maxItems) then 0 else LastPage(n) - PageFetchLimit(maxItems)
  }

  /** The items within reach of the capped walk. */
  function Window(list: seq<Item>, maxItems: nat): (r: seq<Item>) {
    list[PageStart(|list|, Unfetched(|list|, maxItems))..]
  }

  /** The items of `older` that survive in front of `newer`. */
  function KeptBefore(older: seq<Item>, newer: seq<Item>, unique: bool): (r: seq<Item>) {
    if older == [] then []
    else if unique && Shadowed(older[0], older[1..] + newer) then KeptBefore(older[1..], newer, unique)
    else [older[0]] + KeptBefore(older[1..], newer, unique)
  }

  lemma {:induction false} KeptConcat(older: seq<Item>, newer: seq<Item>, unique: bool)
    ensures Kept(older + newer, unique) == KeptBefore(older, newer, unique) + Kept(newer, unique)
  {
    if older == [] {
      assert older + newer == newer;
    } else {
      var first, rest := older[0], older[1..];
      hide Kept, KeptBefore, Shadowed;
      KeptConcat(rest, newer, unique);
      assert older + newer == [first] + (rest + newer);
      KeptFirst(first, rest + newer, unique);
      KeptBeforeFirst(older, newer, unique);
      Associates(if unique && Shadowed(first, rest + newer) then [] else [first],
                 KeptBefore(rest, newer, unique), Kept(newer, unique));
    }
  }

  lemma Associates<T>(a: seq<T>, b: seq<T>, c: seq<T>)
    ensures a + (b + c) == a + b + c
  {
  }

  lemma KeptFirst(first: Item, rest: seq<Item>, unique: bool)
    ensures Kept([first] + rest, unique) ==
            (if unique && Shadowed(first, rest) then [] else [first]) + Kept(rest, unique)
  {
    hide Shadowed;
    assert ([first] + rest)[1..] == rest;
    assert [] + Kept(rest, unique) == Kept(rest, unique);
  }

  lemma KeptBeforeFirst(older: seq<Item>, newer: seq<Item>, unique: bool)
    requires older != []
    ensures KeptBefore(older, newer, unique) ==
            (if unique && Shadowed(older[0], older[1..] + newer) then [] else [older[0]])
            + KeptBefore(older[1..], newer, unique)
  {
    hide Shadowed;
    assert [] + KeptBefore(older[1..], newer, unique) == KeptBefore(older[1..], newer, unique);
  }

  /** Once enough newer items are kept, older ones change nothing. */
  lemma EnoughIsEnough(older: seq<Item>, newer: seq<Item>, unique: bool, k: int)
    requires |Kept(newer, unique)| >= k
    ensures LastK(Kept(older + newer, unique), k) == LastK(Kept(newer, unique), k)
  {
    hide Kept, KeptBefore, LastK;
    KeptConcat(older, newer, unique);
    LastKConcat(KeptBefore(older, newer, unique), Kept(newer, unique), k);
  }

  lemma LastKConcat<T>(a: seq<T>, b: seq<T>, k: int)
    requires |b| >= k
    ensures LastK(a + b, k) == LastK(b, k)
  {
    if a == [] {
      assert a + b == b;
    } else if k > 0 {
      assert (a + b)[|a + b| - k..] == b[|b| - k..];
    }
  }

  lemma {:induction false} KeepsAll(items: seq<Item>)
    ensures Kept(items, false) == items
  {
    if items != [] {
      KeepsAll(items[1..]);
      assert items == [items[0]] + items[1..];
    }
  }

  /** The cap of ceil(k / 100) + 2 pages leaves at least k items in reach, or all of them. */
  lemma WindowIsWideEnough(list: seq<Item>, maxItems: nat)
    ensures |Window(list, maxItems)| >= maxItems || Window(list, maxItems) == list
  {
    PagesRoundUp(|list|);
    PagesRoundUp(maxItems);
  }

  lemma PagesRoundUp(n: nat)
    ensures n <= (n + PER_PAGE - 1) / PER_PAGE * PER_PAGE < n + PER_PAGE
  {
    var m := n + PER_PAGE - 1;
    assert m == m / PER_PAGE * PER_PAGE + m % PER_PAGE;
  }

  /** Without ids to compare, the capped walk reaches everything that is wanted. */
  lemma CapNeverCuts(list: seq<Item>, maxItems: nat)
    ensures LastK(Kept(Window(list, maxItems), false), maxItems) == LastK(list, maxItems)
  {
    KeepsAll(Window(list, maxItems));
    WindowIsWideEnough(list, maxItems);
  }

  lemma PageJoins(list: seq<Item>, page: nat, n: nat)
    requires page >= 1 && n <= |Page(list, page)|
    ensures PageStart(|list|, page - 1) + n <= |list|
    ensures Page(list, page)[n..] + list[PageStart(|list|, page)..] == list[PageStart(|list|, page - 1) + n..]
  {
  }

  lemma SplitAt<T>(s: seq<T>, a: nat, b: nat)
    requires a <= b <= |s|
    ensures s[a..] == s[a..b] + s[b..]
  {
  }

  /** Any suffix of the list that already keeps enough answers for the whole window. */
  lemma SuffixAnswers(list: seq<Item>, maxItems: nat, unique: bool, cut: nat)
    requires PageStart(|list|, Unfetched(|list|, maxItems)) <= cut <= |list|
    requires |Kept(list[cut..], unique)| >= maxItems || cut == PageStart(|list|, Unfetched(|list|, maxItems))
    ensures LastK(Kept(list[cut..], unique), maxItems) == LastK(Kept(Window(list, maxItems), unique), maxItems)
  {
    hide PageStart, Unfetched, Kept, LastK;
    var start := PageStart(|list|, Unfetched(|list|, maxItems));
    if cut != start {
      SplitAt(list, start, cut);
      EnoughIsEnough(list[start..cut], list[cut..], unique, maxItems);
    }
  }

  lemma WalkBounds(n: nat, maxItems: nat, page: nat)
    requires page <= LastPage(n) && LastPage(n) - page <= PageFetchLimit(maxItems)
    ensures PageStart(n, LastPage(n)) == n
    ensures PageStart(n, Unfetched(n, maxItems)) <= PageStart(n, page)
    ensures page == 0 || LastPage(n) - page == PageFetchLimit(maxItems) ==> page == Unfetched(n, maxItems)
  {
  }

  /** The loop over the pages, newest first; what it has offered when it stops answers for the window. */
  method WalkPages(list: seq<Item>, maxItems: nat, uniqueById: bool, selector: NewestTailSelector)
    requires selector.Valid() && selector.offered == [] && !selector.limitReached
    requires selector.maxItems == maxItems && selector.uniqueById == uniqueById
    modifies selector
    ensures selector.Valid()
    ensures LastK(Kept(selector.offered, uniqueById), maxItems)
         == LastK(Kept(Window(list, maxItems), uniqueById), maxItems)
  {
    hide Kept, LastK, Reversed, Keys, PageStart, Unfetched, LastPage, PageFetchLimit, Page, Window;
    var firstPage := Page(list, 1);
    var lastPage := LastPage(|list|);
    var limit := PageFetchLimit(maxItems);
    var page, processed := lastPage, 0;
    WalkBounds(|list|, maxItems, page);
    ghost var cut: nat := |list|;
    while page > 0 && processed < limit
      invariant 0 <= page <= lastPage && processed == lastPage - page <= limit
      invariant selector.Valid() && !selector.limitReached
      invariant cut == PageStart(|list|, page) && selector.offered == list[cut..]
    {
      var pageItems := if page == 1 then firstPage else Page(list, page);
      selector.AddAscendingPage(pageItems);
      ghost var n: nat :| n <= |pageItems| && selector.offered == pageItems[n..] + list[cut..];
      PageJoins(list, page, n);
      PageJoins(list, page, 0);
      cut := PageStart(|list|, page - 1) + n;
      processed := processed + 1;
      page := page - 1;
      if selector.limitReached { break; }
    }
    WalkBounds(|list|, maxItems, page);
    SuffixAnswers(list, maxItems, uniqueById, cut);
  }

  lemma OnePage(list: seq<Item>, maxItems: nat)
    requires LastPage(|list|) <= 1
    ensures Page(list, 1) == list && PageStart(|list|, Unfetched(|list|, maxItems)) == 0
  {
  }

  /** A list of one page is offered from that page; what was offered when the selector is full answers for it. */
  method TakeOnePage(list: seq<Item>, maxItems: nat, uniqueById: bool, selector: NewestTailSelector)
    requires LastPage(|list|) <= 1 && selector.Valid() && selector.offered == []
    requires selector.maxItems == maxItems && selector.uniqueById == uniqueById
    modifies selector
    ensures selector.Valid()
    ensures LastK(Kept(selector.offered, uniqueById), maxItems)
         == LastK(Kept(Window(list, maxItems), uniqueById), maxItems)
  {
    OnePage(list, maxItems);
    hide Kept, LastK, Reversed, Keys, PageStart, Unfetched, LastPage, Page, Window;
    var firstPage := Page(list, 1);
    selector.AddAscendingPage(firstPage);
    ghost var n: nat :| n <= |firstPage| && selector.offered == firstPage[n..] + [];
    assert list[n..] + [] == list[n..] && list + [] == list == list[0..];
    SuffixAnswers(list, maxItems, uniqueById, n);
  }

  /** The last `maxItems` items of the list, or, with ids compared, of what the window keeps. */
  method PaginatedTailList(list: seq<Item>, maxItems: int, uniqueById: bool) returns (r: seq<Item>)
    ensures maxItems <= 0 ==> r == []
    ensures maxItems > 0 ==> r == LastK(Kept(Window(list, maxItems), uniqueById), maxItems)
    ensures !uniqueById ==> r == LastK(list, maxItems)
  {
    if maxItems <= 0 { return []; }
    hide Kept, LastK, Reversed, Keys, PageStart, Unfetched, LastPage, Page, Window;
    CapNeverCuts(list, maxItems);
    var selector := new NewestTailSelector(maxItems, uniqueById);
    if LastPage(|list|) <= 1 {
      TakeOnePage(list, maxItems, uniqueById, selector);
    } else {
      WalkPages(list, maxItems, uniqueById, selector);
    }
    r := selector.ItemsAscending();
  }

  /** Each of the first `n` items shares its id with a newer one. */
  predicate Repeated(list: seq<Item>, n: nat)
    requires n <= |list|
  {
    forall i | 0 <= i < n :: Shadowed(list[i], list[i + 1..])
  }

  lemma {:induction false} NoneKeptIff(older: seq<Item>, newer: seq<Item>)
    ensures KeptBefore(older, newer, true) == [] <==> Repeated(older + newer, |older|)
  {
    hide Shadowed;
    if older != [] {
      var list, rest := older + newer, older[1..] + newer;
      NoneKeptIff(older[1..], newer);
      assert list[1..] == rest;
      assert forall i | 0 <= i < |older| - 1 :: rest[i] == list[i + 1] && rest[i + 1..] == list[i + 2..];
      if Repeated(list, |older|) {
        forall i | 0 <= i < |older| - 1
          ensures Shadowed(rest[i], rest[i + 1..])
        {
          assert Shadowed(list[i + 1], list[i + 1 + 1..]);
        }
      }
      if Shadowed(list[0], rest) && Repeated(rest, |older| - 1) {
        forall i | 0 <= i < |older|
          ensures Shadowed(list[i], list[i + 1..])
        {
          if i > 0 { assert Shadowed(rest[i - 1], rest[i..]) && rest[i - 1] == list[i] && rest[i..] == list[i + 1..]; }
        }
      }
    }
  }

  /**
   * With ids compared, the capped walk answers for the whole list exactly when the window holds enough distinct ids
   * or every item in front of it shares its id with a newer one.
   */
  lemma UniqueTailIsExact(list: seq<Item>, maxItems: nat)
    ensures LastK(Kept(Window(list, maxItems), true), maxItems) == LastK(Kept(list, true), maxItems) <==>
            || |Kept(Window(list, maxItems), true)| >= maxItems
            || Repeated(list, PageStart(|list|, Unfetched(|list|, maxItems)))
  {
    hide Kept, KeptBefore, Repeated;
    var start := PageStart(|list|, Unfetched(|list|, maxItems));
    assert list == list[..start] + Window(list, maxItems);
    KeptConcat(list[..start], Window(list, maxItems), true);
    NoneKeptIff(list[..start], Window(list, maxItems));
  }

  lemma {:induction false} RepeatsCollapse(item: Item, n: nat)
    requires IdKey(item).Some? && n > 0
    ensures Kept(seq(n, _ => item), true) == [item]
  {
    var items := seq(n, _ => item);
    assert items[1..] == seq(n - 1, _ => item);
    if n > 1 {
      assert IdKey(items[1..][0]) == IdKey(item);
      RepeatsCollapse(item, n - 1);
    }
  }

  /** One old item and 500 copies of a newer one: asked for two distinct items, the capped walk finds one. */
  lemma CapCanCutUniqueTail(older: Item, copy: Item)
    requires IdKey(older).Some? && IdKey(copy).Some? && IdKey(older) != IdKey(copy)
    ensures var list := [older] + seq(500, _ => copy);
            LastK(Kept(Window(list, 2), true), 2) == [copy] && LastK(Kept(list, true), 2) == [older, copy]
  {
    var copies := seq(500, _ => copy);
    var list := [older] + copies;
    RepeatsCollapse(copy, 500);
    RepeatsCollapse(copy, 201);
    assert Window(list, 2) == seq(201, _ => copy);
    assert list[1..] == copies;
    assert !Shadowed(older, copies);
  }
}
