// Singly linked lists that run through the next pointers of pages.
module PageList {
  import opened Types
  import opened SlottedPage

  type Pages = map<PageId, PageState>

  // q is the least member after p, or 0 when there is none.
  ghost predicate IsNext(members: set<PageId>, p: PageId, q: PageId) {
    if q == INVALID_NUMBER then forall r | r in members :: r <= p
    else q > p && q in members && forall r | r in members && r > p :: q <= r
  }

  // Following next pointers from the first member visits the members in ascending order and ends with 0.
  ghost predicate Ascending(members: set<PageId>, first: PageId, pages: Pages) {
    && members <= pages.Keys
    && 0 !in members
    && IsNext(members, INVALID_NUMBER, first)
    && forall p | p in members :: IsNext(members, p, pages[p].nextPage)
  }

  // last is the greatest member below p, or 0 when there is none.
  ghost predicate IsLastBelow(members: set<PageId>, p: PageId, last: PageId) {
    && (last == INVALID_NUMBER || (last < p && last in members))
    && forall r | r in members && r < p :: r <= last
  }

  function LastBelow(members: set<PageId>, p: PageId): (last: PageId)
    ensures IsLastBelow(members, p, last)
  {
    if p == 0 then INVALID_NUMBER else if p - 1 in members then p - 1 else LastBelow(members, p - 1)
  }

  lemma LastBelowWithout(members: set<PageId>, p: PageId)
    ensures LastBelow(members - {p}, p) == LastBelow(members, p)
  {
    hide LastBelow;
    SameLast(members, p, LastBelow(members - {p}, p), LastBelow(members, p));
  }

  lemma SameLast(members: set<PageId>, p: PageId, a: PageId, b: PageId)
    requires IsLastBelow(members - {p}, p, a) && IsLastBelow(members, p, b)
    ensures a == b
  {
    assert b != 0 ==> b in members - {p};
    assert a != 0 ==> a in members;
  }

  lemma LastLeadsToMember(members: set<PageId>, p: PageId, last: PageId)
    requires IsLastBelow(members, p, last) && p != 0
    ensures IsNext(members + {p}, last, p)
  {
  }

  lemma MemberLeadsOn(members: set<PageId>, p: PageId, last: PageId, q: PageId)
    requires IsLastBelow(members, p, last) && IsNext(members, last, q) && p !in members && p != 0
    ensures IsNext(members + {p}, p, q)
  {
  }

  // A new member matters to no other member than the last one below it.
  lemma NextWithMember(members: set<PageId>, p: PageId, last: PageId, r: PageId, q: PageId)
    requires IsLastBelow(members, p, last) && IsNext(members, r, q) && p != 0 && 0 !in members
    requires r != last && (r == 0 || r in members) && r != p
    ensures IsNext(members + {p}, r, q)
  {
  }

  // Linking p in after the last member below it keeps the list in order.
  lemma LinkIn(members: set<PageId>, first: PageId, pages: Pages, p: PageId, first': PageId, pages': Pages)
    requires Ascending(members, first, pages) && p !in members && p != 0
    requires p in pages' && members <= pages'.Keys
    requires forall r | r in members && r != LastBelow(members, p) :: pages'[r].nextPage == pages[r].nextPage
    requires var last := LastBelow(members, p);
             if last == 0 then first' == p && pages'[p].nextPage == first
             else first' == first && pages'[p].nextPage == pages[last].nextPage && pages'[last].nextPage == p
    ensures Ascending(members + {p}, first', pages')
  {
    hide LastBelow, IsNext;
    var last, more := LastBelow(members, p), members + {p};
    LastLeadsToMember(members, p, last);
    MemberLeadsOn(members, p, last, if last == 0 then first else pages[last].nextPage);
    forall r | r in members && r != last
      ensures IsNext(more, r, pages[r].nextPage)
    {
      NextWithMember(members, p, last, r, pages[r].nextPage);
    }
    if last != 0 {
      NextWithMember(members, p, last, 0, first);
    }
  }

  lemma NextWithoutMember(members: set<PageId>, p: PageId, r: PageId, q: PageId)
    requires IsNext(members, r, q) && p in members && q != p
    ensures IsNext(members - {p}, r, q)
  {
  }

  lemma NextPastMember(members: set<PageId>, p: PageId, r: PageId, q: PageId)
    requires IsNext(members, r, p) && IsNext(members, p, q) && p in members && p != 0
    ensures IsNext(members - {p}, r, q)
  {
  }

  lemma NextIsMember(members: set<PageId>, p: PageId, last: PageId, r: PageId, q: PageId)
    requires IsLastBelow(members, p, last) && IsNext(members, r, q)
    requires p in members && p != 0 && 0 !in members && (r == 0 || r in members)
    ensures q == p <==> r == last
  {
  }

  // The pointer that leads to p is that of the last member below it.
  lemma LeadsTo(members: set<PageId>, first: PageId, pages: Pages, p: PageId)
    requires Ascending(members, first, pages) && p in members
    ensures var last := LastBelow(members, p);
            && (last == 0 <==> first == p)
            && (last != 0 ==> pages[last].nextPage == p)
            && forall r | r in members && r != last :: pages[r].nextPage != p
  {
    hide LastBelow, IsNext;
    var last := LastBelow(members, p);
    NextIsMember(members, p, last, 0, first);
    forall r | r in members
      ensures pages[r].nextPage == p <==> r == last
    {
      NextIsMember(members, p, last, r, pages[r].nextPage);
    }
  }

  // Linking p out keeps the list in order.
  lemma LinkOut(members: set<PageId>, first: PageId, pages: Pages, p: PageId, first': PageId, pages': Pages)
    requires Ascending(members, first, pages) && p in members
    requires members - {p} <= pages'.Keys
    requires forall r | r in members && r != p && r != LastBelow(members, p) :: pages'[r].nextPage == pages[r].nextPage
    requires var last := LastBelow(members, p);
             if last == 0 then first' == pages[p].nextPage
             else first' == first && pages'[last].nextPage == pages[p].nextPage
    ensures Ascending(members - {p}, first', pages')
  {
    hide LastBelow, IsNext;
    var last, fewer := LastBelow(members, p), members - {p};
    LeadsTo(members, first, pages, p);
    forall r | r in fewer && r != last
      ensures IsNext(fewer, r, pages[r].nextPage)
    {
      NextWithoutMember(members, p, r, pages[r].nextPage);
    }
    NextPastMember(members, p, last, pages[p].nextPage);
    if last != 0 {
      NextWithoutMember(members, p, 0, first);
    }
  }

  // ----- the free list -----

  function Chain(pages: Pages, start: PageId, n: nat): seq<PageId>
    decreases n
  {
    if n == 0 || start !in pages then [] else [start] + Chain(pages, pages[start].nextPage, n - 1)
  }

  // Following next pointers from the first member visits each member once, n in all, and ends with 0.
  ghost predicate Stacked(members: set<PageId>, first: PageId, pages: Pages, n: nat) {
    var list := Chain(pages, first, n);
    && members <= pages.Keys
    && 0 !in members
    && |list| == n
    && (forall i, j | 0 <= i < j < n :: list[i] != list[j])
    && (forall i | 0 <= i < n :: list[i] in members)
    && (forall p | p in members :: p in list)
    && (if n == 0 then first else pages[list[n - 1]].nextPage) == INVALID_NUMBER
  }

  // A list depends only on the pointers of the members it visits.
  lemma {:induction false} SameChain(a: Pages, b: Pages, start: PageId, n: nat)
    requires |Chain(a, start, n)| == n
    requires forall p | p in Chain(a, start, n) :: p in a && p in b && b[p].nextPage == a[p].nextPage
    ensures Chain(b, start, n) == Chain(a, start, n)
    decreases n
  {
    if n > 0 {
      ChainSplits(a, start, n);
      assert start in Chain(a, start, n);
      SameChain(a, b, a[start].nextPage, n - 1);
    }
  }

  lemma ChainSplits(pages: Pages, start: PageId, n: nat)
    requires |Chain(pages, start, n)| == n > 0
    ensures start in pages && Chain(pages, start, n) == [start] + Chain(pages, pages[start].nextPage, n - 1)
  {
  }

  lemma ChainFrom(pages: Pages, start: PageId, n: nat)
    requires start in pages && n > 0
    ensures Chain(pages, start, n) == [start] + Chain(pages, pages[start].nextPage, n - 1)
  {
  }

  lemma Push(members: set<PageId>, first: PageId, pages: Pages, n: nat, p: PageId, pages': Pages)
    requires Stacked(members, first, pages, n) && p !in members && p != 0
    requires p in pages' && pages'[p].nextPage == first
    requires forall r | r in members :: r in pages' && pages'[r].nextPage == pages[r].nextPage
    ensures Stacked(members + {p}, p, pages', n + 1)
    ensures Chain(pages', p, n + 1) == [p] + Chain(pages, first, n)
  {
    SameChain(pages, pages', first, n);
    var list := Chain(pages, first, n);
    assert Chain(pages', p, n + 1) == [p] + list;
    assert forall q | q in list :: q in [p] + list;
  }

  lemma Pop(members: set<PageId>, first: PageId, pages: Pages, n: nat)
    requires Stacked(members, first, pages, n) && n > 0
    ensures first in members
    ensures Stacked(members - {first}, pages[first].nextPage, pages, n - 1)
    ensures Chain(pages, first, n) == [first] + Chain(pages, pages[first].nextPage, n - 1)
    ensures n == 1 <==> pages[first].nextPage == 0
  {
    hide Chain;
    ChainSplits(pages, first, n);
    var list, rest := Chain(pages, first, n), Chain(pages, pages[first].nextPage, n - 1);
    assert list[0] == first;
    forall i | 0 <= i < |rest|
      ensures rest[i] in members && rest[i] != first
    {
      assert rest[i] == list[i + 1];
    }
    forall p | p in members - {first}
      ensures p in rest
    {
      assert p in list;
      var i :| 0 <= i < |list| && list[i] == p;
      assert rest[i - 1] == p;
    }
    forall i, j | 0 <= i < j < n - 1
      ensures rest[i] != rest[j]
    {
      assert list[i + 1] != list[j + 1];
    }
    if n > 1 {
      assert list[1] == rest[0];
      ChainSplits(pages, pages[first].nextPage, n - 1);
    }
  }

  lemma StackedFrame(members: set<PageId>, first: PageId, pages: Pages, n: nat, pages': Pages)
    requires Stacked(members, first, pages, n)
    requires forall r | r in members :: r in pages' && pages'[r].nextPage == pages[r].nextPage
    ensures Stacked(members, first, pages', n) && Chain(pages', first, n) == Chain(pages, first, n)
  {
    SameChain(pages, pages', first, n);
  }

  // A list in ascending order is walked in as many steps as it has members, each met once, in order.
  lemma {:induction false} AscendingWalk(members: set<PageId>, first: PageId, pages: Pages)
    requires Ascending(members, first, pages)
    ensures Stacked(members, first, pages, |members|)
    ensures var list := Chain(pages, first, |members|); forall i, j | 0 <= i < j < |list| :: list[i] < list[j]
    decreases |members|
  {
    hide Chain, IsNext, Stacked, Ascending;
    if members == {} {
      EmptyWalk(first, pages);
    } else {
      FirstIsLeast(members, first, pages);
      var rest, next := members - {first}, pages[first].nextPage;
      AscendingWalk(rest, next, pages);
      assert members == rest + {first};
      WalkFrom(rest, first, pages);
    }
  }

  lemma WalkFrom(rest: set<PageId>, first: PageId, pages: Pages)
    requires first in pages && first != 0 && first !in rest && rest <= pages.Keys && forall r | r in rest :: first <= r
    requires var next := pages[first].nextPage;
             && Stacked(rest, next, pages, |rest|)
             && var list := Chain(pages, next, |rest|); forall i, j | 0 <= i < j < |list| :: list[i] < list[j]
    ensures Stacked(rest + {first}, first, pages, |rest| + 1)
    ensures var list := Chain(pages, first, |rest| + 1); forall i, j | 0 <= i < j < |list| :: list[i] < list[j]
  {
    hide Chain, Stacked;
    var next := pages[first].nextPage;
    Push(rest, next, pages, |rest|, first, pages);
    StackedMembers(rest, next, pages, |rest|);
    WalkInOrder(rest, first, Chain(pages, next, |rest|));
  }

  lemma EmptyWalk(first: PageId, pages: Pages)
    requires Ascending({}, first, pages)
    ensures Stacked({}, first, pages, 0) && Chain(pages, first, 0) == []
  {
  }

  lemma StackedMembers(members: set<PageId>, first: PageId, pages: Pages, n: nat)
    requires Stacked(members, first, pages, n)
    ensures var list := Chain(pages, first, n); forall i | 0 <= i < |list| :: list[i] in members
  {
  }

  lemma FirstIsLeast(members: set<PageId>, first: PageId, pages: Pages)
    requires Ascending(members, first, pages) && members != {}
    ensures first in members && members <= pages.Keys && first != 0 && forall r | r in members :: first <= r
    ensures Ascending(members - {first}, pages[first].nextPage, pages)
    ensures |members| == |members - {first}| + 1
  {
    var r :| r in members;
    LeastHasNoneBelow(members, first);
    LinkOut(members, first, pages, first, pages[first].nextPage, pages);
  }

  lemma WalkInOrder(rest: set<PageId>, first: PageId, list: seq<PageId>)
    requires forall i | 0 <= i < |list| :: list[i] in rest
    requires first !in rest && forall r | r in rest :: first <= r
    requires forall i, j | 0 <= i < j < |list| :: list[i] < list[j]
    ensures forall i, j | 0 <= i < j < |[first] + list| :: ([first] + list)[i] < ([first] + list)[j]
  {
  }

  lemma LeastHasNoneBelow(members: set<PageId>, first: PageId)
    requires IsNext(members, 0, first) && first != 0 && 0 !in members
    ensures LastBelow(members, first) == 0
  {
  }
}
