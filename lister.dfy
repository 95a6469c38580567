/** The repository lister: walks the paginated listing from page 0 and emits
    every repository of every page it visits, in server order. */
module Lister {
  import opened GitHub

  /** How a listing ends: every page was read, or an error was fatal. */
  datatype ListOutcome = Complete | Fatal(message: string)

  /** The pages requested, the repositories emitted and how the walk ended. */
  datatype Listing = Listing(pages: seq<int>, emitted: seq<Repo>, outcome: ListOutcome)

  /** The loop's stop condition for the answer to `page`: an error, or a
      reported next page that does not advance past `page`. */
  predicate Stops(r: Response, page: int)
  {
    r.ListError? || r.nextPage <= page
  }

  /** The loop, started at cursor `page`, stops within `fuel` more requests.
      The loop has no bound of its own; a run of it that ends is one on a
      server for which this holds for some fuel. */
  ghost predicate Terminates(server: Server, page: int, fuel: nat)
    decreases fuel
  {
    Stops(server(page), page) || (fuel > 0 && Terminates(server, server(page).nextPage, fuel - 1))
  }

  /** What the loop does from cursor `page` on. */
  function ListFrom(server: Server, page: int, fuel: nat): (l: Listing)
    requires Terminates(server, page, fuel)
    ensures |l.pages| >= 1 && l.pages[0] == page
    decreases fuel
  {
    match server(page)
    case ListError(msg) => Listing([page], [], Fatal(msg))
    case Listed(items, next) =>
      if next <= page then Listing([page], items, Complete)
      else
        var rest := ListFrom(server, next, fuel - 1);
        Listing([page] + rest.pages, items + rest.emitted, rest.outcome)
  }

  /** The repositories of the pages `ps`, concatenated in order; a page whose
      answer is an error contributes nothing. */
  function ItemsOf(server: Server, ps: seq<int>): (r: seq<Repo>)
  {
    if ps == [] then []
    else
      (match server(ps[0]) case ListError(_) => [] case Listed(items, _) => items)
      + ItemsOf(server, ps[1..])
  }

  /** `ps` is a walk of the pagination from `start`: every page but the last
      was answered with a next page larger than itself, which is the page
      requested after it, and the last page satisfies the stop condition. */
  ghost predicate IsPageWalk(server: Server, start: int, ps: seq<int>)
  {
    && |ps| >= 1
    && ps[0] == start
    && (forall i :: 0 <= i < |ps| - 1 ==>
          && server(ps[i]).Listed?
          && ps[i] < server(ps[i]).nextPage
          && server(ps[i]).nextPage == ps[i + 1])
    && Stops(server(ps[|ps| - 1]), ps[|ps| - 1])
  }

  lemma {:induction false} ItemsOfAppend(server: Server, a: seq<int>, b: seq<int>)
    ensures ItemsOf(server, a + b) == ItemsOf(server, a) + ItemsOf(server, b)
  {
    if a != [] {
      assert (a + b)[1..] == a[1..] + b;
      ItemsOfAppend(server, a[1..], b);
    } else {
      assert a + b == b;
    }
  }

  /** The listing visits a page walk, emits exactly the items of the pages
      visited (no filtering, no deduplication), and is fatal exactly when the
      last page visited was answered with an error, whose message it keeps. */
  lemma {:induction false} ListingIsPageWalk(server: Server, page: int, fuel: nat)
    requires Terminates(server, page, fuel)
    ensures var l := ListFrom(server, page, fuel);
      && IsPageWalk(server, page, l.pages)
      && l.emitted == ItemsOf(server, l.pages)
      && (l.outcome.Fatal? <==> server(l.pages[|l.pages| - 1]).ListError?)
      && (l.outcome.Fatal? ==> l.outcome.message == server(l.pages[|l.pages| - 1]).message)
    decreases fuel
  {
    var l := ListFrom(server, page, fuel);
    match server(page)
    case ListError(msg) =>
    case Listed(items, next) =>
      if next > page {
        ListingIsPageWalk(server, next, fuel - 1);
        var rest := ListFrom(server, next, fuel - 1);
        assert l.pages == [page] + rest.pages;
        assert l.pages[1..] == rest.pages;
        forall i | 0 <= i < |l.pages| - 1
          ensures server(l.pages[i]).Listed? && l.pages[i] < server(l.pages[i]).nextPage
          ensures server(l.pages[i]).nextPage == l.pages[i + 1]
        {
          if i > 0 {
            assert l.pages[i] == rest.pages[i - 1];
          }
        }
      }
  }

  /** There is only one page walk from a given start: the listing's. */
  lemma {:induction false} PageWalkIsListing(server: Server, page: int, fuel: nat, ps: seq<int>)
    requires Terminates(server, page, fuel)
    requires IsPageWalk(server, page, ps)
    ensures ps == ListFrom(server, page, fuel).pages
    decreases fuel
  {
    if |ps| > 1 {
      var next := server(page).nextPage;
      assert next == ps[1] > page;
      var rest := ps[1..];
      assert IsPageWalk(server, next, rest) by {
        forall i | 0 <= i < |rest| - 1
          ensures server(rest[i]).Listed? && rest[i] < server(rest[i]).nextPage
          ensures server(rest[i]).nextPage == rest[i + 1]
        {
          assert rest[i] == ps[i + 1] && rest[i + 1] == ps[i + 2];
        }
      }
      PageWalkIsListing(server, next, fuel - 1, rest);
      assert ps == [page] + rest;
    } else {
      assert Stops(server(page), page);
    }
  }

  /** Along a page walk the cursor strictly increases. */
  lemma {:induction false} PageWalkIncreases(server: Server, start: int, ps: seq<int>)
    requires IsPageWalk(server, start, ps)
    ensures forall i, j :: 0 <= i < j < |ps| ==> ps[i] < ps[j]
  {
    forall i, j | 0 <= i < j < |ps| ensures ps[i] < ps[j] {
      var k := i;
      while k < j
        invariant i <= k <= j
        invariant ps[i] <= ps[k]
        invariant k > i ==> ps[i] < ps[k]
      {
        assert ps[k] < ps[k + 1];
        k := k + 1;
      }
    }
  }

  /** A listing error is fatal and nothing from the failing page (or any
      later page) is emitted: the output is exactly the items of the pages
      before it. An error on the very first page emits nothing at all. */
  lemma FatalEmitsOnlyEarlierPages(server: Server, page: int, fuel: nat)
    requires Terminates(server, page, fuel)
    requires ListFrom(server, page, fuel).outcome.Fatal?
    ensures var l := ListFrom(server, page, fuel);
      l.emitted == ItemsOf(server, l.pages[..|l.pages| - 1])
    ensures server(page).ListError? ==> ListFrom(server, page, fuel).emitted == []
  {
    var l := ListFrom(server, page, fuel);
    ListingIsPageWalk(server, page, fuel);
    var n := |l.pages|;
    assert l.pages == l.pages[..n - 1] + [l.pages[n - 1]];
    ItemsOfAppend(server, l.pages[..n - 1], [l.pages[n - 1]]);
    assert ItemsOf(server, [l.pages[n - 1]]) == [] by {
      assert [l.pages[n - 1]][1..] == [];
    }
  }

  /** Sends one page's repositories into the queue, one by one, in order. */
  method Send(queue: seq<Repo>, items: seq<Repo>) returns (sent: seq<Repo>)
    ensures sent == queue + items
  {
    sent := queue;
    for i := 0 to |items|
      invariant sent == queue + items[..i]
    {
      sent := sent + [items[i]];
    }
    assert items[..|items|] == items;
  }

  /** One step of the walk from a page that advances: that page, then the
      walk from the next page. */
  lemma ListFromAdvances(server: Server, page: int, fuel: nat)
    requires Terminates(server, page, fuel)
    requires server(page).Listed? && page < server(page).nextPage
    ensures fuel > 0 && Terminates(server, server(page).nextPage, fuel - 1)
    ensures var rest := ListFrom(server, server(page).nextPage, fuel - 1);
      ListFrom(server, page, fuel)
        == Listing([page] + rest.pages, server(page).items + rest.emitted, rest.outcome)
  {
  }

  /** The pagination loop: request the cursor's page, emit its repositories
      one by one, stop when the reported next page does not advance, else
      move the cursor to it. A listing error ends the run. Returns the pages
      requested, the repositories emitted and how the listing ended. */
  method ListRepos(server: Server, ghost fuel: nat) returns (requested: seq<int>, emitted: seq<Repo>, outcome: ListOutcome)
    requires Terminates(server, 0, fuel)
    ensures Listing(requested, emitted, outcome) == ListFrom(server, 0, fuel)
  {
    var page := 0;
    requested, emitted := [], [];
    ghost var total := ListFrom(server, 0, fuel);
    ghost var left := fuel;
    while true
      invariant Terminates(server, page, left)
      invariant requested + ListFrom(server, page, left).pages == total.pages
      invariant emitted + ListFrom(server, page, left).emitted == total.emitted
      invariant ListFrom(server, page, left).outcome == total.outcome
      decreases left
    {
      var resp := server(page);
      if resp.ListError? {
        requested := requested + [page];
        outcome := Fatal(resp.message);
        return;
      }
      if resp.nextPage <= page {
        requested := requested + [page];
        emitted := Send(emitted, resp.items);
        outcome := Complete;
        return;
      }
      ListFromAdvances(server, page, left);
      ghost var rest := ListFrom(server, resp.nextPage, left - 1);
      assert (requested + [page]) + rest.pages == requested + ([page] + rest.pages);
      assert (emitted + resp.items) + rest.emitted == emitted + (resp.items + rest.emitted);
      requested := requested + [page];
      emitted := Send(emitted, resp.items);
      page, left := resp.nextPage, left - 1;
    }
  }

  /** A server whose page 3 reports 3 as its next page: the listing stops
      after page 3 and never sees the later page 5. */
  lemma StopsWhenNextPageDoesNotAdvance(a: Repo, b: Repo, c: Repo, d: Repo)
    ensures var server: Server := p =>
        if p == 0 then Listed([a], 2)
        else if p == 2 then Listed([b], 3)
        else if p == 3 then Listed([c], 3)
        else Listed([d], 0);
      && Terminates(server, 0, 2)
      && ListFrom(server, 0, 2) == Listing([0, 2, 3], [a, b, c], Complete)
  {
  }
}
