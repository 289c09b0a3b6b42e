/**
 The sitemap of apps/web/app/sitemap.ts: URL normalisation and deduplication, and the paged
 collectors that degrade to a prefix when a request fails.
 */
module Sitemap {
  import opened Wrappers
  import opened InsertionOrder

  // ---------- normalisation ----------

  /** `url.split('?')[0]` */
  function BeforeQuery(url: string): (s: string)
    ensures '?' !in s && s <= url
  {
    if url == [] || url[0] == '?' then [] else [url[0]] + BeforeQuery(url[1..])
  }

  /** What is cut off is nothing, or starts at the first question mark. */
  lemma {:induction false} QueryIsRest(url: string)
    ensures var n := |BeforeQuery(url)|;
            n == |url| || url[n] == '?'
  {
    if url != [] && url[0] != '?' {
      QueryIsRest(url[1..]);
    }
  }

  predicate EndsWith(s: string, c: char) {
    s != [] && s[|s| - 1] == c
  }

  /** One trailing slash is dropped, except from the site root. */
  function DropSlash(baseUrl: string, path: string): string {
    if EndsWith(path, '/') && path != baseUrl + ['/'] then path[..|path| - 1] else path
  }

  function Normalize(baseUrl: string, url: string): string {
    DropSlash(baseUrl, BeforeQuery(url))
  }

  lemma {:induction false} NoQueryIsKept(url: string)
    requires '?' !in url
    ensures BeforeQuery(url) == url
  {
    if url != [] {
      assert url[0] in url && forall c :: c in url[1..] ==> c in url;
      NoQueryIsKept(url[1..]);
    }
  }

  lemma NormalizeHasNoQuery(baseUrl: string, url: string)
    ensures '?' !in Normalize(baseUrl, url)
  {
    var path := BeforeQuery(url);
    assert forall c :: c in Normalize(baseUrl, url) ==> c in path;
  }

  predicate EndsWithTwoSlashes(s: string) {
    |s| >= 2 && s[|s| - 1] == '/' && s[|s| - 2] == '/'
  }

  /**
   A normalised URL never has a query. It ends in a slash exactly for the site root and for a path
   that ended in two slashes, of which only one is removed.
   */
  lemma TrailingSlash(baseUrl: string, url: string)
    ensures var path := BeforeQuery(url);
            EndsWith(Normalize(baseUrl, url), '/') <==> path == baseUrl + ['/'] || EndsWithTwoSlashes(path)
  {
  }

  /** Normalising twice changes something exactly when a second slash was left to remove. */
  lemma NormalizeTwice(baseUrl: string, url: string)
    ensures var n := Normalize(baseUrl, url);
            Normalize(baseUrl, n) == n <==>
            !(EndsWithTwoSlashes(BeforeQuery(url)) && BeforeQuery(url) != baseUrl + ['/'] && n != baseUrl + ['/'])
  {
    NormalizeHasNoQuery(baseUrl, url);
    NoQueryIsKept(Normalize(baseUrl, url));
    DropSlashTwice(baseUrl, BeforeQuery(url));
  }

  lemma DropSlashTwice(baseUrl: string, path: string)
    ensures var n := DropSlash(baseUrl, path);
            DropSlash(baseUrl, n) == n <==>
            !(EndsWithTwoSlashes(path) && path != baseUrl + ['/'] && n != baseUrl + ['/'])
  {
    var n := DropSlash(baseUrl, path);
    if EndsWith(n, '/') && n != baseUrl + ['/'] {
      assert |DropSlash(baseUrl, n)| == |n| - 1;
    }
  }

  /** A path with two trailing slashes keeps one. */
  lemma SecondSlashStays(baseUrl: string, path: string)
    requires '?' !in path && EndsWith(path, '/') && path != baseUrl && path != baseUrl + ['/']
    ensures Normalize(baseUrl, path + ['/']) == path
    ensures EndsWith(Normalize(baseUrl, path + ['/']), '/')
    ensures Normalize(baseUrl, path) == path[..|path| - 1]
  {
    NoQueryIsKept(path);
    NoQueryIsKept(path + ['/']);
    assert (path + ['/'])[..|path|] == path;
    assert (baseUrl + ['/'])[..|baseUrl|] == baseUrl;
  }

  lemma SecondSlashExample()
    ensures Normalize("b", "b/x//") == "b/x/" && Normalize("b", "b/x/") == "b/x"
  {
    SecondSlashStays("b", "b/x/");
    assert "b/x/" + ['/'] == "b/x//";
  }

  // ---------- deduplication ----------

  /** A sitemap entry: its URL, and the date, frequency and priority that go along. */
  datatype Entry = Entry(url: string, rest: string)

  function Keys(baseUrl: string, entries: seq<Entry>): seq<string> {
    seq(|entries|, i requires 0 <= i < |entries| => Normalize(baseUrl, entries[i].url))
  }

  function Urls(entries: seq<Entry>): seq<string> {
    seq(|entries|, i requires 0 <= i < |entries| => entries[i].url)
  }

  /** The state of the loop after the first `i` entries. */
  ghost predicate DedupedSoFar(baseUrl: string, entries: seq<Entry>, i: nat, seen: set<string>, out: seq<Entry>)
    requires i <= |entries|
  {
    && (forall u :: u in seen <==> u in Urls(out))
    && Urls(out) == FirstSeen(Keys(baseUrl, entries[..i]))
    && forall k :: 0 <= k < |out| ==> FirstOfKind(baseUrl, entries, out[k])
  }

  method Dedupe(baseUrl: string, entries: seq<Entry>) returns (out: seq<Entry>)
    ensures Urls(out) == FirstSeen(Keys(baseUrl, entries))
    ensures forall k :: 0 <= k < |out| ==> FirstOfKind(baseUrl, entries, out[k])
  {
    var seen: set<string> := {};
    out := [];
    for i := 0 to |entries|
      invariant DedupedSoFar(baseUrl, entries, i, seen, out)
    {
      var e := entries[i];
      var url := BeforeQuery(e.url);
      if EndsWith(url, '/') && url != baseUrl + ['/'] {
        url := url[..|url| - 1];
      }
      OneMoreKey(baseUrl, entries, i);
      if url in seen {
        continue;
      }
      KeepEntry(baseUrl, entries, i, seen, out);
      seen := seen + {url};
      out := out + [e.(url := url)];
    }
    assert entries[..|entries|] == entries;
  }

  /** An entry with a new URL keeps the loop's state. */
  lemma KeepEntry(baseUrl: string, entries: seq<Entry>, i: nat, seen: set<string>, out: seq<Entry>)
    requires i < |entries| && DedupedSoFar(baseUrl, entries, i, seen, out)
    requires Normalize(baseUrl, entries[i].url) !in seen
    ensures var url := Normalize(baseUrl, entries[i].url);
            DedupedSoFar(baseUrl, entries, i + 1, seen + {url}, out + [entries[i].(url := url)])
  {
    var url := Normalize(baseUrl, entries[i].url);
    var kept := entries[i].(url := url);
    OneMoreKey(baseUrl, entries, i);
    SeenBefore(baseUrl, entries, i);
    assert Urls(out + [kept]) == Urls(out) + [url];
    assert FirstOfKind(baseUrl, entries, kept);
  }

  /** `e` is the first entry with its normalised URL, under that URL. */
  ghost predicate FirstOfKind(baseUrl: string, entries: seq<Entry>, e: Entry) {
    exists i :: 0 <= i < |entries| && IsFirst(baseUrl, entries, i) && e == entries[i].(url := Normalize(baseUrl, entries[i].url))
  }

  ghost predicate IsFirst(baseUrl: string, entries: seq<Entry>, i: nat)
    requires i < |entries|
  {
    forall j :: 0 <= j < i ==> Normalize(baseUrl, entries[j].url) != Normalize(baseUrl, entries[i].url)
  }

  lemma OneMoreKey(baseUrl: string, entries: seq<Entry>, i: nat)
    requires i < |entries|
    ensures FirstSeen(Keys(baseUrl, entries[..i + 1])) ==
            AddOnce(FirstSeen(Keys(baseUrl, entries[..i])), Normalize(baseUrl, entries[i].url))
  {
    assert Keys(baseUrl, entries[..i + 1]) == Keys(baseUrl, entries[..i]) + [Normalize(baseUrl, entries[i].url)];
    AppendOne(Keys(baseUrl, entries[..i]), Normalize(baseUrl, entries[i].url));
  }

  lemma SeenBefore(baseUrl: string, entries: seq<Entry>, i: nat)
    requires i < |entries|
    ensures Normalize(baseUrl, entries[i].url) in FirstSeen(Keys(baseUrl, entries[..i])) <==> !IsFirst(baseUrl, entries, i)
  {
    var keys, url := Keys(baseUrl, entries[..i]), Normalize(baseUrl, entries[i].url);
    SameElements(keys, url);
    if j :| 0 <= j < i && Normalize(baseUrl, entries[j].url) == url {
      assert keys[j] == url;
    }
  }

  /** The URLs that come out are pairwise distinct, in order of first appearance, and cover every input. */
  lemma DedupeMeaning(baseUrl: string, entries: seq<Entry>, out: seq<Entry>)
    requires Urls(out) == FirstSeen(Keys(baseUrl, entries))
    ensures forall i, j :: 0 <= i < j < |out| ==> out[i].url != out[j].url
    ensures InFirstOrder(Keys(baseUrl, entries), Urls(out))
    ensures forall e :: e in entries ==> Normalize(baseUrl, e.url) in Urls(out)
  {
    var keys := Keys(baseUrl, entries);
    Distinct(keys);
    InOrder(keys);
    assert forall i :: 0 <= i < |out| ==> Urls(out)[i] == out[i].url;
    forall e | e in entries
      ensures Normalize(baseUrl, e.url) in Urls(out)
    {
      var i :| 0 <= i < |entries| && entries[i] == e;
      assert keys[i] == Normalize(baseUrl, e.url);
      SameElements(keys, keys[i]);
    }
  }

  // ---------- paged collection ----------

  /** The source's ceiling on requests per section. What follows holds for any ceiling `maxPages`. */
  const MAX_PAGES: nat := 240

  /** A row of a response: its slug and id, "" where missing, and the date, frequency and priority its entry gets. */
  datatype Row = Row(slug: string, id: string, rest: string)

  /** The entry a section makes of a row, if the row has what its URL needs. */
  type Route = Row -> Option<Entry>

  function ProductRoute(baseUrl: string): Route {
    (row: Row) =>
      var token := if row.slug != [] then row.slug else row.id;
      if token == [] then None else Some(Entry(baseUrl + "/products/" + token, row.rest))
  }

  function IndustryRoute(baseUrl: string): Route {
    (row: Row) => if row.slug == [] then None else Some(Entry(baseUrl + "/industry/" + row.slug, row.rest))
  }

  function CompanyRoute(baseUrl: string): Route {
    (row: Row) => if row.slug == [] then None else Some(Entry(baseUrl + "/companies/" + row.slug, row.rest))
  }

  /** The page of a row: by its slug, and for a product without one by its id. */
  lemma RouteUrls(baseUrl: string, slug: string, id: string, rest: string)
    ensures slug != [] ==>
              && ProductRoute(baseUrl)(Row(slug, id, rest)) == Some(Entry(baseUrl + "/products/" + slug, rest))
              && IndustryRoute(baseUrl)(Row(slug, id, rest)) == Some(Entry(baseUrl + "/industry/" + slug, rest))
              && CompanyRoute(baseUrl)(Row(slug, id, rest)) == Some(Entry(baseUrl + "/companies/" + slug, rest))
    ensures slug == [] && id != [] ==> ProductRoute(baseUrl)(Row(slug, id, rest)) == Some(Entry(baseUrl + "/products/" + id, rest))
    ensures slug == [] ==> IndustryRoute(baseUrl)(Row(slug, id, rest)) == None && CompanyRoute(baseUrl)(Row(slug, id, rest)) == None
    ensures slug == [] && id == [] ==> ProductRoute(baseUrl)(Row(slug, id, rest)) == None
  {
  }

  /** One response of a cursor listing: its rows, and the next cursor, "" for none. */
  datatype Page = Page(rows: seq<Row>, cursor: string)

  /** The entries of some rows; a row without one is skipped. */
  function Routes(route: Route, rows: seq<Row>): seq<Entry> {
    if rows == [] then []
    else
      var entry := route(rows[|rows| - 1]);
      Routes(route, rows[..|rows| - 1]) + (if entry.None? then [] else [entry.value])
  }

  predicate IsLast(p: Page) {
    p.cursor == [] || p.rows == []
  }

  /** What is collected from request number `page` on; `fails(k)` says that request `k` fails. */
  function Collect(maxPages: nat, route: Route, api: string -> Page, fails: nat -> bool, page: nat, cursor: string): seq<Entry>
    decreases maxPages - page
  {
    if page >= maxPages || fails(page) then []
    else
      var p := api(cursor);
      Routes(route, p.rows) + (if IsLast(p) then [] else Collect(maxPages, route, api, fails, page + 1, p.cursor))
  }

  /** The inner loop over the rows of a page. */
  method AppendRoutes(route: Route, out: seq<Entry>, rows: seq<Row>) returns (extended: seq<Entry>)
    ensures extended == out + Routes(route, rows)
  {
    extended := out;
    for k := 0 to |rows|
      invariant extended == out + Routes(route, rows[..k])
    {
      assert rows[..k + 1][..k] == rows[..k];
      var entry := route(rows[k]);
      if entry.None? {
        continue;
      }
      extended := extended + [entry.value];
    }
    assert rows[..|rows|] == rows;
  }

  lemma Regroup(a: seq<Entry>, b: seq<Entry>, c: seq<Entry>)
    ensures a + b + c == a + (b + c)
  {
  }

  method CursorRoutes(maxPages: nat, route: Route, api: string -> Page, fails: nat -> bool) returns (out: seq<Entry>, requests: nat)
    ensures out == Collect(maxPages, route, api, fails, 0, "")
    ensures requests <= maxPages
  {
    out, requests := [], 0;
    var cursor := "";
    for page := 0 to maxPages
      invariant requests == page
      invariant out + Collect(maxPages, route, api, fails, page, cursor) == Collect(maxPages, route, api, fails, 0, "")
    {
      requests := requests + 1;
      if fails(page) {
        return;
      }
      var res := api(cursor);
      ghost var before := out;
      out := AppendRoutes(route, out, res.rows);
      if IsLast(res) {
        return;
      }
      Regroup(before, Routes(route, res.rows), Collect(maxPages, route, api, fails, page + 1, res.cursor));
      cursor := res.cursor;
    }
  }

  /** The products: the cursor loop under the source's ceiling. */
  method ProductRoutes(baseUrl: string, api: string -> Page, fails: nat -> bool) returns (out: seq<Entry>, requests: nat)
    ensures requests <= MAX_PAGES
    ensures out == Collect(MAX_PAGES, ProductRoute(baseUrl), api, fails, 0, "")
  {
    hide *;
    out, requests := CursorRoutes(MAX_PAGES, ProductRoute(baseUrl), api, fails);
  }

  /** The industries, likewise. */
  method IndustryRoutes(baseUrl: string, api: string -> Page, fails: nat -> bool) returns (out: seq<Entry>, requests: nat)
    ensures requests <= MAX_PAGES
    ensures out == Collect(MAX_PAGES, IndustryRoute(baseUrl), api, fails, 0, "")
  {
    hide *;
    out, requests := CursorRoutes(MAX_PAGES, IndustryRoute(baseUrl), api, fails);
  }

  function NoFailure(k: nat): bool {
    false
  }

  /** A failure at any request leaves a prefix of what a fault-free collection gives. */
  lemma {:induction false} FailureLeavesPrefix(maxPages: nat, route: Route, api: string -> Page, fails: nat -> bool, page: nat, cursor: string)
    ensures Collect(maxPages, route, api, fails, page, cursor) <= Collect(maxPages, route, api, NoFailure, page, cursor)
    decreases maxPages - page
  {
    if page < maxPages && !fails(page) {
      var p := api(cursor);
      if !IsLast(p) {
        FailureLeavesPrefix(maxPages, route, api, fails, page + 1, p.cursor);
      }
    }
  }

  /** The pages from `cursor` on: the first `n` of them, as the server would list them. */
  function Chain(api: string -> Page, cursor: string, n: nat): seq<Page>
    decreases n
  {
    if n == 0 then [] else [api(cursor)] + Chain(api, api(cursor).cursor, n - 1)
  }

  function AllRoutes(route: Route, pages: seq<Page>): seq<Entry> {
    if pages == [] then [] else Routes(route, pages[0].rows) + AllRoutes(route, pages[1..])
  }

  lemma ChainStep(route: Route, api: string -> Page, cursor: string, n: nat)
    requires n > 0
    ensures AllRoutes(route, Chain(api, cursor, n)) ==
            Routes(route, api(cursor).rows) + AllRoutes(route, Chain(api, api(cursor).cursor, n - 1))
  {
    assert Chain(api, cursor, n)[1..] == Chain(api, api(cursor).cursor, n - 1);
  }

  /** The listing is exhausted by its `n`-th page and not before. */
  ghost predicate EndsAfter(api: string -> Page, cursor: string, n: nat)
    decreases n
  {
    n > 0 && if IsLast(api(cursor)) then n == 1 else EndsAfter(api, api(cursor).cursor, n - 1)
  }

  /** A listing that ends within the ceiling is collected whole. */
  lemma {:induction false} WholeListingCollected(maxPages: nat, route: Route, api: string -> Page, page: nat, cursor: string, n: nat)
    requires EndsAfter(api, cursor, n) && page + n <= maxPages
    ensures Collect(maxPages, route, api, NoFailure, page, cursor) == AllRoutes(route, Chain(api, cursor, n))
    decreases n
  {
    var p := api(cursor);
    ChainStep(route, api, cursor, n);
    if !IsLast(p) {
      WholeListingCollected(maxPages, route, api, page + 1, p.cursor, n - 1);
    }
  }

  /** None of the first `k` pages is the last. */
  ghost predicate GoesOn(api: string -> Page, cursor: string, k: nat)
    decreases k
  {
    k == 0 || (!IsLast(api(cursor)) && GoesOn(api, api(cursor).cursor, k - 1))
  }

  /** Of a listing that does not end within the ceiling, exactly the pages up to the ceiling are collected. */
  lemma {:induction false} CeilingCutsListing(maxPages: nat, route: Route, api: string -> Page, page: nat, cursor: string)
    requires page <= maxPages && GoesOn(api, cursor, maxPages - page)
    ensures Collect(maxPages, route, api, NoFailure, page, cursor) == AllRoutes(route, Chain(api, cursor, maxPages - page))
    decreases maxPages - page
  {
    if page < maxPages {
      CeilingCutsListing(maxPages, route, api, page + 1, api(cursor).cursor);
      ChainStep(route, api, cursor, maxPages - page);
    }
  }

  /** After `k` good requests a failure leaves exactly the rows of those `k` pages. */
  lemma {:induction false} FailureKeepsExactly(maxPages: nat, route: Route, api: string -> Page, fails: nat -> bool, page: nat, cursor: string, k: nat)
    requires GoesOn(api, cursor, k) && page + k < maxPages
    requires fails(page + k) && forall i: nat :: page <= i < page + k ==> !fails(i)
    ensures Collect(maxPages, route, api, fails, page, cursor) == AllRoutes(route, Chain(api, cursor, k))
    decreases k
  {
    if k > 0 {
      FailureKeepsExactly(maxPages, route, api, fails, page + 1, api(cursor).cursor, k - 1);
      ChainStep(route, api, cursor, k);
      CollectStep(maxPages, route, api, fails, page, cursor);
    }
  }

  lemma CollectStep(maxPages: nat, route: Route, api: string -> Page, fails: nat -> bool, page: nat, cursor: string)
    requires page < maxPages && !fails(page) && !IsLast(api(cursor))
    ensures Collect(maxPages, route, api, fails, page, cursor) ==
            Routes(route, api(cursor).rows) + Collect(maxPages, route, api, fails, page + 1, api(cursor).cursor)
  {
  }

  /** When the loop goes on: there is a cursor, and the page had rows. Otherwise this page is the last. */
  lemma GoesOnExactly(maxPages: nat, route: Route, api: string -> Page, fails: nat -> bool, page: nat, cursor: string)
    requires page < maxPages && !fails(page)
    ensures var p := api(cursor);
            Collect(maxPages, route, api, fails, page, cursor) ==
            Routes(route, p.rows) + if p.cursor != "" && p.rows != [] then Collect(maxPages, route, api, fails, page + 1, p.cursor) else []
  {
  }

  /** Routes keep the order of the rows, and leave out exactly those without an entry. */
  lemma RoutesInTurn(route: Route, rows: seq<Row>, row: Row)
    ensures Routes(route, []) == []
    ensures Routes(route, rows + [row]) == match route(row) case None => Routes(route, rows) case Some(e) => Routes(route, rows) + [e]
  {
    assert (rows + [row])[..|rows|] == rows;
  }

  // ---------- the directory, paged by number ----------

  datatype DirectoryPage = DirectoryPage(rows: seq<Row>, totalPages: nat)

  function CollectDirectory(maxPages: nat, route: Route, api: nat -> DirectoryPage, fails: nat -> bool, page: nat): seq<Entry>
    decreases maxPages + 1 - page
  {
    if page > maxPages || fails(page) then []
    else
      var p := api(page);
      Routes(route, p.rows) + (if IsLastDirectoryPage(p, page) then [] else CollectDirectory(maxPages, route, api, fails, page + 1))
  }

  method CompanyRoutes(maxPages: nat, route: Route, api: nat -> DirectoryPage, fails: nat -> bool) returns (out: seq<Entry>, requests: nat)
    ensures out == CollectDirectory(maxPages, route, api, fails, 1)
    ensures requests <= maxPages
  {
    out, requests := [], 0;
    for page := 1 to maxPages + 1
      invariant requests == page - 1
      invariant out + CollectDirectory(maxPages, route, api, fails, page) == CollectDirectory(maxPages, route, api, fails, 1)
    {
      requests := requests + 1;
      if fails(page) {
        return;
      }
      ghost var before := out;
      var exhausted;
      out, exhausted := AppendDirectoryPage(route, api, page, out);
      if exhausted {
        return;
      }
      Regroup(before, Routes(route, api(page).rows), CollectDirectory(maxPages, route, api, fails, page + 1));
    }
  }

  /** The companies: the numbered pages under the source's ceiling. */
  method CompanySection(baseUrl: string, api: nat -> DirectoryPage, fails: nat -> bool) returns (out: seq<Entry>, requests: nat)
    ensures requests <= MAX_PAGES
    ensures out == CollectDirectory(MAX_PAGES, CompanyRoute(baseUrl), api, fails, 1)
  {
    hide *;
    out, requests := CompanyRoutes(MAX_PAGES, CompanyRoute(baseUrl), api, fails);
  }

  predicate IsLastDirectoryPage(p: DirectoryPage, page: nat) {
    p.rows == [] || page >= p.totalPages
  }

  method AppendDirectoryPage(route: Route, api: nat -> DirectoryPage, page: nat, out: seq<Entry>) returns (extended: seq<Entry>, exhausted: bool)
    ensures extended == out + Routes(route, api(page).rows)
    ensures exhausted <==> IsLastDirectoryPage(api(page), page)
  {
    var res := api(page);
    extended := AppendRoutes(route, out, res.rows);
    exhausted := res.rows == [] || page >= res.totalPages;
  }

  /** When that loop goes on: the page had companies, and there are more pages. */
  lemma DirectoryGoesOnExactly(maxPages: nat, route: Route, api: nat -> DirectoryPage, fails: nat -> bool, page: nat)
    requires page <= maxPages && !fails(page)
    ensures var p := api(page);
            CollectDirectory(maxPages, route, api, fails, page) ==
            Routes(route, p.rows) + if p.rows != [] && page < p.totalPages then CollectDirectory(maxPages, route, api, fails, page + 1) else []
  {
  }

  lemma {:induction false} DirectoryFailureLeavesPrefix(maxPages: nat, route: Route, api: nat -> DirectoryPage, fails: nat -> bool, page: nat)
    ensures CollectDirectory(maxPages, route, api, fails, page) <= CollectDirectory(maxPages, route, api, NoFailure, page)
    decreases maxPages + 1 - page
  {
    if page <= maxPages && !fails(page) {
      DirectoryFailureLeavesPrefix(maxPages, route, api, fails, page + 1);
    }
  }

  /** The entries of the directory pages `page`, ..., `last`. */
  function DirectoryRoutes(route: Route, pages: nat -> seq<Row>, page: nat, last: nat): seq<Entry>
    decreases last + 1 - page
  {
    if page > last then [] else Routes(route, pages(page)) + DirectoryRoutes(route, pages, page + 1, last)
  }

  /** A directory of `total` nonempty pages is collected whole up to the ceiling. */
  lemma {:induction false} WholeDirectoryCollected(maxPages: nat, route: Route, api: nat -> DirectoryPage, page: nat, total: nat)
    requires 1 <= page <= total
    requires forall k: nat :: page <= k <= total ==> api(k).totalPages == total && api(k).rows != []
    ensures CollectDirectory(maxPages, route, api, NoFailure, page) ==
            DirectoryRoutes(route, (k: nat) => api(k).rows, page, if total <= maxPages then total else maxPages)
    decreases maxPages + 1 - page
  {
    if page <= maxPages && page < total {
      WholeDirectoryCollected(maxPages, route, api, page + 1, total);
    }
  }
}
