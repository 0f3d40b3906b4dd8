/** The depth-bounded, deduplicating web crawler of
    bootstrap/go_rulez/concurrent_web_crawler.go, run sequentially: the goroutine of
    each child link runs to completion before the next one starts, which is one legal
    interleaving of the original, and the mutex and the done-channel barrier become
    ordinary calls. */
module WebCrawler {
  import opened Wrappers

  type Url = string

  /** A fetch status as the cache stores it: None is Go's nil error. */
  type Status = Option<string>

  /** What `Fetcher.Fetch` returns: a body, the links found on the page, an error. */
  datatype FetchReply = FetchReply(body: string, urls: seq<Url>, err: Status)

  /** A fetcher is any function from URL to reply; `fakeFetcher` is one of them. */
  type Fetcher = Url -> FetchReply

  // ---------------------------------------------------------------------------
  // fakeFetcher

  datatype FakeResult = FakeResult(body: string, urls: seq<Url>)

  type FakeFetcher = map<Url, FakeResult>

  /** `fakeFetcher.Fetch`: the canned result for a known URL, "not found" otherwise. */
  function FakeFetch(f: FakeFetcher, url: Url): (r: FetchReply)
    ensures r.err == None <==> url in f
    ensures url in f ==> r.body == f[url].body && r.urls == f[url].urls
    ensures url !in f ==> r.body == "" && r.urls == [] && r.err == Some("not found: " + url)
  {
    if url in f then FetchReply(f[url].body, f[url].urls, None)
    else FetchReply("", [], Some("not found: " + url))
  }

  // ---------------------------------------------------------------------------
  // UrlCache

  /** The URL cache: URL to fetch status. The mutex guarding it is left out. */
  class UrlCache {
    var cache: map<Url, Status>

    /** `UrlCache{cache: make(map[string]error)}` as `Crawl` builds it. */
    constructor ()
      ensures cache == map[]
    {
      cache := map[];
    }

    /** Records `status` for `url`; every other entry stays as it was. */
    method PutUrl(url: Url, status: Status)
      modifies this
      ensures cache == old(cache)[url := status]
      ensures url in cache && cache[url] == status
      ensures forall u :: u != url ==> (u in cache <==> u in old(cache))
      ensures forall u :: u != url && u in old(cache) ==> cache[u] == old(cache)[u]
    {
      cache := cache[url := status];
    }

    /** The comma-ok lookup: the stored status and true, or nil and false. */
    method GetUrl(url: Url) returns (status: Status, ok: bool)
      ensures ok <==> url in cache
      ensures ok ==> status == cache[url]
      ensures !ok ==> status == None
    {
      ok := url in cache;
      status := if ok then cache[url] else None;
    }
  }

  // ---------------------------------------------------------------------------
  // The crawl as a function of the cache: the specification of CrawlHelper

  /** The cache together with the URLs passed to the fetcher so far, in call order. */
  datatype CrawlState = CrawlState(cache: map<Url, Status>, fetched: seq<Url>)

  /** What `CrawlHelper(url, depth, …)` does to the state. */
  function Explore(fetch: Fetcher, url: Url, depth: int, s: CrawlState): CrawlState
    decreases if depth < 0 then 0 else depth, 0
  {
    if depth <= 0 || url in s.cache then s
    else
      var reply := fetch(url);
      var recorded := CrawlState(s.cache[url := reply.err], s.fetched + [url]);
      if reply.err.Some? then recorded
      else ExploreAll(fetch, reply.urls, depth - 1, recorded)
  }

  /** Crawling the children of one page, in slice order, each to completion. */
  function ExploreAll(fetch: Fetcher, urls: seq<Url>, depth: int, s: CrawlState): CrawlState
    decreases if depth < 0 then 0 else depth, 1, |urls|
  {
    if urls == [] then s
    else ExploreAll(fetch, urls[1..], depth, Explore(fetch, urls[0], depth, s))
  }

  predicate Distinct(s: seq<Url>) {
    forall i, j :: 0 <= i < j < |s| ==> s[i] != s[j]
  }

  /** `t` is reachable from `s` by crawling with `fetch`: the cache only gained
      entries, old entries are untouched, every new entry is the status `fetch`
      returned for it, and the new entries are exactly the URLs fetched
      meanwhile, each of them once. */
  ghost predicate Extends(fetch: Fetcher, s: CrawlState, t: CrawlState) {
    && s.cache.Keys <= t.cache.Keys
    && (forall u :: u in s.cache ==> t.cache[u] == s.cache[u])
    && (forall u :: u in t.cache && u !in s.cache ==> t.cache[u] == fetch(u).err)
    && |s.fetched| <= |t.fetched|
    && t.fetched[..|s.fetched|] == s.fetched
    && Distinct(t.fetched[|s.fetched|..])
    && (forall u :: u in t.fetched[|s.fetched|..] <==> u in t.cache && u !in s.cache)
  }

  lemma ExtendsTransitive(fetch: Fetcher, s: CrawlState, t: CrawlState, w: CrawlState)
    requires Extends(fetch, s, t) && Extends(fetch, t, w)
    ensures Extends(fetch, s, w)
  {
    var a, b := t.fetched[|s.fetched|..], w.fetched[|t.fetched|..];
    assert w.fetched[..|t.fetched|][..|s.fetched|] == w.fetched[..|s.fetched|];
    assert w.fetched[|s.fetched|..] == a + b;
    forall i, j | 0 <= i < j < |a + b| ensures (a + b)[i] != (a + b)[j] {
      if j < |a| {
      } else if i < |a| {
        assert a[i] in a;
        assert b[j - |a|] in b;
      } else {
      }
    }
    forall u ensures u in a + b <==> u in w.cache && u !in s.cache {
      assert u in a + b <==> u in a || u in b;
    }
  }

  lemma {:induction false} ExploreExtends(fetch: Fetcher, url: Url, depth: int, s: CrawlState)
    ensures Extends(fetch, s, Explore(fetch, url, depth, s))
    decreases if depth < 0 then 0 else depth, 0
  {
    if depth <= 0 || url in s.cache {
      assert s.fetched[|s.fetched|..] == [];
    } else {
      var reply := fetch(url);
      var recorded := CrawlState(s.cache[url := reply.err], s.fetched + [url]);
      assert recorded.fetched[|s.fetched|..] == [url];
      assert Extends(fetch, s, recorded);
      if reply.err.None? {
        ExploreAllExtends(fetch, reply.urls, depth - 1, recorded);
        ExtendsTransitive(fetch, s, recorded, Explore(fetch, url, depth, s));
      }
    }
  }

  lemma {:induction false} ExploreAllExtends(fetch: Fetcher, urls: seq<Url>, depth: int, s: CrawlState)
    ensures Extends(fetch, s, ExploreAll(fetch, urls, depth, s))
    decreases if depth < 0 then 0 else depth, 1, |urls|
  {
    if urls == [] {
      assert s.fetched[|s.fetched|..] == [];
    } else {
      var first := Explore(fetch, urls[0], depth, s);
      ExploreExtends(fetch, urls[0], depth, s);
      ExploreAllExtends(fetch, urls[1..], depth, first);
      ExtendsTransitive(fetch, s, first, ExploreAll(fetch, urls, depth, s));
    }
  }

  /** With depth left, a crawl always ends with its URL in the cache: either it
      was there already or it is fetched and recorded now. */
  lemma ExploreRecords(fetch: Fetcher, url: Url, depth: int, s: CrawlState)
    requires depth >= 1
    ensures url in Explore(fetch, url, depth, s).cache
  {
    if url !in s.cache {
      var reply := fetch(url);
      var recorded := CrawlState(s.cache[url := reply.err], s.fetched + [url]);
      if reply.err.None? {
        ExploreAllExtends(fetch, reply.urls, depth - 1, recorded);
      }
    }
  }

  /** Crawling the links of a page reaches every one of them, whatever happens
      to the others: a link whose fetch fails does not stop its siblings. */
  lemma {:induction false} ExploreAllCovers(fetch: Fetcher, urls: seq<Url>, depth: int, s: CrawlState)
    requires depth >= 1
    ensures forall v :: v in urls ==> v in ExploreAll(fetch, urls, depth, s).cache
    decreases |urls|
  {
    if urls != [] {
      var first := Explore(fetch, urls[0], depth, s);
      ExploreRecords(fetch, urls[0], depth, s);
      ExploreAllExtends(fetch, urls[1..], depth, first);
      ExploreAllCovers(fetch, urls[1..], depth, first);
      forall v | v in urls ensures v in ExploreAll(fetch, urls, depth, s).cache {
        if v != urls[0] {
          assert v in urls[1..];
        }
      }
    }
  }

  /** A page fetched without error, with depth at least 2, has every one of its
      links in the cache when its crawl returns. */
  lemma ExploreCoversLinks(fetch: Fetcher, url: Url, depth: int, s: CrawlState)
    requires depth >= 2 && url !in s.cache && fetch(url).err == None
    ensures forall v :: v in fetch(url).urls ==> v in Explore(fetch, url, depth, s).cache
  {
    var reply := fetch(url);
    ExploreAllCovers(fetch, reply.urls, depth - 1, CrawlState(s.cache[url := reply.err], s.fetched + [url]));
  }

  /** `to` can be reached from `from` by following at most `hops` links of pages
      whose fetch succeeded. */
  ghost predicate Reachable(fetch: Fetcher, from: Url, to: Url, hops: nat)
    decreases hops
  {
    from == to
    || (hops > 0 && fetch(from).err.None?
        && exists v :: v in fetch(from).urls && Reachable(fetch, v, to, hops - 1))
  }

  /** Every URL that `CrawlHelper(url, depth, …)` adds to the cache lies within
      depth - 1 link hops of `url`. */
  lemma {:induction false} ExploreStaysInDepth(fetch: Fetcher, url: Url, depth: int, s: CrawlState, u: Url)
    requires u in Explore(fetch, url, depth, s).cache && u !in s.cache
    ensures depth >= 1 && Reachable(fetch, url, u, depth - 1)
    decreases if depth < 0 then 0 else depth, 0
  {
    var reply := fetch(url);
    var recorded := CrawlState(s.cache[url := reply.err], s.fetched + [url]);
    if u != url {
      assert reply.err.None?;
      var v := ExploreAllStaysInDepth(fetch, reply.urls, depth - 1, recorded, u);
      assert v in fetch(url).urls;
    }
  }

  lemma {:induction false} ExploreAllStaysInDepth(fetch: Fetcher, urls: seq<Url>, depth: int, s: CrawlState, u: Url)
      returns (v: Url)
    requires u in ExploreAll(fetch, urls, depth, s).cache && u !in s.cache
    ensures v in urls && depth >= 1 && Reachable(fetch, v, u, depth - 1)
    decreases if depth < 0 then 0 else depth, 1, |urls|
  {
    var first := Explore(fetch, urls[0], depth, s);
    if u in first.cache {
      ExploreStaysInDepth(fetch, urls[0], depth, s, u);
      v := urls[0];
    } else {
      v := ExploreAllStaysInDepth(fetch, urls[1..], depth, first, u);
      assert v in urls;
    }
  }

  // ---------------------------------------------------------------------------
  // The imperative crawler

  /** `CrawlHelper`, sequentialised. The ghost parameters follow the URLs handed to
      the fetcher: `log` is `log0` followed by this call's fetches. */
  method CrawlHelper(url: Url, depth: int, fetch: Fetcher, cache: UrlCache, ghost log0: seq<Url>)
      returns (ghost log: seq<Url>)
    modifies cache
    ensures CrawlState(cache.cache, log) == Explore(fetch, url, depth, CrawlState(old(cache.cache), log0))
    ensures Extends(fetch, CrawlState(old(cache.cache), log0), CrawlState(cache.cache, log))
    ensures depth <= 0 || url in old(cache.cache) ==> cache.cache == old(cache.cache) && log == log0
    ensures depth > 0 && url !in old(cache.cache) && fetch(url).err.Some? ==>
              cache.cache == old(cache.cache)[url := fetch(url).err] && log == log0 + [url]
    ensures depth > 0 && url !in old(cache.cache) ==>
              url in cache.cache && cache.cache[url] == fetch(url).err
    ensures depth >= 2 && url !in old(cache.cache) && fetch(url).err == None ==>
              forall v :: v in fetch(url).urls ==> v in cache.cache
    decreases if depth < 0 then 0 else depth
  {
    ghost var s0 := CrawlState(cache.cache, log0);
    ExploreExtends(fetch, url, depth, s0);
    if depth >= 2 && url !in s0.cache && fetch(url).err == None {
      ExploreCoversLinks(fetch, url, depth, s0);
    }
    log := log0;
    if depth <= 0 {
      return;
    }
    var _, ok := cache.GetUrl(url);
    if ok {
      return;
    }
    var reply := fetch(url);
    cache.PutUrl(url, reply.err);
    log := log + [url];
    if reply.err.Some? {
      return;
    }
    ghost var recorded := CrawlState(cache.cache, log);
    var i := 0;
    while i < |reply.urls|
      invariant 0 <= i <= |reply.urls|
      invariant ExploreAll(fetch, reply.urls[i..], depth - 1, CrawlState(cache.cache, log))
             == ExploreAll(fetch, reply.urls, depth - 1, recorded)
    {
      assert reply.urls[i..][1..] == reply.urls[i + 1..];
      log := CrawlHelper(reply.urls[i], depth - 1, fetch, cache, log);
      i := i + 1;
    }
    assert reply.urls[i..] == [];
    ExploreAllExtends(fetch, reply.urls, depth - 1, recorded);
  }

  /** `Crawl`: a fresh cache, one CrawlHelper call; the returned map is the cache
      that the original prints as its fetching stats. */
  method Crawl(url: Url, depth: int, fetch: Fetcher) returns (report: map<Url, Status>, ghost fetched: seq<Url>)
    ensures report == Explore(fetch, url, depth, CrawlState(map[], [])).cache
    ensures Distinct(fetched) && forall u :: u in fetched <==> u in report
    ensures forall u :: u in report ==> report[u] == fetch(u).err
    ensures forall u :: u in report ==> depth >= 1 && Reachable(fetch, url, u, depth - 1)
    ensures depth <= 0 ==> report == map[]
    ensures depth > 0 ==> url in report
    ensures depth >= 2 && fetch(url).err == None ==> forall v :: v in fetch(url).urls ==> v in report
  {
    var cache := new UrlCache();
    fetched := CrawlHelper(url, depth, fetch, cache, []);
    report := cache.cache;
    assert fetched[0..] == fetched;
    forall u | u in report ensures depth >= 1 && Reachable(fetch, url, u, depth - 1) {
      ExploreStaysInDepth(fetch, url, depth, CrawlState(map[], []), u);
    }
  }

  // ---------------------------------------------------------------------------
  // Concrete crawls

  const Root: Url := "https://golang.org/"
  const Pkg: Url := "https://golang.org/pkg/"
  const Cmd: Url := "https://golang.org/cmd/"
  const PkgFmt: Url := "https://golang.org/pkg/fmt/"
  const PkgOs: Url := "https://golang.org/pkg/os/"

  /** The populated `fetcher` of the original. */
  const GolangFetcher: FakeFetcher := map[
    Root := FakeResult("The Go Programming Language", [Pkg, Cmd]),
    Pkg := FakeResult("Packages", [Root, Cmd, PkgFmt, PkgOs]),
    PkgFmt := FakeResult("Package fmt", [Root, Pkg]),
    PkgOs := FakeResult("Package os", [Root, Pkg])
  ]

  function GolangFetch(url: Url): FetchReply {
    FakeFetch(GolangFetcher, url)
  }

  lemma GolangReplies()
    ensures GolangFetch(Root) == FetchReply("The Go Programming Language", [Pkg, Cmd], None)
    ensures GolangFetch(Pkg) == FetchReply("Packages", [Root, Cmd, PkgFmt, PkgOs], None)
    ensures GolangFetch(Cmd) == FetchReply("", [], Some("not found: " + Cmd))
    ensures GolangFetch(PkgFmt) == FetchReply("Package fmt", [Root, Pkg], None)
    ensures GolangFetch(PkgOs) == FetchReply("Package os", [Root, Pkg], None)
  {
    assert Cmd != Root && Cmd != Pkg && Cmd != PkgFmt && Cmd != PkgOs by {
      assert |Cmd| != |Root| && Cmd[19] != Pkg[19] && |Cmd| != |PkgFmt| && |Cmd| != |PkgOs|;
    }
  }

  /** `main`'s crawl, `Crawl("https://golang.org/", 4, fetcher)`: four pages are
      fetched, in this order, and the missing /cmd/ page is recorded with its error. */
  lemma MainCrawl()
    ensures Explore(GolangFetch, Root, 4, CrawlState(map[], []))
         == CrawlState(map[Root := None, Pkg := None, Cmd := Some("not found: " + Cmd),
                           PkgFmt := None, PkgOs := None],
                       [Root, Pkg, Cmd, PkgFmt, PkgOs])
  {
    var f: Fetcher := GolangFetch;
    GolangReplies();
    var s1 := CrawlState(map[Root := None], [Root]);
    var s2 := CrawlState(s1.cache[Pkg := None], s1.fetched + [Pkg]);
    var s3 := CrawlState(s2.cache[Cmd := Some("not found: " + Cmd)], s2.fetched + [Cmd]);
    var s4 := CrawlState(s3.cache[PkgFmt := None], s3.fetched + [PkgFmt]);
    var s5 := CrawlState(s4.cache[PkgOs := None], s4.fetched + [PkgOs]);
    assert Explore(f, PkgFmt, 2, s3) == s4 by {
      assert ExploreAll(f, [Pkg], 1, s4) == s4;
      assert ExploreAll(f, [Root, Pkg], 1, s4) == s4;
    }
    assert Explore(f, PkgOs, 2, s4) == s5 by {
      assert ExploreAll(f, [Pkg], 1, s5) == s5;
      assert ExploreAll(f, [Root, Pkg], 1, s5) == s5;
    }
    assert ExploreAll(f, [Root, Cmd, PkgFmt, PkgOs], 2, s2) == s5 by {
      assert Explore(f, Root, 2, s2) == s2;
      assert Explore(f, Cmd, 2, s2) == s3;
      assert ExploreAll(f, [PkgOs], 2, s4) == s5;
      assert ExploreAll(f, [PkgFmt, PkgOs], 2, s3) == s5;
      assert ExploreAll(f, [Cmd, PkgFmt, PkgOs], 2, s2) == s5;
    }
    assert Explore(f, Pkg, 3, s1) == s5;
    assert ExploreAll(f, [Pkg, Cmd], 3, s1) == s5 by {
      assert ExploreAll(f, [Cmd], 3, s5) == s5;
    }
    assert CrawlState(map[][Root := None], [] + [Root]) == s1 by {
      assert [] + [Root] == [Root];
    }
    assert Explore(f, Root, 4, CrawlState(map[], [])) == ExploreAll(f, [Pkg, Cmd], 3, s1);
    assert s5.fetched == [Root, Pkg, Cmd, PkgFmt, PkgOs];
  }

  /** A graph on which the first path to "c" is the longer one. */
  function DiamondFetch(url: Url): FetchReply {
    FakeFetch(map["a" := FakeResult("", ["b", "c"]), "b" := FakeResult("", ["c"]),
                  "c" := FakeResult("", ["d"]), "d" := FakeResult("", [])], url)
  }

  /** The crawl is not complete for its depth bound: "d" is two hops from "a"
      (through "c"), within the depth - 1 = 2 hops of `Crawl("a", 3, …)`, yet it is
      never fetched. "c" is first reached through "b" with depth 1, so its links
      get depth 0, and the later visit to "c" with depth 2 is skipped as cached. */
  lemma DepthFirstMissesPage()
    ensures Reachable(DiamondFetch, "a", "d", 2)
    ensures "d" !in Explore(DiamondFetch, "a", 3, CrawlState(map[], [])).cache
  {
    var f: Fetcher := DiamondFetch;
    assert f("a").urls == ["b", "c"] && f("a").err == None;
    assert f("b").urls == ["c"] && f("b").err == None;
    assert f("c").urls == ["d"] && f("c").err == None;
    assert Reachable(f, "c", "d", 1) by {
      assert "d" in f("c").urls && Reachable(f, "d", "d", 0);
    }
    assert "c" in f("a").urls;
    var s1 := CrawlState(map["a" := None], ["a"]);
    var s2 := CrawlState(s1.cache["b" := None], s1.fetched + ["b"]);
    var s3 := CrawlState(s2.cache["c" := None], s2.fetched + ["c"]);
    assert Explore(f, "c", 1, s2) == s3 by {
      assert ExploreAll(f, ["d"], 0, s3) == s3;
    }
    assert Explore(f, "b", 2, s1) == s3 by {
      assert ExploreAll(f, ["c"], 1, s2) == s3;
    }
    assert ExploreAll(f, ["b", "c"], 2, s1) == s3 by {
      assert ExploreAll(f, ["c"], 2, s3) == s3;
    }
    assert CrawlState(map[]["a" := None], [] + ["a"]) == s1 by {
      assert [] + ["a"] == ["a"];
    }
    assert Explore(f, "a", 3, CrawlState(map[], [])) == s3;
  }
}
