/**
 * `fetch_and_store` and `get_articles` of modal_scraper.py: the merged,
 * de-duplicated, sorted payload and the persistent dictionary that keeps
 * the latest one under the key "latest".
 */
module Scraper {
  import opened Feed
  import opened Dedup
  import opened Ordering
  import opened Fetch

  /** The stored payload: articles, failed source labels, fetch time and article count. */
  datatype Payload = Payload(articles: seq<Article>, errors: seq<string>, fetchedAt: string, count: nat)

  const LatestKey: string := "latest"

  /** The payload one run of `fetch_and_store` builds. */
  function Refresh(sources: seq<Source>, env: Env): Payload
  {
    var sorted := SortNewestFirst(Unique(Merged(sources, env)));
    Payload(sorted, FailedLabels(sources, env), env.isoFormat(UtcNow(env)), |sorted|)
  }

  /** What every payload `fetch_and_store` stores satisfies. */
  predicate WellFormed(p: Payload) {
    p.count == |p.articles| && NewestFirst(p.articles) && DistinctIds(p.articles)
  }

  /**
   * The payload's articles are the de-duplicated merge, reordered newest
   * first without breaking ties, with distinct ids covering every merged
   * id; its count is their number and its errors the failed labels.
   */
  lemma RefreshIsWellFormed(sources: seq<Source>, env: Env)
    ensures var p := Refresh(sources, env);
      && WellFormed(p)
      && multiset(p.articles) == multiset(Unique(Merged(sources, env)))
      && Ids(p.articles) == Ids(Merged(sources, env))
      && (forall k :: WithDate(p.articles, k) == WithDate(Unique(Merged(sources, env)), k))
      && p.errors == FailedLabels(sources, env)
  {
    var u := Unique(Merged(sources, env));
    var r := SortNewestFirst(u);
    SortKeepsDistinctIds(u);
    forall k ensures WithDate(r, k) == WithDate(u, k) {
      SortIsStable(u, k);
    }
    assert Ids(r) == Ids(u) by {
      forall id | id in Ids(r) ensures id in Ids(u) {
        var i :| 0 <= i < |r| && r[i].id == id;
        assert r[i] in multiset(u);
        var m :| 0 <= m < |u| && u[m] == r[i];
      }
      forall id | id in Ids(u) ensures id in Ids(r) {
        var i :| 0 <= i < |u| && u[i].id == id;
        assert u[i] in multiset(r);
        var m :| 0 <= m < |r| && r[m] == u[i];
      }
    }
  }

  /**
   * Every stored article is the first merged article with its id, so when
   * two sources report the same url the earlier source's record is kept.
   */
  lemma RefreshKeepsFirstReport(sources: seq<Source>, env: Env)
    ensures var all := Merged(sources, env);
      forall a :: a in Refresh(sources, env).articles ==> a.id in Ids(all) && a == all[FirstIndex(all, a.id)]
  {
    var all := Merged(sources, env);
    var u := Unique(all);
    UniqueKeepsFirstInOrder(all);
    forall a | a in Refresh(sources, env).articles ensures a.id in Ids(all) && a == all[FirstIndex(all, a.id)] {
      assert a in multiset(u);
      var i :| 0 <= i < |u| && u[i] == a;
    }
  }

  /** When every source fails, the payload holds no article and lists every source. */
  lemma TotalFailure(sources: seq<Source>, env: Env)
    requires forall i :: 0 <= i < |sources| ==> Accepted(sources[i], env).None?
    ensures Refresh(sources, env).articles == [] && Refresh(sources, env).count == 0
    ensures Refresh(sources, env).errors == Labels(sources)
  {
    AllFailedMergesNothing(sources, env);
  }

  lemma {:induction false} AllFailedMergesNothing(sources: seq<Source>, env: Env)
    requires forall i :: 0 <= i < |sources| ==> Accepted(sources[i], env).None?
    ensures Merged(sources, env) == []
    ensures FailedLabels(sources, env) == Labels(sources)
  {
    AllFailedListsEveryLabel(sources, env);
    if sources != [] {
      AllFailedMergesNothing(sources[..|sources| - 1], env);
    }
  }

  /** The payload-building part of `fetch_and_store`, which changes nothing. */
  method BuildPayload(sources: seq<Source>, env: Env) returns (payload: Payload)
    ensures payload == Refresh(sources, env)
    ensures WellFormed(payload)
  {
    var all, errors := Collect(sources, env);
    var unique := Deduplicate(all);
    var sorted := SortNewestFirst(unique);
    payload := Payload(sorted, errors, env.isoFormat(UtcNow(env)), |sorted|);
    RefreshIsWellFormed(sources, env);
  }

  /** The persistent dictionary `articles_store`, holding payloads by key. */
  class ArticleStore {
    var entries: map<string, Payload>

    /** The dictionary as it is found, possibly holding a payload of an earlier run. */
    constructor (initial: map<string, Payload>)
      ensures entries == initial
    {
      entries := initial;
    }

    /** `fetch_and_store`: build the payload and overwrite the "latest" entry with it. */
    method FetchAndStore(sources: seq<Source>, env: Env) returns (payload: Payload)
      modifies this
      ensures payload == Refresh(sources, env) && WellFormed(payload)
      ensures entries == old(entries)[LatestKey := payload]
    {
      payload := BuildPayload(sources, env);
      entries := entries[LatestKey := payload];
    }

    /**
     * `get_articles`: the stored payload unchanged when there is one;
     * otherwise a fresh `fetch_and_store`, which also stores it.
     */
    method GetArticles(sources: seq<Source>, env: Env) returns (payload: Payload)
      modifies this
      ensures LatestKey in old(entries) ==> payload == old(entries)[LatestKey] && entries == old(entries)
      ensures LatestKey !in old(entries) ==>
        payload == Refresh(sources, env) && entries == old(entries)[LatestKey := payload]
      ensures LatestKey in entries && entries[LatestKey] == payload
    {
      if LatestKey in entries {
        payload := entries[LatestKey];
      } else {
        payload := FetchAndStore(sources, env);
      }
    }
  }

  /**
   * A store filled by one run serves that run's payload afterwards, whatever
   * the sources would return by then: nothing is fetched again.
   */
  method ServeAfterRefresh(sources: seq<Source>, later: seq<Source>, env: Env, laterEnv: Env) returns (served: Payload)
    ensures served == Refresh(sources, env)
  {
    var store := new ArticleStore(map[]);
    var stored := store.FetchAndStore(sources, env);
    served := store.GetArticles(later, laterEnv);
  }
}
