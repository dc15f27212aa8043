/**
 * The de-duplication step of `fetch_and_store` (modal_scraper.py): the
 * merged articles are walked in order and an article whose id was already
 * seen is dropped, so the first occurrence of each id wins.
 */
module Dedup {
  import opened Feed

  /** The ids occurring in `s`. */
  function Ids(s: seq<Article>): set<string> {
    set i | 0 <= i < |s| :: s[i].id
  }

  predicate DistinctIds(s: seq<Article>) {
    forall i, j :: 0 <= i < j < |s| ==> s[i].id != s[j].id
  }

  /** The position of the first article of `s` with this id. */
  function FirstIndex(s: seq<Article>, id: string): (k: nat)
    requires id in Ids(s)
    ensures k < |s| && s[k].id == id
    ensures forall j :: 0 <= j < k ==> s[j].id != id
  {
    if s[0].id == id then 0
    else
      var i :| 0 <= i < |s| && s[i].id == id;
      assert s[1..][i - 1].id == id;
      1 + FirstIndex(s[1..], id)
  }

  lemma IdsSnoc(s: seq<Article>, x: Article)
    ensures Ids(s + [x]) == Ids(s) + {x.id}
  {
    var t := s + [x];
    forall id | id in Ids(t) ensures id in Ids(s) + {x.id} {
      var i :| 0 <= i < |t| && t[i].id == id;
      if i < |s| {
        assert s[i].id == id;
      }
    }
    forall id | id in Ids(s) ensures id in Ids(t) {
      var i :| 0 <= i < |s| && s[i].id == id;
      assert t[i].id == id;
    }
    assert t[|s|].id == x.id;
  }

  /** A position holding the id with none before it is the first index. */
  lemma FirstIndexIsUnique(s: seq<Article>, id: string, k: nat)
    requires k < |s| && s[k].id == id
    requires forall j :: 0 <= j < k ==> s[j].id != id
    ensures id in Ids(s) && FirstIndex(s, id) == k
  {
    assert s[k].id in Ids(s);
  }

  /** The articles kept by the loop over `all_articles`: one per id, the first one seen. */
  function Unique(s: seq<Article>): (r: seq<Article>)
    ensures Ids(r) == Ids(s)
    ensures DistinctIds(r)
  {
    if s == [] then []
    else
      var prefix := s[..|s| - 1];
      var d := Unique(prefix);
      var last := s[|s| - 1];
      assert s == prefix + [last];
      IdsSnoc(prefix, last);
      IdsSnoc(d, last);
      if last.id in Ids(d) then d else d + [last]
  }

  /**
   * Each kept article is the first article of the input with its id, and the
   * kept articles keep the relative order of the input.
   */
  lemma {:induction false} UniqueKeepsFirstInOrder(s: seq<Article>)
    ensures forall i :: 0 <= i < |Unique(s)| ==>
      Unique(s)[i].id in Ids(s) && Unique(s)[i] == s[FirstIndex(s, Unique(s)[i].id)]
    ensures forall i, j :: 0 <= i < j < |Unique(s)| ==>
      Unique(s)[i].id in Ids(s) && Unique(s)[j].id in Ids(s) &&
      FirstIndex(s, Unique(s)[i].id) < FirstIndex(s, Unique(s)[j].id)
  {
    if s != [] {
      var prefix := s[..|s| - 1];
      var last := s[|s| - 1];
      var d := Unique(prefix);
      var r := Unique(s);
      UniqueKeepsFirstInOrder(prefix);
      assert s == prefix + [last];
      forall i | 0 <= i < |d|
        ensures d[i].id in Ids(s) && FirstIndex(s, d[i].id) == FirstIndex(prefix, d[i].id) < |prefix|
        ensures s[FirstIndex(s, d[i].id)] == d[i]
      {
        FirstIndexSnoc(prefix, last, d[i].id);
      }
      if last.id !in Ids(d) {
        assert r == d + [last];
        forall j | 0 <= j < |prefix| ensures s[j].id != last.id {
          assert prefix[j].id in Ids(prefix);
        }
        FirstIndexIsUnique(s, last.id, |prefix|);
      }
      forall i | 0 <= i < |r| ensures r[i].id in Ids(s) && r[i] == s[FirstIndex(s, r[i].id)] {
        if i < |d| {
          assert r[i] == d[i];
        }
      }
      forall i, j | 0 <= i < j < |r|
        ensures r[i].id in Ids(s) && r[j].id in Ids(s) && FirstIndex(s, r[i].id) < FirstIndex(s, r[j].id)
      {
        assert r[i] == d[i];
        if j < |d| {
          assert r[j] == d[j];
        }
      }
    }
  }

  /** Appending an article does not move the first index of an id already present. */
  lemma FirstIndexSnoc(prefix: seq<Article>, last: Article, id: string)
    requires id in Ids(prefix)
    ensures id in Ids(prefix + [last])
    ensures FirstIndex(prefix + [last], id) == FirstIndex(prefix, id)
  {
    var s := prefix + [last];
    var k := FirstIndex(prefix, id);
    assert s[k] == prefix[k];
    FirstIndexIsUnique(s, id, k);
  }

  /** The de-duplication loop: a `seen` set and a `unique` list filled step by step. */
  method Deduplicate(all: seq<Article>) returns (unique: seq<Article>)
    ensures unique == Unique(all)
  {
    var seen: set<string> := {};
    unique := [];
    for i := 0 to |all|
      invariant unique == Unique(all[..i])
      invariant seen == Ids(unique)
    {
      var a := all[i];
      assert all[..i + 1][..i] == all[..i];
      if a.id !in seen {
        seen := seen + {a.id};
        unique := unique + [a];
      }
    }
    assert all[..|all|] == all;
  }
}
