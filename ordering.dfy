/**
 * The final ordering of `fetch_and_store` (modal_scraper.py):
 * `unique.sort(key=lambda a: a["published_at"], reverse=True)`, a stable
 * sort on the published-at text, newest first. Python compares the strings
 * code point by code point.
 */
module Ordering {
  import opened Feed
  import opened Dedup

  /** Python's `a <= b` on strings. */
  predicate LexLe(a: string, b: string) {
    if a == [] then true
    else if b == [] then false
    else if a[0] != b[0] then a[0] < b[0]
    else LexLe(a[1..], b[1..])
  }

  lemma {:induction false} LexLeTotal(a: string, b: string)
    ensures LexLe(a, b) || LexLe(b, a)
  {
    if a != [] && b != [] && a[0] == b[0] {
      LexLeTotal(a[1..], b[1..]);
    }
  }

  lemma {:induction false} LexLeTransitive(a: string, b: string, c: string)
    requires LexLe(a, b) && LexLe(b, c)
    ensures LexLe(a, c)
  {
    if a != [] && b != [] && c != [] && a[0] == b[0] && b[0] == c[0] {
      LexLeTransitive(a[1..], b[1..], c[1..]);
    }
  }

  lemma {:induction false} LexLeAntisymmetric(a: string, b: string)
    requires LexLe(a, b) && LexLe(b, a)
    ensures a == b
  {
    if a != [] && b != [] {
      LexLeAntisymmetric(a[1..], b[1..]);
      assert a == [a[0]] + a[1..] && b == [b[0]] + b[1..];
    }
  }

  /** Non-increasing in `publishedAt`. */
  predicate NewestFirst(s: seq<Article>) {
    forall i, j :: 0 <= i < j < |s| ==> LexLe(s[j].publishedAt, s[i].publishedAt)
  }

  /** The articles of `s` whose `publishedAt` is `k`, in order. */
  function WithDate(s: seq<Article>, k: string): (r: seq<Article>)
    ensures |r| <= |s|
  {
    if s == [] then []
    else (if s[0].publishedAt == k then [s[0]] else []) + WithDate(s[1..], k)
  }

  /** Put `x` in front of the first article not newer than it. */
  function Insert(x: Article, s: seq<Article>): (r: seq<Article>)
    ensures multiset(r) == multiset(s) + multiset{x}
  {
    if s == [] then [x]
    else if LexLe(s[0].publishedAt, x.publishedAt) then [x] + s
    else
      assert s == [s[0]] + s[1..];
      [s[0]] + Insert(x, s[1..])
  }

  lemma {:induction false} InsertKeepsNewestFirst(x: Article, s: seq<Article>)
    requires NewestFirst(s)
    ensures NewestFirst(Insert(x, s))
  {
    if s == [] {
    } else if LexLe(s[0].publishedAt, x.publishedAt) {
      var r := [x] + s;
      forall i, j | 0 <= i < j < |r| ensures LexLe(r[j].publishedAt, r[i].publishedAt) {
        if i == 0 && j > 1 {
          LexLeTransitive(s[j - 1].publishedAt, s[0].publishedAt, x.publishedAt);
        }
      }
    } else {
      var t := Insert(x, s[1..]);
      InsertKeepsNewestFirst(x, s[1..]);
      LexLeTotal(s[0].publishedAt, x.publishedAt);
      var r := [s[0]] + t;
      forall i, j | 0 <= i < j < |r| ensures LexLe(r[j].publishedAt, r[i].publishedAt) {
        if i == 0 {
          assert r[j] in multiset(t);
          if r[j] != x {
            var k :| 0 <= k < |s[1..]| && s[1..][k] == r[j];
            assert s[k + 1] == r[j];
          }
        } else {
          assert r[i] == t[i - 1] && r[j] == t[j - 1];
        }
      }
    }
  }

  lemma WithDateCons(a: Article, t: seq<Article>, k: string)
    ensures WithDate([a] + t, k) == (if a.publishedAt == k then [a] else []) + WithDate(t, k)
  {
    assert ([a] + t)[1..] == t;
  }

  lemma SwapWhenOneEmpty(a: seq<Article>, b: seq<Article>, w: seq<Article>)
    requires a == [] || b == []
    ensures a + (b + w) == b + (a + w)
  {
    if a == [] {
      assert a + (b + w) == b + w == b + (a + w);
    } else {
      assert a + (b + w) == a + w == b + (a + w);
    }
  }

  /** Inserting `x` puts it before every article of `s` with the same date: the insertion is stable. */
  lemma {:induction false} InsertIsStable(x: Article, s: seq<Article>, k: string)
    ensures WithDate(Insert(x, s), k) == (if x.publishedAt == k then [x] else []) + WithDate(s, k)
  {
    if s == [] || LexLe(s[0].publishedAt, x.publishedAt) {
      assert Insert(x, s) == [x] + s;
      WithDateCons(x, s, k);
    } else {
      var t := Insert(x, s[1..]);
      var xs := if x.publishedAt == k then [x] else [];
      var hs := if s[0].publishedAt == k then [s[0]] else [];
      InsertIsStable(x, s[1..], k);
      // an article passed over is strictly newer, so its date differs from x's
      LexLeTotal(s[0].publishedAt, x.publishedAt);
      assert s[0].publishedAt != x.publishedAt;
      assert xs == [] || hs == [];
      assert Insert(x, s) == [s[0]] + t;
      assert [s[0]] + s[1..] == s;
      calc {
        WithDate(Insert(x, s), k);
        { WithDateCons(s[0], t, k); }
        hs + WithDate(t, k);
        hs + (xs + WithDate(s[1..], k));
        { SwapWhenOneEmpty(hs, xs, WithDate(s[1..], k)); }
        xs + (hs + WithDate(s[1..], k));
        { WithDateCons(s[0], s[1..], k); }
        xs + WithDate(s, k);
      }
    }
  }

  lemma {:induction false} InsertKeepsDistinctIds(x: Article, s: seq<Article>)
    requires DistinctIds(s) && x.id !in Ids(s)
    ensures DistinctIds(Insert(x, s))
  {
    if s == [] {
    } else if LexLe(s[0].publishedAt, x.publishedAt) {
      var r := [x] + s;
      forall i, j | 0 <= i < j < |r| ensures r[i].id != r[j].id {
        if i == 0 {
          assert s[j - 1].id in Ids(s);
        } else {
          assert r[i] == s[i - 1] && r[j] == s[j - 1];
        }
      }
    } else {
      var t := Insert(x, s[1..]);
      assert Ids(s[1..]) <= Ids(s) by {
        forall id | id in Ids(s[1..]) ensures id in Ids(s) {
          var k :| 0 <= k < |s[1..]| && s[1..][k].id == id;
          assert s[k + 1].id == id;
        }
      }
      InsertKeepsDistinctIds(x, s[1..]);
      var r := [s[0]] + t;
      assert s[0].id in Ids(s);
      forall i, j | 0 <= i < j < |r| ensures r[i].id != r[j].id {
        if i == 0 {
          assert r[j] in multiset(t);
          if r[j] != x {
            var k :| 0 <= k < |s[1..]| && s[1..][k] == r[j];
            assert s[k + 1] == r[j];
          }
        } else {
          assert r[i] == t[i - 1] && r[j] == t[j - 1];
        }
      }
    }
  }

  /**
   * `sort(key=published_at, reverse=True)`: the same articles, newest first,
   * articles with equal dates in their original order.
   */
  function SortNewestFirst(s: seq<Article>): (r: seq<Article>)
    ensures multiset(r) == multiset(s)
    ensures NewestFirst(r)
  {
    if s == [] then []
    else
      var t := SortNewestFirst(s[1..]);
      InsertKeepsNewestFirst(s[0], t);
      assert s == [s[0]] + s[1..];
      Insert(s[0], t)
  }

  /** The sort is stable: for every date, the articles with that date keep their order. */
  lemma {:induction false} SortIsStable(s: seq<Article>, k: string)
    ensures WithDate(SortNewestFirst(s), k) == WithDate(s, k)
  {
    if s != [] {
      SortIsStable(s[1..], k);
      InsertIsStable(s[0], SortNewestFirst(s[1..]), k);
    }
  }

  /** Sorting articles with distinct ids leaves their ids distinct. */
  lemma {:induction false} SortKeepsDistinctIds(s: seq<Article>)
    requires DistinctIds(s)
    ensures DistinctIds(SortNewestFirst(s))
  {
    if s != [] {
      var t := SortNewestFirst(s[1..]);
      SortKeepsDistinctIds(s[1..]);
      forall k | 0 <= k < |t| ensures t[k].id != s[0].id {
        assert t[k] in multiset(s[1..]);
        var m :| 0 <= m < |s[1..]| && s[1..][m] == t[k];
        assert s[m + 1] == t[k];
      }
      InsertKeepsDistinctIds(s[0], t);
    }
  }
}
