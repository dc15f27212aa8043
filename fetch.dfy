/**
 * The per-source fallback of `fetch_and_store` (modal_scraper.py): each
 * source's urls are tried in order, the first usable one supplies the
 * source's articles, and a source with no usable url is recorded by label.
 */
module Fetch {
  import opened Wrappers
  import opened Feed

  /** A candidate url and what `fetch_url` returned for it in this run (`None` on any failure). */
  datatype Endpoint = Endpoint(url: string, response: Option<string>)

  /** An entry of SOURCES: its key, its label and its urls in order. */
  datatype Source = Source(sourceKey: string, sourceLabel: string, endpoints: seq<Endpoint>)

  const MinResponseLength: nat := 200

  /**
   * One url of a source: its articles when the response exists, is longer
   * than 200 characters and parses to at least one article; `None` when the
   * url fails.
   */
  function Attempt(src: Source, e: Endpoint, env: Env): Option<seq<Article>>
  {
    if e.response.Some? && |e.response.value| > MinResponseLength then
      var articles := NormalizeFeed(e.response.value, src.sourceKey, src.sourceLabel, env);
      if articles != [] then Some(articles) else None
    else None
  }

  /** A url fails exactly when there is no response, it is too short, or it yields no article. */
  lemma AttemptFailsIff(src: Source, e: Endpoint, env: Env)
    ensures Attempt(src, e, env).None? <==>
      || e.response.None?
      || |e.response.value| <= MinResponseLength
      || NormalizeFeed(e.response.value, src.sourceKey, src.sourceLabel, env) == []
    ensures Attempt(src, e, env).Some? ==>
      Attempt(src, e, env).value == NormalizeFeed(e.response.value, src.sourceKey, src.sourceLabel, env) != []
  {
  }

  /** The first position at `j` or later whose element satisfies `ok`. */
  function FirstFrom<T>(s: seq<T>, ok: T -> bool, j: nat): (r: Option<nat>)
    requires j <= |s|
    ensures r.Some? ==> j <= r.value < |s| && ok(s[r.value])
    ensures forall k :: j <= k < |s| && (r.None? || k < r.value) ==> !ok(s[k])
    decreases |s| - j
  {
    if j == |s| then None
    else if ok(s[j]) then Some(j)
    else FirstFrom(s, ok, j + 1)
  }

  /**
   * Two searches that give the same verdict up to position `j`, where the
   * first one stops, both stop there.
   */
  lemma FirstFromAgrees<T>(s: seq<T>, t: seq<T>, ok: T -> bool, ok': T -> bool, j: nat)
    requires j < |s| && j < |t| && s[..j + 1] == t[..j + 1]
    requires FirstFrom(s, ok, 0) == Some(j)
    requires forall x :: ok'(x) == ok(x)
    ensures FirstFrom(t, ok', 0) == Some(j)
  {
    var r := FirstFrom(t, ok', 0);
    assert forall k :: 0 <= k <= j ==> t[k] == s[k] by {
      forall k | 0 <= k <= j ensures t[k] == s[k] {
        assert t[..j + 1][k] == s[..j + 1][k];
      }
    }
    assert ok'(t[j]);
    assert r.Some? && r.value <= j;
  }

  /** Whether a url of `src` succeeds. */
  function Succeeds(src: Source, env: Env): Endpoint -> bool {
    e => Attempt(src, e, env).Some?
  }

  /** The first url at position `j` or later that succeeds. */
  function FirstAcceptedFrom(src: Source, env: Env, j: nat): (r: Option<nat>)
    requires j <= |src.endpoints|
    ensures r.Some? ==> j <= r.value < |src.endpoints| && Attempt(src, src.endpoints[r.value], env).Some?
    ensures forall k :: j <= k < |src.endpoints| && (r.None? || k < r.value) ==>
      Attempt(src, src.endpoints[k], env).None?
  {
    FirstFrom(src.endpoints, Succeeds(src, env), j)
  }

  /** The position of the url the source is taken from, `None` when every url fails. */
  function Accepted(src: Source, env: Env): Option<nat>
  {
    FirstAcceptedFrom(src, env, 0)
  }

  /** The articles a source adds to `all_articles`: those of its accepted url, or none. */
  function Contribution(src: Source, env: Env): seq<Article>
  {
    match Accepted(src, env)
    case None => []
    case Some(j) => Attempt(src, src.endpoints[j], env).value
  }

  /** A source adds no article exactly when none of its urls succeeds. */
  lemma ContributionEmptyIffFailed(src: Source, env: Env)
    ensures Contribution(src, env) == [] <==> Accepted(src, env).None?
    ensures Accepted(src, env).Some? ==> Contribution(src, env) == Attempt(src, src.endpoints[Accepted(src, env).value], env).value
  {
  }

  /**
   * Only the urls up to the accepted one matter: a source whose urls agree
   * up to and including it is taken from the same url with the same
   * articles, whatever its later urls return.
   */
  lemma LaterUrlsNotConsulted(src: Source, other: Source, env: Env)
    requires Accepted(src, env).Some?
    requires other.sourceKey == src.sourceKey && other.sourceLabel == src.sourceLabel
    requires Accepted(src, env).value < |other.endpoints|
    requires other.endpoints[..Accepted(src, env).value + 1] == src.endpoints[..Accepted(src, env).value + 1]
    ensures Accepted(other, env) == Accepted(src, env)
    ensures Contribution(other, env) == Contribution(src, env)
  {
    var j := Accepted(src, env).value;
    forall e ensures Succeeds(other, env)(e) == Succeeds(src, env)(e) {
      AttemptIgnoresUrls(src, other, e, env);
    }
    FirstFromAgrees(src.endpoints, other.endpoints, Succeeds(src, env), Succeeds(other, env), j);
    assert other.endpoints[j] == other.endpoints[..j + 1][j] == src.endpoints[..j + 1][j] == src.endpoints[j];
    AttemptIgnoresUrls(src, other, src.endpoints[j], env);
  }

  /** A url's outcome depends on the source only through its key and label. */
  lemma AttemptIgnoresUrls(src: Source, other: Source, e: Endpoint, env: Env)
    requires other.sourceKey == src.sourceKey && other.sourceLabel == src.sourceLabel
    ensures Attempt(other, e, env) == Attempt(src, e, env)
  {
  }

  /** `all_articles` after the sources of `sources` have been visited. */
  function Merged(sources: seq<Source>, env: Env): seq<Article>
  {
    if sources == [] then []
    else Merged(sources[..|sources| - 1], env) + Contribution(sources[|sources| - 1], env)
  }

  /** The labels of the sources of `sources` that satisfy `failed`, in order. */
  function LabelsWhere(sources: seq<Source>, failed: Source -> bool): seq<string>
  {
    if sources == [] then []
    else
      var last := sources[|sources| - 1];
      LabelsWhere(sources[..|sources| - 1], failed) + (if failed(last) then [last.sourceLabel] else [])
  }

  /** The labels of all of `sources`, in order. */
  function Labels(sources: seq<Source>): (r: seq<string>)
    ensures |r| == |sources| && forall i :: 0 <= i < |sources| ==> r[i] == sources[i].sourceLabel
  {
    seq(|sources|, i requires 0 <= i < |sources| => sources[i].sourceLabel)
  }

  /** The positions of `sources` that satisfy `failed`. */
  function PositionsWhere(sources: seq<Source>, failed: Source -> bool): set<nat>
  {
    set i: nat | i < |sources| && failed(sources[i])
  }

  /** One label per source that satisfies `failed`, and no other. */
  lemma {:induction false} LabelsWhereCount(sources: seq<Source>, failed: Source -> bool)
    ensures |LabelsWhere(sources, failed)| == |PositionsWhere(sources, failed)| <= |sources|
  {
    if sources == [] {
      assert PositionsWhere(sources, failed) == {};
    } else {
      var prefix := sources[..|sources| - 1];
      var n := |prefix|;
      LabelsWhereCount(prefix, failed);
      var a := PositionsWhere(prefix, failed);
      var b := PositionsWhere(sources, failed);
      assert forall i :: 0 <= i < n ==> sources[i] == prefix[i];
      if failed(sources[n]) {
        assert b == a + {n};
        assert n !in a;
      } else {
        assert b == a;
      }
    }
  }

  /** When every source satisfies `failed`, every label is listed, in source order. */
  lemma {:induction false} LabelsWhereAll(sources: seq<Source>, failed: Source -> bool)
    requires forall i :: 0 <= i < |sources| ==> failed(sources[i])
    ensures LabelsWhere(sources, failed) == Labels(sources)
  {
    if sources != [] {
      var prefix := sources[..|sources| - 1];
      assert forall i :: 0 <= i < |prefix| ==> prefix[i] == sources[i];
      LabelsWhereAll(prefix, failed);
      assert Labels(sources) == Labels(prefix) + [sources[|sources| - 1].sourceLabel];
    }
  }

  lemma {:induction false} LabelsWhereListed(sources: seq<Source>, failed: Source -> bool)
    ensures forall i :: 0 <= i < |sources| && failed(sources[i]) ==> sources[i].sourceLabel in LabelsWhere(sources, failed)
  {
    if sources != [] {
      var prefix := sources[..|sources| - 1];
      var last := sources[|sources| - 1];
      LabelsWhereListed(prefix, failed);
      var p := LabelsWhere(prefix, failed);
      var r := LabelsWhere(sources, failed);
      forall i | 0 <= i < |sources| && failed(sources[i]) ensures sources[i].sourceLabel in r {
        if i < |prefix| {
          assert sources[i] == prefix[i];
          var m :| 0 <= m < |p| && p[m] == prefix[i].sourceLabel;
          assert r[m] == p[m];
        } else {
          assert r[|r| - 1] == last.sourceLabel;
        }
      }
    }
  }

  lemma {:induction false} LabelsWhereFrom(sources: seq<Source>, failed: Source -> bool)
    ensures forall l :: l in LabelsWhere(sources, failed) ==>
      exists i :: 0 <= i < |sources| && failed(sources[i]) && sources[i].sourceLabel == l
  {
    if sources != [] {
      var prefix := sources[..|sources| - 1];
      LabelsWhereFrom(prefix, failed);
      forall l | l in LabelsWhere(sources, failed)
        ensures exists i :: 0 <= i < |sources| && failed(sources[i]) && sources[i].sourceLabel == l
      {
        if l in LabelsWhere(prefix, failed) {
          var i :| 0 <= i < |prefix| && failed(prefix[i]) && prefix[i].sourceLabel == l;
          assert sources[i] == prefix[i];
        } else {
          assert failed(sources[|sources| - 1]);
        }
      }
    }
  }

  /** Whether a source has no successful url. */
  function Fails(env: Env): Source -> bool {
    src => Accepted(src, env).None?
  }

  /** `errors` after the sources of `sources` have been visited: the labels of failed sources, in order. */
  function FailedLabels(sources: seq<Source>, env: Env): seq<string>
  {
    LabelsWhere(sources, Fails(env))
  }

  /** `errors` holds one label per failed source: as many labels as failed sources. */
  lemma FailedLabelsCountFailures(sources: seq<Source>, env: Env)
    ensures |FailedLabels(sources, env)| == |set i: nat | i < |sources| && Accepted(sources[i], env).None?| <= |sources|
  {
    LabelsWhereCount(sources, Fails(env));
    assert PositionsWhere(sources, Fails(env)) == set i: nat | i < |sources| && Accepted(sources[i], env).None?;
  }

  /** When every source fails, `errors` lists every label, in source order. */
  lemma AllFailedListsEveryLabel(sources: seq<Source>, env: Env)
    requires forall i :: 0 <= i < |sources| ==> Accepted(sources[i], env).None?
    ensures FailedLabels(sources, env) == Labels(sources)
  {
    LabelsWhereAll(sources, Fails(env));
  }

  /** The label of every source with no successful url is in `errors`. */
  lemma FailedSourcesListed(sources: seq<Source>, env: Env)
    ensures forall i :: 0 <= i < |sources| && Accepted(sources[i], env).None? ==>
      sources[i].sourceLabel in FailedLabels(sources, env)
  {
    LabelsWhereListed(sources, Fails(env));
  }

  /** Every label in `errors` belongs to a source with no successful url. */
  lemma ListedSourcesFailed(sources: seq<Source>, env: Env)
    ensures forall l :: l in FailedLabels(sources, env) ==>
      exists i :: 0 <= i < |sources| && Accepted(sources[i], env).None? && sources[i].sourceLabel == l
  {
    LabelsWhereFrom(sources, Fails(env));
  }

  /** `errors` is empty exactly when every source has a successful url. */
  lemma NoErrorsIffAllAccepted(sources: seq<Source>, env: Env)
    ensures FailedLabels(sources, env) == [] <==> forall i :: 0 <= i < |sources| ==> Accepted(sources[i], env).Some?
  {
    var r := FailedLabels(sources, env);
    if r == [] {
      FailedSourcesListed(sources, env);
      forall i | 0 <= i < |sources| ensures Accepted(sources[i], env).Some? {
        assert sources[i].sourceLabel !in r;
      }
    } else {
      ListedSourcesFailed(sources, env);
      assert r[0] in r;
      var i :| 0 <= i < |sources| && Accepted(sources[i], env).None? && sources[i].sourceLabel == r[0];
      assert !Accepted(sources[i], env).Some?;
    }
  }

  /** Every merged article is a record of the source it came from. */
  lemma {:induction false} MergedAreRecords(sources: seq<Source>, env: Env)
    ensures forall a :: a in Merged(sources, env) ==>
      exists i :: 0 <= i < |sources| && IsRecordOf(a, sources[i].sourceKey, sources[i].sourceLabel, env)
  {
    if sources != [] {
      var prefix := sources[..|sources| - 1];
      var last := sources[|sources| - 1];
      MergedAreRecords(prefix, env);
      match Accepted(last, env)
      case None =>
      case Some(j) =>
        var e := last.endpoints[j];
        NormalizedAreRecords(SelectItems(env.parseXml(e.response.value).value), last.sourceKey, last.sourceLabel, env);
      forall a | a in Merged(sources, env)
        ensures exists i :: 0 <= i < |sources| && IsRecordOf(a, sources[i].sourceKey, sources[i].sourceLabel, env)
      {
        if a in Merged(prefix, env) {
          var i :| 0 <= i < |prefix| && IsRecordOf(a, prefix[i].sourceKey, prefix[i].sourceLabel, env);
          assert sources[i] == prefix[i];
        } else {
          assert a in Contribution(last, env);
        }
      }
    }
  }

  /**
   * The source loop of `fetch_and_store`: for each source, try its urls in
   * order until one succeeds (`fetched`, `break`), else record its label.
   */
  method Collect(sources: seq<Source>, env: Env) returns (all: seq<Article>, errors: seq<string>)
    ensures all == Merged(sources, env)
    ensures errors == FailedLabels(sources, env)
  {
    all, errors := [], [];
    for i := 0 to |sources|
      invariant all == Merged(sources[..i], env)
      invariant errors == FailedLabels(sources[..i], env)
    {
      var src := sources[i];
      assert sources[..i + 1][..i] == sources[..i];
      var fetched := false;
      for j := 0 to |src.endpoints|
        invariant FirstAcceptedFrom(src, env, j) == Accepted(src, env)
        invariant all == Merged(sources[..i], env)
      {
        var response := src.endpoints[j].response;
        if response.Some? && |response.value| > MinResponseLength {
          var articles := ParseRss(response.value, src.sourceKey, src.sourceLabel, env);
          if articles != [] {
            all := all + articles;
            fetched := true;
            break;
          }
        }
      }
      assert fetched <==> Accepted(src, env).Some?;
      if !fetched {
        errors := errors + [src.sourceLabel];
      }
    }
    assert sources[..|sources|] == sources;
  }
}
