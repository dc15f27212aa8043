/**
 * The item counters of tools/verify_feeds.py: for an RSS or Atom body and
 * for a Reddit JSON listing, the number of items and how many of them are
 * recent, judged against a cutoff instant (24 hours before start-up in the
 * tool; a parameter here).
 */
module FeedCheck {
  import opened Wrappers
  import opened Feed

  // ---------------------------------------------------------------------------
  // RSS / Atom

  /** `item.findtext(tag)`: `None` when there is no such element, else its text or "". */
  function FindText(lookup: map<string, Element>, tag: string): Option<string>
  {
    if tag in lookup then Some(lookup[tag].text.GetOr("")) else None
  }

  /** `findtext("pubDate") or findtext("{atom}published") or findtext("{atom}updated")`, "" when all are empty. */
  function PubText(item: Item): string
  {
    FirstTruthy([FindText(item.plain, "pubDate"), FindText(item.atom, "published"), FindText(item.atom, "updated")], "")
  }

  /**
   * Is the item counted as recent: it has date text, and that text either
   * does not parse as an RFC 2822 date or denotes an instant at or after the
   * cutoff (a naive date read as UTC).
   */
  predicate IsRecent(item: Item, rfc2822: string -> Option<DateTime>, cutoff: int) {
    var pub := PubText(item);
    pub != "" &&
    match rfc2822(pub)
    case None => true
    case Some(d) => Instant(AsUtcIfNaive(d)) >= cutoff
  }

  /** An item with no date text is never recent. */
  lemma NoDateNeverRecent(item: Item, rfc2822: string -> Option<DateTime>, cutoff: int)
    requires !Truthy(FindText(item.plain, "pubDate"))
    requires !Truthy(FindText(item.atom, "published")) && !Truthy(FindText(item.atom, "updated"))
    ensures !IsRecent(item, rfc2822, cutoff)
  {
  }

  /** An item whose date text does not parse is counted as recent, whatever the cutoff. */
  lemma UnparseableDateIsRecent(item: Item, rfc2822: string -> Option<DateTime>, cutoff: int)
    requires PubText(item) != "" && rfc2822(PubText(item)).None?
    ensures IsRecent(item, rfc2822, cutoff)
  {
  }

  /** `root.findall(".//item") or root.findall(".//atom:entry", ns)`. */
  function CountedItems(doc: Document): seq<Item>
  {
    if doc.rssItems != [] then doc.rssItems else doc.atomEntries
  }

  /** The number of recent items among `items`. */
  function RecentCount(items: seq<Item>, rfc2822: string -> Option<DateTime>, cutoff: int): (n: nat)
    ensures n <= |items|
  {
    if items == [] then 0
    else
      RecentCount(items[..|items| - 1], rfc2822, cutoff)
        + (if IsRecent(items[|items| - 1], rfc2822, cutoff) then 1 else 0)
  }

  /** The recent count reaches the number of items exactly when all are recent, and 0 exactly when none is. */
  lemma {:induction false} RecentCountExtremes(items: seq<Item>, rfc2822: string -> Option<DateTime>, cutoff: int)
    ensures RecentCount(items, rfc2822, cutoff) == |items|
        <==> forall i :: 0 <= i < |items| ==> IsRecent(items[i], rfc2822, cutoff)
    ensures RecentCount(items, rfc2822, cutoff) == 0
        <==> forall i :: 0 <= i < |items| ==> !IsRecent(items[i], rfc2822, cutoff)
  {
    if items != [] {
      var prefix := items[..|items| - 1];
      RecentCountExtremes(prefix, rfc2822, cutoff);
      assert forall i :: 0 <= i < |prefix| ==> items[i] == prefix[i];
      assert items == prefix + [items[|items| - 1]];
    }
  }

  /**
   * `count_rss_items`: `(total, recent)` for the body; `(0, 0)` when the XML
   * does not parse.
   */
  method CountRssItems(xmlText: string, parseXml: string -> Option<Document>,
                       rfc2822: string -> Option<DateTime>, cutoff: int)
    returns (total: nat, recent: nat)
    ensures parseXml(xmlText).None? ==> total == 0 && recent == 0
    ensures parseXml(xmlText).Some? ==>
      var items := CountedItems(parseXml(xmlText).value);
      total == |items| && recent == RecentCount(items, rfc2822, cutoff)
    ensures recent <= total
  {
    var parsed := parseXml(xmlText);
    if parsed.None? {
      return 0, 0;
    }
    var items := CountedItems(parsed.value);
    recent := 0;
    for i := 0 to |items|
      invariant recent == RecentCount(items[..i], rfc2822, cutoff)
    {
      var item := items[i];
      var pub := PubText(item);
      var counted := false;
      if pub != "" {
        match rfc2822(pub)
        case None =>
          counted := true;  // the date does not parse: counted anyway
        case Some(d) =>
          counted := Instant(AsUtcIfNaive(d)) >= cutoff;
      }
      assert counted == IsRecent(item, rfc2822, cutoff);
      assert items[..i + 1][..i] == items[..i];
      assert RecentCount(items[..i + 1], rfc2822, cutoff) == recent + (if counted then 1 else 0);
      if counted {
        recent := recent + 1;
      }
    }
    assert items[..|items|] == items;
    total := |items|;
  }

  // ---------------------------------------------------------------------------
  // Reddit JSON listing

  /** A decoded JSON value; numbers are whole seconds here. */
  datatype Json = JNull | JBool(b: bool) | JNum(n: int) | JStr(s: string) | JArr(elems: seq<Json>) | JObj(fields: map<string, Json>)

  /**
   * `data.get("data", {}).get("children", [])` and the iteration over it:
   * the posts iterated, or `None` when Python raises (a `.get` on something
   * other than an object, iterating a scalar, or indexing a string key or
   * character with "data").
   */
  function Posts(data: Json): Option<seq<Json>>
  {
    if !data.JObj? then None
    else
      var inner := if "data" in data.fields then data.fields["data"] else JObj(map[]);
      if !inner.JObj? then None
      else
        var posts := if "children" in inner.fields then inner.fields["children"] else JArr([]);
        match posts
        case JArr(elems) => Some(elems)
        case JObj(f) => if f == map[] then Some([]) else None
        case JStr(t) => if t == "" then Some([]) else None
        case _ => None
  }

  /**
   * `p["data"].get("created_utc", 0)` as a number `>=` can compare, or
   * `None` when evaluating it or comparing it raises.
   */
  function CreatedUtc(p: Json): Option<int>
  {
    if p.JObj? && "data" in p.fields && p.fields["data"].JObj? then
      var d := p.fields["data"].fields;
      if "created_utc" !in d then Some(0)
      else
        match d["created_utc"]
        case JNum(n) => Some(n)
        case JBool(b) => Some(if b then 1 else 0)
        case _ => None
    else None
  }

  /** `sum(1 for p in posts if created >= cutoff)`, `None` when any post makes it raise. */
  function CountRecentPosts(posts: seq<Json>, cutoff: int): (r: Option<nat>)
    ensures r.Some? <==> forall i :: 0 <= i < |posts| ==> CreatedUtc(posts[i]).Some?
    ensures r.Some? ==> r.value <= |posts|
    ensures r.Some? && r.value == |posts| ==> forall i :: 0 <= i < |posts| ==> CreatedUtc(posts[i]).value >= cutoff
  {
    if posts == [] then Some(0)
    else
      var rest := CountRecentPosts(posts[1..], cutoff);
      assert forall i :: 1 <= i < |posts| ==> posts[1..][i - 1] == posts[i];
      match CreatedUtc(posts[0])
      case None => None
      case Some(t) =>
        match rest
        case None => None
        case Some(n) => Some(n + (if t >= cutoff then 1 else 0))
  }

  /**
   * The recent sum reaches the number of posts exactly when every post is at
   * or after the cutoff, and is 0 exactly when every post is before it.
   */
  lemma {:induction false} CountRecentPostsExtremes(posts: seq<Json>, cutoff: int)
    requires CountRecentPosts(posts, cutoff).Some?
    ensures CountRecentPosts(posts, cutoff).value == |posts|
        <==> forall i :: 0 <= i < |posts| ==> CreatedUtc(posts[i]).value >= cutoff
    ensures CountRecentPosts(posts, cutoff).value == 0
        <==> forall i :: 0 <= i < |posts| ==> CreatedUtc(posts[i]).value < cutoff
  {
    if posts != [] {
      var rest := posts[1..];
      CountRecentPostsExtremes(rest, cutoff);
      assert forall i :: 1 <= i < |posts| ==> rest[i - 1] == posts[i];
    }
  }

  /** `count_reddit_posts`: `(total, recent)`, or `(0, 0)` when anything raises. */
  function CountRedditPosts(jsonText: string, decode: string -> Option<Json>, cutoff: int): (r: (nat, nat))
    ensures r.1 <= r.0
    ensures decode(jsonText).None? ==> r == (0, 0)
    ensures decode(jsonText).Some? && Posts(decode(jsonText).value).None? ==> r == (0, 0)
    ensures decode(jsonText).Some? && Posts(decode(jsonText).value).Some? ==>
      var posts := Posts(decode(jsonText).value).value;
      (CountRecentPosts(posts, cutoff).None? ==> r == (0, 0)) &&
      (CountRecentPosts(posts, cutoff).Some? ==> r == (|posts|, CountRecentPosts(posts, cutoff).value))
    ensures r != (0, 0) ==> exists posts :: Posts(decode(jsonText).value) == Some(posts) && r.0 == |posts|
  {
    match decode(jsonText)
    case None => (0, 0)
    case Some(data) =>
      match Posts(data)
      case None => (0, 0)
      case Some(posts) =>
        match CountRecentPosts(posts, cutoff)
        case None => (0, 0)
        case Some(n) => (|posts|, n)
  }

  /** A listing whose every child is well formed gives its number of children and of recent ones. */
  lemma WellFormedListingCounts(jsonText: string, decode: string -> Option<Json>, cutoff: int, children: seq<Json>)
    requires decode(jsonText) == Some(JObj(map["data" := JObj(map["children" := JArr(children)])]))
    requires forall i :: 0 <= i < |children| ==> CreatedUtc(children[i]).Some?
    ensures CountRedditPosts(jsonText, decode, cutoff) == (|children|, CountRecentPosts(children, cutoff).value)
  {
  }

  /** A child without "data" makes the whole count `(0, 0)`. */
  lemma ChildWithoutDataGivesZero(jsonText: string, decode: string -> Option<Json>, cutoff: int, children: seq<Json>, k: nat)
    requires decode(jsonText) == Some(JObj(map["data" := JObj(map["children" := JArr(children)])]))
    requires k < |children| && children[k].JObj? && "data" !in children[k].fields
    ensures CountRedditPosts(jsonText, decode, cutoff) == (0, 0)
  {
    assert CreatedUtc(children[k]).None?;
  }

  /** A listing with no "data", or "data" with no "children", counts as empty. */
  lemma MissingListingGivesZero(jsonText: string, decode: string -> Option<Json>, cutoff: int, fields: map<string, Json>)
    requires decode(jsonText) == Some(JObj(fields))
    requires "data" !in fields || (fields["data"].JObj? && "children" !in fields["data"].fields)
    ensures CountRedditPosts(jsonText, decode, cutoff) == (0, 0)
  {
  }

  /** A post whose data has no "created_utc" is read as created at instant 0. */
  lemma MissingCreatedReadsAsZero(post: Json, cutoff: int)
    requires post.JObj? && "data" in post.fields && post.fields["data"].JObj?
    requires "created_utc" !in post.fields["data"].fields
    ensures CountRecentPosts([post], cutoff) == Some(if 0 >= cutoff then 1 else 0)
  {
  }
}
