/**
 * The feed normaliser `parse_rss` of modal_scraper.py: turns the items of an
 * RSS or Atom document into article records, dropping items published
 * before a 48-hour cutoff.
 *
 * XML parsing, the two date parsers, `datetime.isoformat`, MD5 and the clock
 * are outside the model; they are the fields of `Env`.
 */
module Feed {
  import opened Wrappers
  import opened Text

  /** An XML element as `get` sees it: its text, its attributes, and whether it has child elements. */
  datatype Element = Element(text: Option<string>, attrs: map<string, string>, hasChildren: bool)

  /**
   * An `<item>` or `<entry>` element, seen through its child lookups:
   * `plain[tag]` is what `item.find(tag)` returns and `atom[tag]` what
   * `item.find("atom:" + tag, ns)` returns (absent key: `None`).
   */
  datatype Item = Item(plain: map<string, Element>, atom: map<string, Element>)

  /** A parsed document through its three searches `.//item`, `.//atom:entry` and `.//entry`. */
  datatype Document = Document(rssItems: seq<Item>, atomEntries: seq<Item>, bareEntries: seq<Item>)

  /**
   * A Python `datetime` at one-second resolution: `wall` is the wall-clock
   * time in seconds since 1970-01-01 00:00, `offset` its UTC offset in
   * seconds, `None` for a naive datetime.
   */
  datatype DateTime = DateTime(wall: int, offset: Option<int>)

  /** The collaborators the normaliser calls. */
  datatype Env = Env(
    parseXml: string -> Option<Document>,   // ET.fromstring; None on ParseError
    rfc2822: string -> Option<DateTime>,    // email.utils.parsedate_to_datetime; None when it raises
    iso8601: string -> Option<DateTime>,    // datetime.fromisoformat; None when it raises
    isoFormat: DateTime -> string,          // datetime.isoformat
    md5Hex: string -> string,               // md5(url.encode()).hexdigest()
    now: int)                               // datetime.now(timezone.utc), seconds since the epoch

  /** One normalised article record. */
  datatype Article = Article(
    id: string, title: string, summary: string, url: string,
    source: string, sourceLabel: string, publishedAt: string, author: string,
    score: Option<int>, thumbnail: Option<string>, saved: bool)

  const WindowHours: nat := 48
  const IdLength: nat := 12

  // ---------------------------------------------------------------------------
  // Field lookup

  /**
   * The lookup `item.find(tag) or item.find(f"atom:{tag}", ns)` as written:
   * Python's `or` treats an element as false when it has no children, so a
   * childless element found without a namespace is passed over in favour of
   * the namespaced lookup.
   */
  function FindAsWritten(item: Item, tag: string): (r: Option<Element>)
    ensures tag in item.plain && item.plain[tag].hasChildren ==> r == Some(item.plain[tag])
    ensures !(tag in item.plain && item.plain[tag].hasChildren) ==>
      r == (if tag in item.atom then Some(item.atom[tag]) else None)
  {
    if tag in item.plain && item.plain[tag].hasChildren then Some(item.plain[tag])
    else if tag in item.atom then Some(item.atom[tag])
    else None
  }

  /**
   * The lookup as intended: the element found without a namespace when there
   * is one, whatever its children, and the namespaced one otherwise.
   */
  function Find(item: Item, tag: string): (r: Option<Element>)
    ensures tag in item.plain ==> r == Some(item.plain[tag])
    ensures tag !in item.plain && tag in item.atom ==> r == Some(item.atom[tag])
    ensures r.None? <==> tag !in item.plain && tag !in item.atom
  {
    if tag in item.plain then Some(item.plain[tag])
    else if tag in item.atom then Some(item.atom[tag])
    else None
  }

  /** Both lookups agree except on a childless element found without a namespace. */
  lemma FindAgreesWhenNotLeaf(item: Item, tag: string)
    requires tag !in item.plain || item.plain[tag].hasChildren
    ensures FindAsWritten(item, tag) == Find(item, tag)
  {
  }

  /** `get(tag)`: the stripped text of the element, `None` when there is no element. */
  function GetText(item: Item, tag: string): Option<string>
  {
    match Find(item, tag)
    case None => None
    case Some(el) => Some(Strip(el.text.GetOr("")))
  }

  /** `get(tag)` with the lookup as written. */
  function GetTextAsWritten(item: Item, tag: string): Option<string>
  {
    match FindAsWritten(item, tag)
    case None => None
    case Some(el) => Some(Strip(el.text.GetOr("")))
  }

  /** `get(tag, attr)`: the attribute's value, `None` when the element or the attribute is missing. */
  function GetAttr(item: Item, tag: string, attr: string): Option<string>
  {
    match Find(item, tag)
    case None => None
    case Some(el) => if attr in el.attrs then Some(el.attrs[attr]) else None
  }

  /** Python truthiness of an optional string. */
  predicate Truthy(o: Option<string>) {
    o.Some? && o.value != ""
  }

  /** `a or b or ... or default`: the first present, non-empty candidate, else `default`. */
  function FirstTruthy(candidates: seq<Option<string>>, default: string): (r: string)
    ensures forall i :: (0 <= i < |candidates| && Truthy(candidates[i]) &&
      (forall j :: 0 <= j < i ==> !Truthy(candidates[j]))) ==> r == candidates[i].value
    ensures (forall i :: 0 <= i < |candidates| ==> !Truthy(candidates[i])) ==> r == default
    ensures default != "" ==> r != ""
  {
    if candidates == [] then default
    else if Truthy(candidates[0]) then candidates[0].value
    else FirstTruthy(candidates[1..], default)
  }

  function Title(item: Item): string {
    FirstTruthy([GetText(item, "title")], "Untitled")
  }

  function Link(item: Item): string {
    FirstTruthy([GetText(item, "link"), GetAttr(item, "link", "href")], "#")
  }

  function PubRaw(item: Item): string {
    FirstTruthy([GetText(item, "pubDate"), GetText(item, "published"), GetText(item, "updated")], "")
  }

  function Description(item: Item): string {
    FirstTruthy([GetText(item, "description"), GetText(item, "summary"), GetText(item, "content")], "")
  }

  /** `get(tag, attr)` with the lookup as written. */
  function GetAttrAsWritten(item: Item, tag: string, attr: string): Option<string>
  {
    match FindAsWritten(item, tag)
    case None => None
    case Some(el) => if attr in el.attrs then Some(el.attrs[attr]) else None
  }

  /** The fields as written, with the lookup that passes over childless elements. */
  function TitleAsWritten(item: Item): string {
    FirstTruthy([GetTextAsWritten(item, "title")], "Untitled")
  }

  function LinkAsWritten(item: Item): string {
    FirstTruthy([GetTextAsWritten(item, "link"), GetAttrAsWritten(item, "link", "href")], "#")
  }

  function PubRawAsWritten(item: Item): string {
    FirstTruthy([GetTextAsWritten(item, "pubDate"), GetTextAsWritten(item, "published"), GetTextAsWritten(item, "updated")], "")
  }

  function DescriptionAsWritten(item: Item): string {
    FirstTruthy([GetTextAsWritten(item, "description"), GetTextAsWritten(item, "summary"), GetTextAsWritten(item, "content")], "")
  }

  /** A plain RSS 2.0 item: no namespaced children, and its field elements hold only text. */
  predicate PlainRss(item: Item) {
    item.atom == map[] && forall tag :: tag in item.plain ==> !item.plain[tag].hasChildren
  }

  /** As written, every lookup in a plain RSS item finds nothing, whatever the element holds. */
  lemma PlainLookupLostAsWritten(item: Item, tag: string, attr: string)
    requires PlainRss(item)
    ensures GetTextAsWritten(item, tag).None? && GetAttrAsWritten(item, tag, attr).None?
    ensures tag in item.plain ==> GetText(item, tag).Some?
  {
  }

  /**
   * As written, a plain RSS item loses all its fields: it is called
   * "Untitled", links to "#", has no date text (so it is stamped with
   * whatever the date parsers make of "", now when they reject it) and an
   * empty summary.
   */
  lemma PlainFieldsLostAsWritten(item: Item)
    requires PlainRss(item)
    ensures TitleAsWritten(item) == "Untitled" && LinkAsWritten(item) == "#"
    ensures PubRawAsWritten(item) == "" && DescriptionAsWritten(item) == ""
  {
    PlainLookupLostAsWritten(item, "title", "");
    PlainLookupLostAsWritten(item, "link", "href");
    PlainLookupLostAsWritten(item, "pubDate", "");
    PlainLookupLostAsWritten(item, "published", "");
    PlainLookupLostAsWritten(item, "updated", "");
    PlainLookupLostAsWritten(item, "description", "");
    PlainLookupLostAsWritten(item, "summary", "");
    PlainLookupLostAsWritten(item, "content", "");
  }

  /**
   * As written, any two plain RSS items, from any sources, get the same id
   * `hash_url("#")` and the same date, so de-duplication keeps only one of them.
   */
  lemma PlainItemsCollideAsWritten(a: Item, b: Item, env: Env)
    requires PlainRss(a) && PlainRss(b)
    ensures HashUrl(LinkAsWritten(a), env) == HashUrl(LinkAsWritten(b), env) == HashUrl("#", env)
    ensures ResolveDateAsWritten(PubRawAsWritten(a), env) == ResolveDateAsWritten(PubRawAsWritten(b), env)
  {
    PlainFieldsLostAsWritten(a);
    PlainFieldsLostAsWritten(b);
  }

  /**
   * The lookup as written loses the title of a plain RSS item: `<title>` has
   * no child elements, so `get("title")` falls through to the namespaced
   * lookup, finds nothing and the article is called "Untitled".
   */
  lemma PlainTitleLostAsWritten()
    ensures var item := Item(map["title" := Element(Some("Hello"), map[], false)], map[]);
      TitleAsWritten(item) == "Untitled" && Title(item) == "Hello"
  {
    var item := Item(map["title" := Element(Some("Hello"), map[], false)], map[]);
    assert FindAsWritten(item, "title") == None;
    assert TitleAsWritten(item) == FirstTruthy([None], "Untitled");
    assert Find(item, "title") == Some(Element(Some("Hello"), map[], false));
    assert Strip("Hello") == "Hello" by {
      assert !IsSpace('H') && !IsSpace('o');
      assert TrimStart("Hello") == "Hello";
      assert TrimEnd("Hello") == "Hello";
    }
    assert GetText(item, "title") == Some("Hello");
    assert Title(item) == FirstTruthy([Some("Hello")], "Untitled");
  }

  /** A missing or empty title reads "Untitled"; a missing or empty link reads "#". */
  lemma DefaultTitleAndLink(item: Item)
    ensures !Truthy(GetText(item, "title")) ==> Title(item) == "Untitled"
    ensures !Truthy(GetText(item, "link")) && !Truthy(GetAttr(item, "link", "href")) ==> Link(item) == "#"
    ensures Truthy(GetText(item, "title")) ==> Title(item) == GetText(item, "title").value
    ensures Truthy(GetText(item, "link")) ==> Link(item) == GetText(item, "link").value
  {
  }

  // ---------------------------------------------------------------------------
  // Dates

  /** `.replace(tzinfo=timezone.utc)` applied to a naive datetime. */
  function AsUtcIfNaive(d: DateTime): (r: DateTime)
    ensures r.offset.Some?
    ensures d.offset.None? ==> r.offset == Some(0)
    ensures d.offset.Some? ==> r == d
    ensures r.wall == d.wall
  {
    if d.offset.None? then DateTime(d.wall, Some(0)) else d
  }

  /** The instant an aware datetime denotes, in seconds since the epoch. */
  function Instant(d: DateTime): int
    requires d.offset.Some?
  {
    d.wall - d.offset.value
  }

  function UtcNow(env: Env): (d: DateTime)
    ensures d.offset.Some? && Instant(d) == env.now
  {
    DateTime(env.now, Some(0))
  }

  /** `datetime.now(timezone.utc) - timedelta(hours=48)`, in seconds. */
  function Cutoff(env: Env): int {
    env.now - WindowHours * 3600
  }

  /**
   * The date chain as written: RFC 2822 (a naive result read as UTC), else
   * ISO 8601 on the text with every "Z" replaced by "+00:00" (a naive result
   * kept naive), else now.
   */
  function ResolveDateAsWritten(raw: string, env: Env): (d: DateTime)
    ensures env.rfc2822(raw).Some? ==> d == AsUtcIfNaive(env.rfc2822(raw).value)
    ensures env.rfc2822(raw).None? && env.iso8601(ReplaceChar(raw, 'Z', "+00:00")).Some? ==>
      d == env.iso8601(ReplaceChar(raw, 'Z', "+00:00")).value
    ensures env.rfc2822(raw).None? && env.iso8601(ReplaceChar(raw, 'Z', "+00:00")).None? ==> d == UtcNow(env)
    ensures d.offset.None? ==>
      && env.rfc2822(raw).None?
      && env.iso8601(ReplaceChar(raw, 'Z', "+00:00")) == Some(d)
  {
    match env.rfc2822(raw)
    case Some(d) => AsUtcIfNaive(d)
    case None =>
      match env.iso8601(ReplaceChar(raw, 'Z', "+00:00"))
      case Some(d) => d
      case None => UtcNow(env)
  }

  /** `pub_dt < cutoff` as Python evaluates it: `None` is the TypeError raised for a naive `pub_dt`. */
  function IsBeforeAsWritten(d: DateTime, cutoff: int): Option<bool>
  {
    if d.offset.None? then None else Some(Instant(d) < cutoff)
  }

  /**
   * An ISO 8601 date without an offset makes the cutoff comparison raise, and
   * the exception escapes `parse_rss`.
   */
  lemma NaiveIsoDateRaisesAsWritten()
    ensures var env := Env(_ => None, _ => None, s => if s == "2024-05-01T10:00:00" then Some(DateTime(1714557600, None)) else None,
                           _ => "", _ => "", 1714600000);
      IsBeforeAsWritten(ResolveDateAsWritten("2024-05-01T10:00:00", env), Cutoff(env)).None?
  {
    var raw := "2024-05-01T10:00:00";
    assert 'Z' !in raw;
  }

  /**
   * The date chain as intended: as written, but a naive ISO 8601 result is
   * read as UTC too, so the resolved date is always aware.
   */
  function ResolveDate(raw: string, env: Env): (d: DateTime)
    ensures d.offset.Some?
    ensures env.rfc2822(raw).Some? ==> d == AsUtcIfNaive(env.rfc2822(raw).value)
    ensures env.rfc2822(raw).None? && env.iso8601(ReplaceChar(raw, 'Z', "+00:00")).Some? ==>
      d == AsUtcIfNaive(env.iso8601(ReplaceChar(raw, 'Z', "+00:00")).value)
    ensures env.rfc2822(raw).None? && env.iso8601(ReplaceChar(raw, 'Z', "+00:00")).None? ==> d == UtcNow(env)
  {
    match env.rfc2822(raw)
    case Some(d) => AsUtcIfNaive(d)
    case None =>
      match env.iso8601(ReplaceChar(raw, 'Z', "+00:00"))
      case Some(d) => AsUtcIfNaive(d)
      case None => UtcNow(env)
  }

  /** Wherever the comparison as written does not raise, the intended one takes the same date and decision. */
  lemma ResolveDateAgrees(raw: string, env: Env)
    requires IsBeforeAsWritten(ResolveDateAsWritten(raw, env), Cutoff(env)).Some?
    ensures ResolveDate(raw, env) == ResolveDateAsWritten(raw, env)
    ensures IsBeforeAsWritten(ResolveDate(raw, env), Cutoff(env))
         == IsBeforeAsWritten(ResolveDateAsWritten(raw, env), Cutoff(env))
  {
  }

  // ---------------------------------------------------------------------------
  // Records

  /** `hash_url`: the first 12 hex digits of the MD5 digest of the url. */
  function HashUrl(url: string, env: Env): (id: string)
    ensures |id| <= IdLength
    ensures id <= env.md5Hex(url)
    ensures |env.md5Hex(url)| >= IdLength ==> |id| == IdLength
  {
    var h := env.md5Hex(url);
    if |h| <= IdLength then h else h[..IdLength]
  }

  /** Is the item kept: its resolved publication instant is not before the cutoff? */
  predicate Kept(item: Item, env: Env) {
    Instant(ResolveDate(PubRaw(item), env)) >= Cutoff(env)
  }

  /** An item whose date parses under neither format is stamped now, so it is always kept. */
  lemma UnparseableDateKept(item: Item, env: Env)
    requires env.rfc2822(PubRaw(item)).None?
    requires env.iso8601(ReplaceChar(PubRaw(item), 'Z', "+00:00")).None?
    ensures Kept(item, env)
  {
  }

  /** The record `parse_rss` appends for an item. */
  function Record(item: Item, sourceKey: string, sourceLabel: string, env: Env): Article
  {
    var link := Link(item);
    Article(
      id := HashUrl(link, env),
      title := Title(item),
      summary := Summary(Description(item)),
      url := link,
      source := sourceKey,
      sourceLabel := sourceLabel,
      publishedAt := env.isoFormat(ResolveDate(PubRaw(item), env)),
      author := sourceLabel,
      score := None,
      thumbnail := None,
      saved := false)
  }

  /** The shape every record of a source has. */
  predicate IsRecordOf(a: Article, sourceKey: string, sourceLabel: string, env: Env) {
    && a.id == HashUrl(a.url, env)
    && a.title != "" && a.url != ""
    && |a.summary| <= SummaryLimit + 1 && NoTag(a.summary)
    && a.source == sourceKey && a.sourceLabel == sourceLabel && a.author == sourceLabel
    && a.score.None? && a.thumbnail.None? && !a.saved
  }

  lemma RecordShape(item: Item, sourceKey: string, sourceLabel: string, env: Env)
    ensures IsRecordOf(Record(item, sourceKey, sourceLabel, env), sourceKey, sourceLabel, env)
  {
  }

  /** The images under `make` of the elements of `s` that `keep` accepts, in order. */
  function FilterMap<T, U>(s: seq<T>, keep: T -> bool, make: T -> U): seq<U>
  {
    if s == [] then []
    else
      var prefix := FilterMap(s[..|s| - 1], keep, make);
      if keep(s[|s| - 1]) then prefix + [make(s[|s| - 1])] else prefix
  }

  /** One more element: its image is appended when `keep` accepts it. */
  lemma FilterMapStep<T, U>(s: seq<T>, i: nat, keep: T -> bool, make: T -> U)
    requires i < |s|
    ensures FilterMap(s[..i + 1], keep, make) == FilterMap(s[..i], keep, make) + (if keep(s[i]) then [make(s[i])] else [])
  {
    assert s[..i + 1][..i] == s[..i];
  }

  lemma {:induction false} FilterMapKeeps<T, U>(s: seq<T>, keep: T -> bool, make: T -> U)
    ensures forall i :: 0 <= i < |s| && keep(s[i]) ==> make(s[i]) in FilterMap(s, keep, make)
  {
    if s != [] {
      var prefix := s[..|s| - 1];
      FilterMapKeeps(prefix, keep, make);
      var r := FilterMap(s, keep, make);
      var p := FilterMap(prefix, keep, make);
      forall i | 0 <= i < |s| && keep(s[i]) ensures make(s[i]) in r {
        if i < |prefix| {
          assert s[i] == prefix[i];
          var m :| 0 <= m < |p| && p[m] == make(prefix[i]);
          assert r[m] == p[m];
        } else {
          assert r[|r| - 1] == make(s[i]);
        }
      }
    }
  }

  lemma {:induction false} FilterMapComesFrom<T, U>(s: seq<T>, keep: T -> bool, make: T -> U)
    ensures |FilterMap(s, keep, make)| <= |s|
    ensures forall u :: u in FilterMap(s, keep, make) ==> exists i :: 0 <= i < |s| && keep(s[i]) && u == make(s[i])
  {
    if s != [] {
      var prefix := s[..|s| - 1];
      FilterMapComesFrom(prefix, keep, make);
      var r := FilterMap(s, keep, make);
      var p := FilterMap(prefix, keep, make);
      forall u | u in r ensures exists i :: 0 <= i < |s| && keep(s[i]) && u == make(s[i]) {
        if u in p {
          var i :| 0 <= i < |prefix| && keep(prefix[i]) && u == make(prefix[i]);
          assert s[i] == prefix[i];
        } else {
          assert keep(s[|s| - 1]) && u == make(s[|s| - 1]);
        }
      }
    }
  }

  /** Whether `parse_rss` keeps an item. */
  function Keeper(env: Env): Item -> bool {
    item => Kept(item, env)
  }

  /** The record `parse_rss` builds for an item. */
  function Maker(sourceKey: string, sourceLabel: string, env: Env): Item -> Article {
    item => Record(item, sourceKey, sourceLabel, env)
  }

  /** The records of the kept items, in item order: what the loop of `parse_rss` builds. */
  function NormalizeItems(items: seq<Item>, sourceKey: string, sourceLabel: string, env: Env): seq<Article>
  {
    FilterMap(items, Keeper(env), Maker(sourceKey, sourceLabel, env))
  }

  /** Every kept item yields its record. */
  lemma KeptItemsAppear(items: seq<Item>, sourceKey: string, sourceLabel: string, env: Env)
    ensures forall i :: 0 <= i < |items| && Kept(items[i], env) ==>
      Record(items[i], sourceKey, sourceLabel, env) in NormalizeItems(items, sourceKey, sourceLabel, env)
  {
    FilterMapKeeps(items, Keeper(env), Maker(sourceKey, sourceLabel, env));
  }

  /** Every record comes from a kept item, and there are no more records than items. */
  lemma RecordsComeFromKeptItems(items: seq<Item>, sourceKey: string, sourceLabel: string, env: Env)
    ensures |NormalizeItems(items, sourceKey, sourceLabel, env)| <= |items|
    ensures forall a :: a in NormalizeItems(items, sourceKey, sourceLabel, env) ==>
      exists i :: 0 <= i < |items| && Kept(items[i], env) && a == Record(items[i], sourceKey, sourceLabel, env)
  {
    FilterMapComesFrom(items, Keeper(env), Maker(sourceKey, sourceLabel, env));
  }

  /** Every record the loop builds has the source's shape. */
  lemma NormalizedAreRecords(items: seq<Item>, sourceKey: string, sourceLabel: string, env: Env)
    ensures forall a :: a in NormalizeItems(items, sourceKey, sourceLabel, env) ==> IsRecordOf(a, sourceKey, sourceLabel, env)
  {
    RecordsComeFromKeptItems(items, sourceKey, sourceLabel, env);
    forall a | a in NormalizeItems(items, sourceKey, sourceLabel, env) ensures IsRecordOf(a, sourceKey, sourceLabel, env) {
      var i :| 0 <= i < |items| && Kept(items[i], env) && a == Record(items[i], sourceKey, sourceLabel, env);
      RecordShape(items[i], sourceKey, sourceLabel, env);
    }
  }

  /** `root.findall(".//item") or root.findall(".//atom:entry", ns) or root.findall(".//entry")`. */
  function SelectItems(doc: Document): (items: seq<Item>)
    ensures doc.rssItems != [] ==> items == doc.rssItems
    ensures doc.rssItems == [] && doc.atomEntries != [] ==> items == doc.atomEntries
    ensures doc.rssItems == [] && doc.atomEntries == [] ==> items == doc.bareEntries
  {
    if doc.rssItems != [] then doc.rssItems
    else if doc.atomEntries != [] then doc.atomEntries
    else doc.bareEntries
  }

  /** What `parse_rss(xml_text, source_key, source_label)` returns. */
  function NormalizeFeed(xmlText: string, sourceKey: string, sourceLabel: string, env: Env): seq<Article>
  {
    match env.parseXml(xmlText)
    case None => []
    case Some(doc) => NormalizeItems(SelectItems(doc), sourceKey, sourceLabel, env)
  }

  /** `parse_rss`: one pass over the items, skipping those before the cutoff. */
  method ParseRss(xmlText: string, sourceKey: string, sourceLabel: string, env: Env) returns (articles: seq<Article>)
    ensures articles == NormalizeFeed(xmlText, sourceKey, sourceLabel, env)
    ensures env.parseXml(xmlText).None? ==> articles == []
    ensures forall a :: a in articles ==> IsRecordOf(a, sourceKey, sourceLabel, env)
  {
    articles := [];
    var parsed := env.parseXml(xmlText);
    if parsed.None? {
      return;
    }
    var items := SelectItems(parsed.value);
    for i := 0 to |items|
      invariant articles == NormalizeItems(items[..i], sourceKey, sourceLabel, env)
    {
      var item := items[i];
      FilterMapStep(items, i, Keeper(env), Maker(sourceKey, sourceLabel, env));
      if !Kept(item, env) {
        continue;
      }
      articles := articles + [Record(item, sourceKey, sourceLabel, env)];
    }
    assert items[..|items|] == items;
    NormalizedAreRecords(items, sourceKey, sourceLabel, env);
  }
}
