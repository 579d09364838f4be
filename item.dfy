/** One article record and the feed item built from it: the loop body of
    `create_rss_feed`. */
module Item {
  import opened Wrappers
  import opened Timestamp
  import Quote
  import opened Seqs

  /** The keys of an article record the item builder reads; a key missing
      from the JSON object is None. */
  datatype Record = Record(
    title: Option<string>,
    content: Option<string>,
    links: Option<seq<string>>,
    processedAt: Option<string>)

  /** The four children of an `item` element, in document order. */
  datatype Item = Item(title: string, description: string, pubDate: string, guid: string)

  const DEFAULT_TITLE := "Nessun Titolo"
  const DEFAULT_CONTENT := "Nessun Contenuto"
  const SOURCES_HEADER := "<br/><br/><small>Fonti:</small><br/>"
  const GUID_PREFIX := "https://github.com/fabriziosalmi/UglyFeed/"

  function Title(r: Record): string {
    r.title.GetOr(DEFAULT_TITLE)
  }

  function Content(r: Record): string {
    r.content.GetOr(DEFAULT_CONTENT)
  }

  /** The title is the record's own whenever the key is there, the empty
      string included; the placeholder shows exactly when the key is missing
      or the record carries the placeholder itself. */
  lemma TitleDefaulting(r: Record)
    ensures r.title.Some? ==> Title(r) == r.title.value
    ensures Title(r) == DEFAULT_TITLE <==> r.title.None? || r.title == Some(DEFAULT_TITLE)
  {
  }

  // Description

  /** The line that lists one source link. */
  function SourceEntry(link: string): string {
    "<small><a href=\"" + link + "\" target=\"_blank\">" + link + "</a></small><br/>"
  }

  /** The entry of each link, in list order. */
  function Entries(links: seq<string>): (es: seq<string>)
    ensures |es| == |links|
  {
    seq(|links|, i requires 0 <= i < |links| => SourceEntry(links[i]))
  }

  /** One entry per link, in list order. */
  function SourcesList(links: seq<string>): string {
    Concat(Entries(links))
  }

  /** The content, then, when the record has a `links` key, the sources
      header and the list of its links. */
  function Description(r: Record): string {
    match r.links
    case None => Content(r)
    case Some(links) => Content(r) + SOURCES_HEADER + SourcesList(links)
  }

  lemma EntriesSlices(links: seq<string>, k: nat)
    requires k <= |links|
    ensures Entries(links[..k]) == Entries(links)[..k]
    ensures Entries(links[k..]) == Entries(links)[k..]
  {
  }

  lemma SourcesListAppend(a: seq<string>, b: seq<string>)
    ensures SourcesList(a + b) == SourcesList(a) + SourcesList(b)
  {
    assert Entries(a + b) == Entries(a) + Entries(b);
    ConcatAppend(Entries(a), Entries(b));
  }

  /** The description as the loop grows it: the content, then the header
      appended, then one entry appended per link. */
  method BuildDescription(r: Record) returns (d: string)
    ensures d == Description(r)
  {
    d := Content(r);
    if r.links.Some? {
      d := d + SOURCES_HEADER;
      var links := r.links.value;
      for i := 0 to |links|
        invariant d == Content(r) + SOURCES_HEADER + SourcesList(links[..i])
      {
        SourcesListSplit(links, i);
        d := d + SourceEntry(links[i]);
      }
      assert links[..|links|] == links;
    }
  }

  /** Where the entry of the link at position `k` starts in the list. */
  function EntryOffset(links: seq<string>, k: nat): (off: nat)
    requires k <= |links|
    ensures off <= |SourcesList(links)|
    ensures k < |links| ==> off + |SourceEntry(links[k])| <= |SourcesList(links)|
  {
    assert links == links[..k] + links[k..];
    SourcesListAppend(links[..k], links[k..]);
    |SourcesList(links[..k])|
  }

  /** The list splits around the entry of any link. */
  lemma SourcesListSplit(links: seq<string>, k: nat)
    requires k < |links|
    ensures SourcesList(links) == SourcesList(links[..k]) + SourceEntry(links[k]) + SourcesList(links[k + 1..])
    ensures SourcesList(links[..k + 1]) == SourcesList(links[..k]) + SourceEntry(links[k])
  {
    EntriesSlices(links, k);
    EntriesSlices(links, k + 1);
    ConcatSplit(Entries(links), k);
    ConcatPrefix(Entries(links), k);
  }

  /** The entry of each link stands in the list, one after the other. */
  lemma SourcesListEntry(links: seq<string>, k: nat)
    requires k < |links|
    ensures var off := EntryOffset(links, k); var e := SourceEntry(links[k]);
      && off + |e| == EntryOffset(links, k + 1) <= |SourcesList(links)|
      && SourcesList(links)[off..off + |e|] == e
  {
    SourcesListSplit(links, k);
    var a, e, b := SourcesList(links[..k]), SourceEntry(links[k]), SourcesList(links[k + 1..]);
    assert (a + e + b)[|a|..|a| + |e|] == e;
  }

  /** The description begins with the content. Without a `links` key it is
      the content; with one, even an empty list, the header follows the
      content and the list of the links follows the header. */
  lemma DescriptionLayout(r: Record)
    ensures var c, d := Content(r), Description(r);
      && d[..|c|] == c
      && (r.links.None? ==> d == c)
      && (r.links.Some? ==>
            var base := |c| + |SOURCES_HEADER|;
            && d[|c|..base] == SOURCES_HEADER
            && d[base..] == SourcesList(r.links.value))
  {
  }

  /** In the description, the entry of each link stands where the list puts it. */
  lemma DescriptionEntry(r: Record, k: nat)
    requires r.links.Some? && k < |r.links.value|
    ensures var links := r.links.value; var e := SourceEntry(links[k]);
      var off := |Content(r)| + |SOURCES_HEADER| + EntryOffset(links, k);
      off + |e| <= |Description(r)| && Description(r)[off..off + |e|] == e
  {
    var links, d := r.links.value, Description(r);
    var base, off, e := |Content(r)| + |SOURCES_HEADER|, EntryOffset(links, k), SourceEntry(links[k]);
    SourcesListEntry(links, k);
    SliceRight(Content(r) + SOURCES_HEADER, SourcesList(links), base + off, base + off + |e|);
  }

  // Publication date and guid

  /** The record's timestamp, or the ISO text of the clock when the key is missing. */
  function Stamp(r: Record, now: Clock): string {
    r.processedAt.GetOr(IsoFormat(now))
  }

  /** The timestamp parsed with the input format and rendered in the RFC 822 form. */
  function PubDate(r: Record, now: Clock): Result<string, DateError> {
    match Parse(Stamp(r, now))
    case Ok(t) => Ok(Rfc822(t))
    case Err(e) => Err(e)
  }

  /** The fixed prefix and the quoted title, with the title's own default. */
  function Guid(r: Record): string {
    GUID_PREFIX + Quote.Quote(Title(r))
  }

  /** The guid starts with the prefix and the rest decodes to the title, so
      two records get the same guid exactly when they get the same title. */
  lemma GuidOfTitle(r: Record, r': Record)
    ensures Guid(r)[..|GUID_PREFIX|] == GUID_PREFIX
    ensures Quote.Unquote(Guid(r)[|GUID_PREFIX|..]) == Some(Title(r))
    ensures Guid(r) == Guid(r') <==> Title(r) == Title(r')
  {
    assert Guid(r)[|GUID_PREFIX|..] == Quote.Quote(Title(r));
    assert Guid(r')[|GUID_PREFIX|..] == Quote.Quote(Title(r'));
    Quote.UnquoteQuote(Title(r));
    Quote.QuoteInjective(Title(r), Title(r'));
  }

  // The item

  /** The item of one record, or the error `strptime` raises. */
  function ItemOf(r: Record, now: Clock): Result<Item, DateError> {
    match PubDate(r, now)
    case Err(e) => Err(e)
    case Ok(p) => Ok(Item(Title(r), Description(r), p, Guid(r)))
  }

  /** The children of one `item` element, set in document order. */
  method BuildItem(r: Record, now: Clock) returns (res: Result<Item, DateError>)
    ensures res == ItemOf(r, now)
  {
    var title := Title(r);
    var description := BuildDescription(r);
    var stamp := Parse(Stamp(r, now));
    if stamp.Err? {
      return Err(stamp.error);
    }
    var pubDate := Rfc822(stamp.value);
    var guid := Guid(r);
    res := Ok(Item(title, description, pubDate, guid));
  }

  /** A record is built exactly when it has a `processed_at` key that parses;
      without the key the ISO default never parses. The clock therefore never
      shows in a built item. */
  lemma ItemOfBuilt(r: Record, now: Clock, later: Clock)
    ensures ItemOf(r, now).Ok? <==> r.processedAt.Some? && Parse(r.processedAt.value).Ok?
    ensures r.processedAt.None? ==> ItemOf(r, now) == Err(Mismatch)
    ensures ItemOf(r, now).Ok? ==> ItemOf(r, later) == ItemOf(r, now)
  {
    IsoFormatNeverParses(now);
  }

  /** The pubDate of a built item is the rendering of the record's timestamp. */
  lemma ItemPubDate(r: Record, now: Clock)
    requires ItemOf(r, now).Ok?
    ensures r.processedAt.Some? && Parse(r.processedAt.value).Ok?
    ensures ItemOf(r, now).value.pubDate == Rfc822(Parse(r.processedAt.value).value)
  {
    ItemOfBuilt(r, now, now);
  }
}
