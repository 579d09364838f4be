/** The RSS 2.0 document `create_rss_feed` builds, the file selection of
    `read_json_files`, and the empty-input check of `main`. */
module Feed {
  import opened Wrappers
  import opened Timestamp
  import opened Item

  const RSS_VERSION := "2.0"
  const ATOM_NAMESPACE := "http://www.w3.org/2005/Atom"
  const FEED_TITLE := "Feed di Notizie UglyCitizen"
  const FEED_LINK := "https://github.com/fabriziosalmi/UglyFeed"
  const FEED_DESCRIPTION := "Feed di notizie aggregato e riscritto da UglyCitizen"
  const FEED_LANGUAGE := "it"

  /** The attributes of the `atom:link` element. */
  datatype AtomLink = AtomLink(href: string, rel: string, mimeType: string)

  const SELF_LINK := AtomLink("https://github.com/fabriziosalmi/UglyFeed/uglyfeeds/uglyfeed.xml", "self", "application/rss+xml")

  /** The `rss` element: its two attributes, the children of its `channel`
      before the items, and the items. */
  datatype Document = Document(
    version: string,
    atomNamespace: string,
    title: string,
    link: string,
    description: string,
    language: string,
    atomLink: AtomLink,
    items: seq<Item>)

  /** The fixed part of every document. */
  predicate HasFixedMetadata(doc: Document) {
    && doc.version == RSS_VERSION && doc.atomNamespace == ATOM_NAMESPACE
    && doc.title == FEED_TITLE && doc.link == FEED_LINK && doc.description == FEED_DESCRIPTION
    && doc.language == FEED_LANGUAGE && doc.atomLink == SELF_LINK
  }

  /** The `channel` element while it is being built: its metadata children
      and the items appended so far. */
  class Channel {
    var title: string
    var link: string
    var description: string
    var language: string
    var atomLink: AtomLink
    var items: seq<Item>

    /** The skeleton: fixed metadata and no item. */
    constructor ()
      ensures title == FEED_TITLE && link == FEED_LINK && description == FEED_DESCRIPTION
      ensures language == FEED_LANGUAGE && atomLink == SELF_LINK
      ensures items == []
    {
      title := FEED_TITLE;
      link := FEED_LINK;
      description := FEED_DESCRIPTION;
      language := FEED_LANGUAGE;
      atomLink := SELF_LINK;
      items := [];
    }

    /** A new `item` child of the channel, after the others. */
    method Append(it: Item)
      modifies this
      ensures items == old(items) + [it]
      ensures title == old(title) && link == old(link) && description == old(description)
      ensures language == old(language) && atomLink == old(atomLink)
    {
      items := items + [it];
    }

    /** The document whose channel this is. */
    function ToDocument(): Document
      reads this
    {
      Document(RSS_VERSION, ATOM_NAMESPACE, title, link, description, language, atomLink, items)
    }
  }

  /** The values of a sequence of results, or the error of the first failure. */
  function Collect<T, E>(rs: seq<Result<T, E>>): Result<seq<T>, E> {
    if rs == [] then Ok([])
    else match rs[0]
      case Err(e) => Err(e)
      case Ok(v) =>
        match Collect(rs[1..])
        case Err(e) => Err(e)
        case Ok(rest) => Ok([v] + rest)
  }

  lemma {:induction false} CollectSnoc<T, E>(rs: seq<Result<T, E>>, r: Result<T, E>)
    requires Collect(rs).Ok?
    ensures Collect(rs + [r]) ==
      match r
      case Err(e) => Err(e)
      case Ok(v) => Ok(Collect(rs).value + [v])
  {
    if rs == [] {
      assert rs + [r] == [r] && [r][1..] == [];
      assert Collect([r][1..]) == Ok([]);
      assert Collect(rs).value == [];
      if r.Ok? {
        assert [r.value] + [] == [] + [r.value];
      }
    } else {
      assert (rs + [r])[0] == rs[0] && (rs + [r])[1..] == rs[1..] + [r];
      CollectSnoc(rs[1..], r);
      if r.Ok? {
        assert [rs[0].value] + (Collect(rs[1..]).value + [r.value]) == ([rs[0].value] + Collect(rs[1..]).value) + [r.value];
      }
    }
  }

  lemma {:induction false} CollectAbort<T, E>(rs: seq<Result<T, E>>, more: seq<Result<T, E>>)
    requires Collect(rs).Err?
    ensures Collect(rs + more) == Collect(rs)
  {
    if rs != [] {
      assert (rs + more)[1..] == rs[1..] + more;
      if rs[0].Ok? {
        CollectAbort(rs[1..], more);
      }
    }
  }

  /** One step of collecting from the left: the next value extends the
      values so far, and the next error is the error of the whole. */
  lemma CollectStep<T, E>(rs: seq<Result<T, E>>, i: nat, values: seq<T>)
    requires i < |rs| && Collect(rs[..i]) == Ok(values)
    ensures rs[i].Ok? ==> Collect(rs[..i + 1]) == Ok(values + [rs[i].value])
    ensures rs[i].Err? ==> Collect(rs) == Err(rs[i].error)
  {
    assert rs[..i + 1] == rs[..i] + [rs[i]];
    CollectSnoc(rs[..i], rs[i]);
    if rs[i].Err? {
      assert rs == rs[..i + 1] + rs[i + 1..];
      CollectAbort(rs[..i + 1], rs[i + 1..]);
    }
  }

  /** Collecting succeeds with every value in order when every result is a
      value; otherwise it fails with the error of the first failure. */
  lemma {:induction false} CollectAll<T, E>(rs: seq<Result<T, E>>)
    ensures Collect(rs).Ok? <==> forall i | 0 <= i < |rs| :: rs[i].Ok?
    ensures Collect(rs).Ok? ==>
      |Collect(rs).value| == |rs| && forall i | 0 <= i < |rs| :: rs[i] == Ok(Collect(rs).value[i])
    ensures Collect(rs).Err? ==>
      exists i | 0 <= i < |rs| :: (forall j | 0 <= j < i :: rs[j].Ok?) && rs[i] == Err(Collect(rs).error)
  {
    if rs != [] {
      CollectAll(rs[1..]);
      assert forall i | 1 <= i < |rs| :: rs[i] == rs[1..][i - 1];
      if Collect(rs).Err? && rs[0].Ok? {
        var i :| 0 <= i < |rs[1..]|
          && (forall j | 0 <= j < i :: rs[1..][j].Ok?)
          && rs[1..][i] == Err(Collect(rs[1..]).error);
        assert rs[i + 1] == Err(Collect(rs).error);
      }
    }
  }

  /** The result of building each record, in input order. */
  function Builds(records: seq<Record>, now: Clock): seq<Result<Item, DateError>> {
    seq(|records|, i requires 0 <= i < |records| => ItemOf(records[i], now))
  }

  /** The document built from the records, or the error that aborts it. */
  function FeedOf(records: seq<Record>, now: Clock): Result<Document, DateError> {
    match Collect(Builds(records, now))
    case Err(e) => Err(e)
    case Ok(items) =>
      Ok(Document(RSS_VERSION, ATOM_NAMESPACE, FEED_TITLE, FEED_LINK, FEED_DESCRIPTION, FEED_LANGUAGE, SELF_LINK, items))
  }

  /** `create_rss_feed`: the skeleton, then one item per record in input
      order; the first record whose timestamp does not parse aborts it. */
  method CreateRssFeed(records: seq<Record>, now: Clock) returns (res: Result<Document, DateError>)
    ensures res == FeedOf(records, now)
  {
    var channel := new Channel();
    ghost var builds := Builds(records, now);
    for i := 0 to |records|
      invariant Collect(builds[..i]) == Ok(channel.items)
      invariant channel.title == FEED_TITLE && channel.link == FEED_LINK
      invariant channel.description == FEED_DESCRIPTION && channel.language == FEED_LANGUAGE
      invariant channel.atomLink == SELF_LINK
    {
      var item := BuildItem(records[i], now);
      assert item == builds[i];
      CollectStep(builds, i, channel.items);
      if item.Err? {
        return Err(item.error);
      }
      channel.Append(item.value);
    }
    assert builds[..|records|] == builds;
    res := Ok(channel.ToDocument());
  }

  /** A built document has the fixed metadata and exactly one item per
      record, each built from the record at the same position. */
  lemma FeedItems(records: seq<Record>, now: Clock)
    requires FeedOf(records, now).Ok?
    ensures var doc := FeedOf(records, now).value;
      && HasFixedMetadata(doc)
      && |doc.items| == |records|
      && forall i | 0 <= i < |records| :: ItemOf(records[i], now) == Ok(doc.items[i])
  {
    CollectAll(Builds(records, now));
  }

  /** The document is built exactly when every record can be built; when it
      is not, the error is that of the first record that cannot. */
  lemma FeedFails(records: seq<Record>, now: Clock)
    ensures FeedOf(records, now).Ok? <==> forall i | 0 <= i < |records| :: ItemOf(records[i], now).Ok?
    ensures FeedOf(records, now).Err? ==>
      exists i | 0 <= i < |records| ::
        && (forall j | 0 <= j < i :: ItemOf(records[j], now).Ok?)
        && ItemOf(records[i], now) == Err(FeedOf(records, now).error)
  {
    var bs := Builds(records, now);
    CollectAll(bs);
    assert forall i | 0 <= i < |records| :: bs[i] == ItemOf(records[i], now);
  }

  /** A record without `processed_at` makes the whole feed fail. */
  lemma MissingStampAborts(records: seq<Record>, now: Clock, k: nat)
    requires k < |records| && records[k].processedAt.None?
    ensures FeedOf(records, now).Err?
  {
    ItemOfBuilt(records[k], now, now);
    FeedFails(records, now);
  }

  // Selecting the input files

  const SUFFIX := "_rewritten.json"

  predicate EndsWith(s: string, suffix: string) {
    |s| >= |suffix| && s[|s| - |suffix|..] == suffix
  }

  /** The names that end in the suffix, in listing order. */
  function Selected(names: seq<string>): seq<string> {
    if names == [] then []
    else (if EndsWith(names[0], SUFFIX) then [names[0]] else []) + Selected(names[1..])
  }

  lemma {:induction false} SelectedAppend(a: seq<string>, b: seq<string>)
    ensures Selected(a + b) == Selected(a) + Selected(b)
  {
    if a == [] {
      assert a + b == b;
    } else {
      assert (a + b)[1..] == a[1..] + b;
      SelectedAppend(a[1..], b);
    }
  }

  /** Exactly the names with the suffix are kept. */
  lemma {:induction false} SelectedMembers(names: seq<string>)
    ensures forall x :: x in Selected(names) <==> x in names && EndsWith(x, SUFFIX)
  {
    if names != [] {
      SelectedMembers(names[1..]);
      assert names == [names[0]] + names[1..];
    }
  }

  /** Every name with the suffix is kept, once per occurrence; the others are dropped. */
  lemma {:induction false} SelectedCount(names: seq<string>, x: string)
    ensures multiset(Selected(names))[x] == if EndsWith(x, SUFFIX) then multiset(names)[x] else 0
  {
    if names != [] {
      SelectedCount(names[1..], x);
      assert names == [names[0]] + names[1..];
    }
  }

  /** `read_json_files`: the records of the selected files, in listing
      order; `load` stands for opening a file and parsing its JSON. */
  method ReadJsonFiles(listing: seq<string>, load: string -> Record) returns (data: seq<Record>)
    ensures |data| == |Selected(listing)|
    ensures forall i | 0 <= i < |data| :: data[i] == load(Selected(listing)[i])
  {
    data := [];
    for i := 0 to |listing|
      invariant |data| == |Selected(listing[..i])|
      invariant forall j | 0 <= j < |data| :: data[j] == load(Selected(listing[..i])[j])
    {
      assert listing[..i + 1] == listing[..i] + [listing[i]];
      SelectedAppend(listing[..i], [listing[i]]);
      if EndsWith(listing[i], SUFFIX) {
        data := data + [load(listing[i])];
      }
    }
    assert listing[..|listing|] == listing;
  }

  // The program

  /** What a run does: nothing when no record was found, else writes the
      document or stops with the error. */
  datatype Outcome = NothingFound | Written(doc: Document) | Failed(error: DateError)

  /** `main`, with the directory listing, the file contents and the clock as
      parameters. */
  method Run(listing: seq<string>, load: string -> Record, now: Clock) returns (out: Outcome)
    ensures out.NothingFound? <==> Selected(listing) == []
    ensures out.Written? ==> HasFixedMetadata(out.doc) && |out.doc.items| == |Selected(listing)|
    ensures out.Written? ==> forall i | 0 <= i < |out.doc.items| ::
      ItemOf(load(Selected(listing)[i]), now) == Ok(out.doc.items[i])
    ensures out.Failed? ==> exists i | 0 <= i < |Selected(listing)| ::
      && (forall j | 0 <= j < i :: ItemOf(load(Selected(listing)[j]), now).Ok?)
      && ItemOf(load(Selected(listing)[i]), now) == Err(out.error)
  {
    var records := ReadJsonFiles(listing, load);
    if records == [] {
      return NothingFound;
    }
    var feed := CreateRssFeed(records, now);
    FeedFails(records, now);
    match feed {
      case Ok(doc) =>
        FeedItems(records, now);
        out := Written(doc);
      case Err(e) =>
        out := Failed(e);
    }
  }
}
