/** The article index: the metadata records, their order (the sort of
    backend/build.rs:113) and the RSS 2.0 text built from them
    (`generate_rss`, backend/build.rs:245-263). */
module Feed {
  import opened Wrappers
  import opened Strings
  import opened XmlEscape

  /** `BlogMeta` (backend/build.rs:11-16). */
  datatype BlogMeta = BlogMeta(title: string, date: string, slug: string)

  // ---------------------------------------------------------------------
  // The order of `String::cmp`: lexicographic by character.

  /** `a` sorts strictly before `b`. */
  predicate Less(a: string, b: string)
    decreases |a|
  {
    if a == [] then b != []
    else if b == [] then false
    else if a[0] != b[0] then a[0] < b[0]
    else Less(a[1..], b[1..])
  }

  lemma {:induction false} LessIrreflexive(a: string)
    ensures !Less(a, a)
    decreases |a|
  {
    if a != [] {
      LessIrreflexive(a[1..]);
    }
  }

  lemma {:induction false} LessAsymmetric(a: string, b: string)
    requires Less(a, b)
    ensures !Less(b, a)
    decreases |a|
  {
    if a != [] && b != [] && a[0] == b[0] {
      LessAsymmetric(a[1..], b[1..]);
    }
  }

  lemma {:induction false} LessTransitive(a: string, b: string, c: string)
    requires Less(a, b) && Less(b, c)
    ensures Less(a, c)
    decreases |a|
  {
    if a != [] && a[0] == b[0] && b[0] == c[0] {
      LessTransitive(a[1..], b[1..], c[1..]);
    }
  }

  lemma {:induction false} LessTotal(a: string, b: string)
    ensures a == b || Less(a, b) || Less(b, a)
    decreases |a|
  {
    if a != [] && b != [] && a[0] == b[0] {
      LessTotal(a[1..], b[1..]);
      if a[1..] == b[1..] {
        assert a == [a[0]] + a[1..] && b == [b[0]] + b[1..];
      }
    }
  }

  /** `b` is not later than `a`: the two may stand in this order once
      sorted newest first. */
  predicate NotLater(a: BlogMeta, b: BlogMeta) {
    !Less(a.date, b.date)
  }

  /** Newest first: no record is followed by one with a later date. */
  predicate SortedDesc(ms: seq<BlogMeta>) {
    forall i, j :: 0 <= i < j < |ms| ==> NotLater(ms[i], ms[j])
  }

  // ---------------------------------------------------------------------
  // `metas.sort_by(|a, b| b.date.cmp(&a.date))`: a stable sort, newest
  // first.  Any stable sort gives the same result (`StableSortUnique`),
  // so it is written here as an insertion sort.

  /** `m` placed after every record of `ms` that is not older. */
  function Insert(m: BlogMeta, ms: seq<BlogMeta>): seq<BlogMeta> {
    if ms == [] then [m]
    else if Less(ms[0].date, m.date) then [m] + ms
    else [ms[0]] + Insert(m, ms[1..])
  }

  /** The records sorted newest first, those with equal dates in their
      original order. */
  function SortByDateDesc(ms: seq<BlogMeta>): seq<BlogMeta> {
    if ms == [] then []
    else Insert(ms[|ms| - 1], SortByDateDesc(ms[..|ms| - 1]))
  }

  /** Insertion adds `m` and nothing else. */
  lemma {:induction false} InsertPermutes(m: BlogMeta, ms: seq<BlogMeta>)
    ensures multiset(Insert(m, ms)) == multiset(ms) + multiset{m}
  {
    if ms != [] && !Less(ms[0].date, m.date) {
      InsertPermutes(m, ms[1..]);
      assert ms == [ms[0]] + ms[1..];
    }
  }

  /** The sort is a permutation of its input. */
  lemma {:induction false} SortPermutes(ms: seq<BlogMeta>)
    ensures multiset(SortByDateDesc(ms)) == multiset(ms)
  {
    if ms != [] {
      var init, last := ms[..|ms| - 1], ms[|ms| - 1];
      var sorted := SortByDateDesc(init);
      assert SortByDateDesc(ms) == Insert(last, sorted);
      SortPermutes(init);
      InsertPermutes(last, sorted);
      assert ms == init + [last];
      assert multiset(ms) == multiset(init) + multiset{last};
    }
  }

  /** Insertion keeps the list sorted newest first. */
  lemma {:induction false} InsertSorted(m: BlogMeta, ms: seq<BlogMeta>)
    requires SortedDesc(ms)
    ensures SortedDesc(Insert(m, ms))
  {
    if ms == [] {
    } else if Less(ms[0].date, m.date) {
      InsertSortedFront(m, ms);
    } else {
      InsertSorted(m, ms[1..]);
      InsertSortedBehind(m, ms);
    }
  }

  /** A record later than the head of a sorted list goes in front of it. */
  lemma InsertSortedFront(m: BlogMeta, ms: seq<BlogMeta>)
    requires SortedDesc(ms) && ms != [] && Less(ms[0].date, m.date)
    ensures SortedDesc([m] + ms)
  {
    var r := [m] + ms;
    forall j | 0 < j < |r| ensures NotLater(m, r[j]) {
      assert r[j] == ms[j - 1];
      if j > 1 {
        assert !Less(ms[0].date, ms[j - 1].date);
        LessTotal(ms[0].date, ms[j - 1].date);
        if ms[0].date != ms[j - 1].date {
          LessTransitive(ms[j - 1].date, ms[0].date, m.date);
        }
        LessAsymmetric(ms[j - 1].date, m.date);
      } else {
        LessAsymmetric(ms[0].date, m.date);
      }
    }
    forall i, j | 0 <= i < j < |r| ensures NotLater(r[i], r[j]) {
      if i > 0 {
        assert r[i] == ms[i - 1] && r[j] == ms[j - 1];
      }
    }
  }

  /** Otherwise it goes into the tail, and the head stays first. */
  lemma InsertSortedBehind(m: BlogMeta, ms: seq<BlogMeta>)
    requires SortedDesc(ms) && ms != [] && !Less(ms[0].date, m.date)
    requires SortedDesc(Insert(m, ms[1..]))
    ensures SortedDesc([ms[0]] + Insert(m, ms[1..]))
  {
    HeadNotLaterThanInserted(m, ms);
    ConsSorted(ms[0], Insert(m, ms[1..]));
  }

  /** A record not later than any of a sorted list can go in front of it. */
  lemma ConsSorted(h: BlogMeta, tail: seq<BlogMeta>)
    requires SortedDesc(tail)
    requires forall j :: 0 <= j < |tail| ==> NotLater(h, tail[j])
    ensures SortedDesc([h] + tail)
  {
    var r := [h] + tail;
    forall i, j | 0 <= i < j < |r| ensures NotLater(r[i], r[j]) {
      if i == 0 {
        assert r[j] == tail[j - 1];
      } else {
        assert r[i] == tail[i - 1] && r[j] == tail[j - 1];
      }
    }
  }

  /** The head of a sorted list is not later than anything in the tail
      with a record not later than it inserted. */
  lemma HeadNotLaterThanInserted(m: BlogMeta, ms: seq<BlogMeta>)
    requires SortedDesc(ms) && ms != [] && !Less(ms[0].date, m.date)
    ensures forall j :: 0 <= j < |Insert(m, ms[1..])| ==> NotLater(ms[0], Insert(m, ms[1..])[j])
  {
    var tail := Insert(m, ms[1..]);
    InsertPermutes(m, ms[1..]);
    assert multiset(tail) == multiset(ms[1..]) + multiset{m};
    forall j | 0 <= j < |tail| ensures NotLater(ms[0], tail[j]) {
      assert tail[j] in multiset(tail);
      if tail[j] != m {
        assert tail[j] in multiset(ms[1..]);
        var k :| 0 <= k < |ms[1..]| && ms[1..][k] == tail[j];
        assert ms[k + 1] == tail[j];
      }
    }
  }

  /** The sort orders the records newest first. */
  lemma {:induction false} SortSorted(ms: seq<BlogMeta>)
    ensures SortedDesc(SortByDateDesc(ms))
  {
    if ms != [] {
      SortSorted(ms[..|ms| - 1]);
      InsertSorted(ms[|ms| - 1], SortByDateDesc(ms[..|ms| - 1]));
    }
  }

  /** The records of `ms` with date `d`, in order. */
  function WithDate(ms: seq<BlogMeta>, d: string): (r: seq<BlogMeta>)
    ensures forall i :: 0 <= i < |r| ==> r[i].date == d
  {
    if ms == [] then []
    else if ms[0].date == d then [ms[0]] + WithDate(ms[1..], d)
    else WithDate(ms[1..], d)
  }

  lemma {:induction false} WithDateAppend(xs: seq<BlogMeta>, ys: seq<BlogMeta>, d: string)
    ensures WithDate(xs + ys, d) == WithDate(xs, d) + WithDate(ys, d)
  {
    if xs == [] {
      assert xs + ys == ys;
    } else {
      assert (xs + ys)[1..] == xs[1..] + ys;
      WithDateAppend(xs[1..], ys, d);
    }
  }

  /** No record of a list sorted newest first has a date later than its
      head's. */
  lemma {:induction false} NoneLater(ms: seq<BlogMeta>, d: string)
    requires SortedDesc(ms) && ms != [] && Less(ms[0].date, d)
    ensures WithDate(ms, d) == []
  {
    forall j | 0 <= j < |ms| ensures ms[j].date != d {
      if j > 0 {
        LessTotal(ms[0].date, ms[j].date);
        if ms[0].date != ms[j].date {
          LessTransitive(ms[j].date, ms[0].date, d);
        }
      }
      if ms[j].date == d {
        LessAsymmetric(ms[0].date, d);
      }
    }
    WithDateNone(ms, d);
  }

  lemma {:induction false} WithDateNone(ms: seq<BlogMeta>, d: string)
    requires forall j :: 0 <= j < |ms| ==> ms[j].date != d
    ensures WithDate(ms, d) == []
  {
    if ms != [] {
      WithDateNone(ms[1..], d);
    }
  }

  /** Insertion puts `m` after the records of its own date. */
  lemma {:induction false} InsertWithDate(m: BlogMeta, ms: seq<BlogMeta>, d: string)
    requires SortedDesc(ms)
    ensures WithDate(Insert(m, ms), d) == WithDate(ms, d) + (if m.date == d then [m] else [])
  {
    if ms == [] {
    } else if Less(ms[0].date, m.date) {
      assert Insert(m, ms) == [m] + ms;
      assert ([m] + ms)[1..] == ms;
      if m.date == d {
        NoneLater(ms, d);
      }
    } else {
      InsertWithDate(m, ms[1..], d);
      assert Insert(m, ms) == [ms[0]] + Insert(m, ms[1..]);
      assert ([ms[0]] + Insert(m, ms[1..]))[1..] == Insert(m, ms[1..]);
    }
  }

  /** The sort is stable: the records of each date keep their order. */
  lemma {:induction false} SortStable(ms: seq<BlogMeta>, d: string)
    ensures WithDate(SortByDateDesc(ms), d) == WithDate(ms, d)
  {
    if ms != [] {
      var init := ms[..|ms| - 1];
      var m := ms[|ms| - 1];
      var sorted := SortByDateDesc(init);
      var own := if m.date == d then [m] else [];
      SortStable(init, d);
      SortSorted(init);
      InsertWithDate(m, sorted, d);
      assert ms == init + [m];
      WithDateAppend(init, [m], d);
      WithDateSingle(m, d);
      calc {
        WithDate(SortByDateDesc(ms), d);
        WithDate(Insert(m, sorted), d);
        WithDate(sorted, d) + own;
        WithDate(init, d) + own;
        WithDate(init, d) + WithDate([m], d);
        WithDate(ms, d);
      }
    }
  }

  lemma WithDateSingle(m: BlogMeta, d: string)
    ensures WithDate([m], d) == if m.date == d then [m] else []
  {
    assert [m][1..] == [];
  }

  /** The first record of `ms` with the date of its head is the head. */
  lemma WithDateHead(ms: seq<BlogMeta>)
    requires ms != []
    ensures WithDate(ms, ms[0].date) == [ms[0]] + WithDate(ms[1..], ms[0].date)
  {
  }

  /** A record of date `d` in `ms` shows in `WithDate(ms, d)`. */
  lemma {:induction false} WithDateContains(ms: seq<BlogMeta>, i: nat)
    requires i < |ms|
    ensures ms[i] in WithDate(ms, ms[i].date)
  {
    if i > 0 {
      WithDateContains(ms[1..], i - 1);
      assert ms[1..][i - 1] == ms[i];
    }
  }

  /** Two lists sorted newest first that hold, date by date, the same
      records in the same order are equal: every stable sort gives the
      same result as `SortByDateDesc`. */
  lemma {:induction false} StableSortUnique(a: seq<BlogMeta>, b: seq<BlogMeta>)
    requires SortedDesc(a) && SortedDesc(b)
    requires forall d :: WithDate(a, d) == WithDate(b, d)
    ensures a == b
    decreases |a|
  {
    if a == [] {
      if b != [] {
        WithDateContains(b, 0);
        assert false;
      }
    } else if b == [] {
      WithDateContains(a, 0);
      assert false;
    } else {
      var da, db := a[0].date, b[0].date;
      WithDateContains(a, 0);
      WithDateContains(b, 0);
      var j := InWithDate(b, da, a[0]);
      var k := InWithDate(a, db, b[0]);
      assert !Less(da, db) by {
        if k > 0 {
          assert NotLater(a[0], a[k]);
        } else {
          LessIrreflexive(da);
        }
      }
      assert !Less(db, da) by {
        if j > 0 {
          assert NotLater(b[0], b[j]);
        } else {
          LessIrreflexive(db);
        }
      }
      LessTotal(da, db);
      WithDateHead(a);
      WithDateHead(b);
      assert a[0] == b[0] by {
        assert WithDate(a, da)[0] == WithDate(b, da)[0];
      }
      forall d ensures WithDate(a[1..], d) == WithDate(b[1..], d) {
        if d != da {
          assert WithDate(a, d) == WithDate(a[1..], d);
          assert WithDate(b, d) == WithDate(b[1..], d);
        } else {
          assert WithDate(a, d)[1..] == WithDate(a[1..], d);
          assert WithDate(b, d)[1..] == WithDate(b[1..], d);
        }
      }
      StableSortUnique(a[1..], b[1..]);
      assert a == [a[0]] + a[1..] && b == [b[0]] + b[1..];
    }
  }

  /** Where a member of `WithDate(ms, d)` stands in `ms`. */
  lemma {:induction false} InWithDate(ms: seq<BlogMeta>, d: string, m: BlogMeta) returns (j: nat)
    requires m in WithDate(ms, d)
    ensures j < |ms| && ms[j] == m && m.date == d
  {
    if ms[0].date == d && m == ms[0] {
      j := 0;
    } else {
      assert m in WithDate(ms[1..], d);
      var k := InWithDate(ms[1..], d, m);
      j := k + 1;
    }
  }

  // ---------------------------------------------------------------------
  // The RSS text (backend/build.rs:246-263).

  const ChannelTitle: string := "stovoy.dev Blog"
  const ChannelLink: string := "https://stovoy.dev"
  const ChannelDescription: string := "Articles from stovoy.dev"

  const RssHead: string := "<rss version=\"2.0\"><channel><title>" + ChannelTitle + "</title><link>"
    + ChannelLink + "</link><description>" + ChannelDescription + "</description>"
  const RssTail: string := "</channel></rss>"
  const ItemOpen: string := "<item><title>"
  const AfterTitle: string := "</title><link>" + ChannelLink + "/blog/"
  const AfterSlug: string := "</link><pubDate>"
  const AfterDate: string := "</pubDate></item>"

  /** One `<item>`: the escaped title, the article's link and its date as
      it is. */
  function Item(m: BlogMeta): string {
    ItemOpen + EscapeXml(m.title) + AfterTitle + m.slug + AfterSlug + m.date + AfterDate
  }

  /** The items, in the order of the records. */
  function Items(ms: seq<BlogMeta>): string {
    if ms == [] then [] else Item(ms[0]) + Items(ms[1..])
  }

  /** The whole feed. */
  function Rss(ms: seq<BlogMeta>): string {
    RssHead + Items(ms) + RssTail
  }

  lemma {:induction false} ItemsAppend(xs: seq<BlogMeta>, ys: seq<BlogMeta>)
    ensures Items(xs + ys) == Items(xs) + Items(ys)
  {
    if xs == [] {
      assert xs + ys == ys;
    } else {
      assert (xs + ys)[1..] == xs[1..] + ys;
      ItemsAppend(xs[1..], ys);
    }
  }

  // ---------------------------------------------------------------------
  // Reading the feed back, as a reference for what it holds.

  /** The text up to the first `<`, when `close` starts there, and what
      follows `close`. */
  function Field(s: string, close: string): (r: Option<(string, string)>)
    requires close != []
    ensures r.Some? ==> |r.value.1| < |s|
  {
    match FindChar(s, 0, '<')
    case None => None
    case Some(k) => if At(s, k, close) then Some((s[..k], s[k + |close|..])) else None
  }

  /** The record of the item at the start of `s`, and the text after it. */
  function ParseItem(s: string): (r: Option<(BlogMeta, string)>)
    ensures r.Some? ==> |r.value.1| < |s|
  {
    if !StartsWith(s, ItemOpen) then None
    else
      match Field(s[|ItemOpen|..], AfterTitle)
      case None => None
      case Some((title, s1)) =>
        match Field(s1, AfterSlug)
        case None => None
        case Some((slug, s2)) =>
          match Field(s2, AfterDate)
          case None => None
          case Some((date, s3)) => Some((BlogMeta(UnescapeXml(title), date, slug), s3))
  }

  /** The records of a run of items. */
  function ParseItems(s: string): Option<seq<BlogMeta>>
    decreases |s|
  {
    if s == [] then Some([])
    else
      match ParseItem(s)
      case None => None
      case Some((m, rest)) =>
        match ParseItems(rest)
        case None => None
        case Some(ms) => Some([m] + ms)
  }

  /** The records of a feed. */
  function ParseRss(s: string): Option<seq<BlogMeta>> {
    if |s| >= |RssHead| + |RssTail| && StartsWith(s, RssHead) && s[|s| - |RssTail|..] == RssTail
    then ParseItems(s[|RssHead|..|s| - |RssTail|])
    else None
  }

  /** A field without `<` is read back. */
  lemma FieldBack(text: string, close: string, rest: string)
    requires close != [] && close[0] == '<' && '<' !in text
    ensures Field(text + close + rest, close) == Some((text, rest))
  {
    var s := text + close + rest;
    assert s[|text|] == '<';
    assert forall k :: 0 <= k < |text| ==> s[k] == text[k];
    FindCharIs(s, 0, '<', |text|);
    assert s[|text|..|text| + |close|] == close;
    assert s[..|text|] == text;
    assert s[|text| + |close|..] == rest;
  }

  /** What the feed can be read back from: slugs and dates are written
      without escaping, so they must not hold `<`. */
  predicate Readable(m: BlogMeta) {
    '<' !in m.slug && '<' !in m.date
  }

  /** An item whose fields hold no `<` is read back field by field. */
  lemma ParseItemFields(t: string, slug: string, date: string, rest: string)
    requires '<' !in t && '<' !in slug && '<' !in date
    ensures ParseItem(ItemOpen + (t + AfterTitle + (slug + AfterSlug + (date + AfterDate + rest))))
      == Some((BlogMeta(UnescapeXml(t), date, slug), rest))
  {
    var s2 := date + AfterDate + rest;
    var s1 := slug + AfterSlug + s2;
    var s0 := t + AfterTitle + s1;
    var s := ItemOpen + s0;
    assert s[|ItemOpen|..] == s0;
    assert s[..|ItemOpen|] == ItemOpen;
    FieldBack(t, AfterTitle, s1);
    FieldBack(slug, AfterSlug, s2);
    FieldBack(date, AfterDate, rest);
  }

  lemma ItemBack(m: BlogMeta, rest: string)
    requires Readable(m)
    ensures ParseItem(Item(m) + rest) == Some((m, rest))
  {
    var t := EscapeXml(m.title);
    assert Item(m) + rest == ItemOpen + (t + AfterTitle + (m.slug + AfterSlug + (m.date + AfterDate + rest)));
    EscapeXmlNoMarkup(m.title);
    ParseItemFields(t, m.slug, m.date, rest);
    EscapeXmlRoundTrip(m.title);
  }

  /** The first item of a list is read back as its first record. */
  lemma ItemsHead(ms: seq<BlogMeta>)
    requires ms != [] && Readable(ms[0])
    ensures Items(ms) != []
    ensures ParseItem(Items(ms)) == Some((ms[0], Items(ms[1..])))
  {
    ItemBack(ms[0], Items(ms[1..]));
    assert Items(ms)[..|ItemOpen|] == ItemOpen;
  }

  /** Reading a run of items that starts with a readable item. */
  lemma ParseItemsCons(s: string, m: BlogMeta, rest: string, ms: seq<BlogMeta>)
    requires s != [] && ParseItem(s) == Some((m, rest)) && ParseItems(rest) == Some(ms)
    ensures ParseItems(s) == Some([m] + ms)
  {
  }

  lemma {:induction false} ItemsBack(ms: seq<BlogMeta>)
    requires forall i :: 0 <= i < |ms| ==> Readable(ms[i])
    ensures ParseItems(Items(ms)) == Some(ms)
  {
    if ms != [] {
      var tail := ms[1..];
      assert [ms[0]] + tail == ms;
      ItemsHead(ms);
      ItemsBack(tail);
      ParseItemsCons(Items(ms), ms[0], Items(tail), tail);
    }
  }

  /** The feed holds exactly the records it was built from, in their
      order, titles included. */
  lemma RssBack(ms: seq<BlogMeta>)
    requires forall i :: 0 <= i < |ms| ==> Readable(ms[i])
    ensures ParseRss(Rss(ms)) == Some(ms)
  {
    var s := Rss(ms);
    ItemsBack(ms);
    assert s[..|RssHead|] == RssHead;
    assert s[|s| - |RssTail|..] == RssTail;
    assert s[|RssHead|..|s| - |RssTail|] == Items(ms);
  }
}
