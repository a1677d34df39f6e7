/** The article loop and the rest of `main` (backend/build.rs:18-139), with
    the filesystem replaced by what each step would report: every entry of
    the content directory comes with the outcome of reading it, of creating
    its output directory and of writing its page.  Markdown rendering
    (`pulldown_cmark`) is the parameter `render`. */
module Pipeline {
  import opened Wrappers
  import opened Strings
  import FrontMatter
  import Mermaid
  import ImgPaths
  import opened Feed

  /** One entry of the content directory.  `Unreadable` is an entry the
      directory listing could not produce.  For a file: its extension and
      stem (`None` when the path has none), its text (`None` when reading
      failed), the date its modification time gives, and whether creating
      its output directory and writing its page succeed. */
  datatype Entry =
    | Unreadable
    | File(extension: Option<string>, stem: Option<string>, content: Option<string>,
           modifiedDate: string, dirCreated: bool, written: bool)

  /** A page written to `blog/<slug>/index.html`. */
  datatype Page = Page(slug: string, html: string)

  /** Whether the entry is a markdown file (backend/build.rs:65). */
  predicate IsMarkdown(e: Entry) {
    e.File? && e.extension == Some("md")
  }

  /** The slug: the file stem, or `untitled` (backend/build.rs:69-72). */
  function Slug(e: Entry): string
    requires e.File?
  {
    if e.stem.Some? then e.stem.value else "untitled"
  }

  /** The page of a markdown text: rendered, then its diagram blocks and
      its image sources rewritten (backend/build.rs:85-90), the latter by
      `transform_img_paths` as it is written. */
  function Html(markdown: string, render: string -> string): string {
    ImgPaths.TransformImgPathsAsWritten(Mermaid.TransformMermaid(render(markdown)))
  }

  /** Whether every step for the entry succeeds, so that it is recorded. */
  predicate Succeeds(e: Entry) {
    IsMarkdown(e) && e.content.Some? && e.dirCreated && e.written
  }

  /** The record of an entry that succeeds (backend/build.rs:106-110). */
  function Meta(e: Entry): BlogMeta
    requires Succeeds(e)
  {
    var td := FrontMatter.TitleDate(e.content.value, e.modifiedDate);
    BlogMeta(td.0, td.1, Slug(e))
  }

  /** The title of an article's record is that of its first heading with a
      non-empty title, or empty when it has none. */
  lemma MetaTitle(e: Entry, i: nat)
    requires Succeeds(e)
    ensures var ls := FrontMatter.Lines(e.content.value);
      && ((forall k :: 0 <= k < |ls| ==> !FrontMatter.IsTitleLine(ls[k])) ==> Meta(e).title == [])
      && ((i < |ls| && FrontMatter.IsTitleLine(ls[i]) && (forall j :: 0 <= j < i ==> !FrontMatter.IsTitleLine(ls[j])))
          ==> Meta(e).title == FrontMatter.HeadingTitle(ls[i]))
  {
    var md := e.content.value;
    var ls := FrontMatter.Lines(md);
    assert Meta(e).title == FrontMatter.TitleDate(md, e.modifiedDate).0;
    if forall k :: 0 <= k < |ls| ==> !FrontMatter.IsTitleLine(ls[k]) {
      FrontMatter.EmptyTitleWithoutTitleLine(md, e.modifiedDate);
    }
    if i < |ls| && FrontMatter.IsTitleLine(ls[i]) && (forall j :: 0 <= j < i ==> !FrontMatter.IsTitleLine(ls[j])) {
      FrontMatter.TitleOfFirstTitleLine(md, e.modifiedDate, i);
    }
  }

  /** The date of an article's record is the trimmed text after `date:` on
      its first date line, or the file's modification date when it has
      none; its slug is the file stem, or `untitled`. */
  lemma MetaDate(e: Entry, i: nat)
    requires Succeeds(e)
    ensures var ls := FrontMatter.Lines(e.content.value);
      && ((forall k :: 0 <= k < |ls| ==> !FrontMatter.IsDateLine(ls[k])) ==> Meta(e).date == e.modifiedDate)
      && ((i < |ls| && FrontMatter.IsDateLine(ls[i]) && (forall j :: 0 <= j < i ==> !FrontMatter.IsDateLine(ls[j])))
          ==> Meta(e).date == Trim(ls[i][5..]))
      && Meta(e).slug == if e.stem.Some? then e.stem.value else "untitled"
  {
    var md := e.content.value;
    var ls := FrontMatter.Lines(md);
    assert Meta(e).date == FrontMatter.TitleDate(md, e.modifiedDate).1;
    if forall k :: 0 <= k < |ls| ==> !FrontMatter.IsDateLine(ls[k]) {
      FrontMatter.FallbackWithoutDateLine(md, e.modifiedDate);
    }
    if i < |ls| && FrontMatter.IsDateLine(ls[i]) && (forall j :: 0 <= j < i ==> !FrontMatter.IsDateLine(ls[j])) {
      FrontMatter.DateOfFirstDateLine(md, e.modifiedDate, i);
    }
  }

  /** The records of the entries, in the order the loop meets them. */
  function Metas(es: seq<Entry>): seq<BlogMeta> {
    if es == [] then []
    else (if Succeeds(es[0]) then [Meta(es[0])] else []) + Metas(es[1..])
  }

  /** The pages written: one per entry that succeeds. */
  function Pages(es: seq<Entry>, render: string -> string): seq<Page> {
    if es == [] then []
    else
      (if Succeeds(es[0]) then [Page(Slug(es[0]), Html(es[0].content.value, render))] else [])
        + Pages(es[1..], render)
  }

  lemma {:induction false} MetasAppend(xs: seq<Entry>, ys: seq<Entry>)
    ensures Metas(xs + ys) == Metas(xs) + Metas(ys)
  {
    if xs == [] {
      assert xs + ys == ys;
    } else {
      var zs := xs + ys;
      assert zs[0] == xs[0];
      assert zs[1..] == xs[1..] + ys;
      var h := if Succeeds(xs[0]) then [Meta(xs[0])] else [];
      assert Metas(zs) == h + Metas(xs[1..] + ys);
      MetasAppend(xs[1..], ys);
      assert Metas(xs) == h + Metas(xs[1..]);
    }
  }

  lemma {:induction false} PagesAppend(xs: seq<Entry>, ys: seq<Entry>, render: string -> string)
    ensures Pages(xs + ys, render) == Pages(xs, render) + Pages(ys, render)
  {
    if xs == [] {
      assert xs + ys == ys;
    } else {
      var zs := xs + ys;
      assert zs[0] == xs[0];
      assert zs[1..] == xs[1..] + ys;
      var h := if Succeeds(xs[0]) then [Page(Slug(xs[0]), Html(xs[0].content.value, render))] else [];
      assert Pages(zs, render) == h + Pages(xs[1..] + ys, render);
      PagesAppend(xs[1..], ys, render);
      assert Pages(xs, render) == h + Pages(xs[1..], render);
    }
  }

  /** A single entry is recorded exactly when it succeeds. */
  lemma MetasSingle(e: Entry, render: string -> string)
    ensures Metas([e]) == if Succeeds(e) then [Meta(e)] else []
    ensures Pages([e], render) == if Succeeds(e) then [Page(Slug(e), Html(e.content.value, render))] else []
  {
    assert [e][1..] == [];
  }

  /** A failing entry is skipped and does not affect the entries after
      it: the loop `continue`s (backend/build.rs:57-105). */
  lemma FaultIsolation(xs: seq<Entry>, e: Entry, ys: seq<Entry>, render: string -> string)
    requires !Succeeds(e)
    ensures Metas(xs + [e] + ys) == Metas(xs) + Metas(ys)
    ensures Pages(xs + [e] + ys, render) == Pages(xs, render) + Pages(ys, render)
  {
    MetasAppend(xs + [e], ys);
    MetasAppend(xs, [e]);
    PagesAppend(xs + [e], ys, render);
    PagesAppend(xs, [e], render);
    MetasSingle(e, render);
  }

  /** An entry that succeeds is recorded in its place, whatever the
      entries around it do. */
  lemma SuccessKept(xs: seq<Entry>, e: Entry, ys: seq<Entry>, render: string -> string)
    requires Succeeds(e)
    ensures Metas(xs + [e] + ys) == Metas(xs) + [Meta(e)] + Metas(ys)
    ensures Pages(xs + [e] + ys, render)
      == Pages(xs, render) + [Page(Slug(e), Html(e.content.value, render))] + Pages(ys, render)
  {
    MetasAppend(xs + [e], ys);
    MetasAppend(xs, [e]);
    PagesAppend(xs + [e], ys, render);
    PagesAppend(xs, [e], render);
    MetasSingle(e, render);
  }

  /** The loop of backend/build.rs:56-111: each entry that fails a step is
      skipped and the loop goes on with the next one. */
  method CollectArticles(entries: seq<Entry>, render: string -> string)
    returns (metas: seq<BlogMeta>, pages: seq<Page>)
    ensures metas == Metas(entries) && pages == Pages(entries, render)
  {
    metas := [];
    pages := [];
    var i := 0;
    while i < |entries|
      invariant 0 <= i <= |entries|
      invariant metas == Metas(entries[..i]) && pages == Pages(entries[..i], render)
    {
      var e := entries[i];
      assert entries[..i + 1] == entries[..i] + [e];
      MetasAppend(entries[..i], [e]);
      PagesAppend(entries[..i], [e], render);
      MetasSingle(e, render);
      i := i + 1;
      if !IsMarkdown(e) {
        continue;
      }
      var slug := Slug(e);
      if e.content.None? {
        continue;
      }
      var markdown := e.content.value;
      var title, date := FrontMatter.ExtractTitleDate(markdown, e.modifiedDate);
      var html := Html(markdown, render);
      if !e.dirCreated {
        continue;
      }
      if !e.written {
        continue;
      }
      pages := pages + [Page(slug, html)];
      metas := metas + [BlogMeta(title, date, slug)];
    }
    assert entries[..i] == entries;
  }

  /** What a run leaves behind: the pages, the article index (written as
      JSON to `dist/blog/blogs.json` and to `dist/blogs.json`, two copies
      of one value) and the feed text. */
  datatype Output = Output(pages: seq<Page>, index: seq<BlogMeta>, rss: string)

  /** The outcome of a run.  `skip` is `SKIP_BLOG_BUILD` being set,
      `ready` is the content directory existing and the output directories
      and the write probe succeeding, and `entries` is `None` when the
      content directory cannot be listed: in each of those cases nothing is
      built (backend/build.rs:19-54). */
  function Built(skip: bool, ready: bool, entries: Option<seq<Entry>>, render: string -> string): Option<Output> {
    if skip || !ready || entries.None? then None
    else
      var index := SortByDateDesc(Metas(entries.value));
      Some(Output(Pages(entries.value, render), index, Rss(index)))
  }

  /** `main` from the checks at its start to the feed. */
  method Build(skip: bool, ready: bool, entries: Option<seq<Entry>>, render: string -> string)
    returns (out: Option<Output>)
    ensures out == Built(skip, ready, entries, render)
  {
    if skip || !ready {
      return None;
    }
    if entries.None? {
      return None;
    }
    var metas, pages := CollectArticles(entries.value, render);
    metas := SortByDateDesc(metas);
    out := Some(Output(pages, metas, Rss(metas)));
  }

  /** The index of a run holds exactly the records of the entries that
      succeed, newest first, those with equal dates in the order the loop
      met them; and the feed lists the same records in the same order. */
  lemma BuiltIndex(entries: seq<Entry>, render: string -> string)
    ensures var out := Built(false, true, Some(entries), render).value;
      && multiset(out.index) == multiset(Metas(entries))
      && SortedDesc(out.index)
      && (forall d :: WithDate(out.index, d) == WithDate(Metas(entries), d))
      && out.rss == Rss(out.index)
  {
    var ms := Metas(entries);
    SortPermutes(ms);
    SortSorted(ms);
    forall d ensures WithDate(SortByDateDesc(ms), d) == WithDate(ms, d) {
      SortStable(ms, d);
    }
  }

  /** Reading the feed of a run back gives its index, when no slug or date
      holds a `<`. */
  lemma BuiltFeed(entries: seq<Entry>, render: string -> string)
    requires forall i :: 0 <= i < |Metas(entries)| ==> Readable(Metas(entries)[i])
    ensures var out := Built(false, true, Some(entries), render).value;
      ParseRss(out.rss) == Some(out.index)
  {
    var ms := Metas(entries);
    var index := SortByDateDesc(ms);
    SortPermutes(ms);
    forall i | 0 <= i < |index| ensures Readable(index[i]) {
      assert index[i] in multiset(ms);
      var k :| 0 <= k < |ms| && ms[k] == index[i];
    }
    RssBack(index);
  }
}
