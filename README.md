# stovoy.dev blog build, modelled in Dafny

This project models the Rust build script `backend/build.rs` of the stovoy.dev
site. The script turns the markdown articles in `content/` into HTML pages, an
article index (`blogs.json`) and an RSS feed. The model covers:

- the two HTML post-processing passes:
  - `transform_mermaid` turns rendered `dolphin`/`mermaid` code blocks into bare
    `<pre class="mermaid">` diagram blocks and decodes their HTML entities;
  - `transform_img_paths` prefixes relative image sources with `/img/`;
- `extract_title_date`, which reads an article's title and date from its
  lines, with the file-modification date as a fallback;
- the stable newest-first sort of the index;
- the text of the RSS feed and its `escape_xml`;
- the article loop of `main`. An entry that fails any step is skipped, and
  the run goes on with the next entry.

Modules, one per concern:

- `Strings`: the parts of Rust's `str` API the script uses: `replace`,
  `starts_with`, `trim`, `trim_start_matches`, `to_ascii_lowercase`. Also the
  lemmas that reduce a chain of `replace` calls to a per-character expansion.
  `Find` and `FindChar` are the searches the regex scanners and
  `splitn(2, ':')` (modelled by `FrontMatter.DateValue`) rest on.
- `XmlEscape`: `escape_xml`.
- `Mermaid`: `transform_mermaid`. The regex is modelled as a scanner with the
  regex engine's leftmost-first semantics and its lazy body.
- `ImgPaths`: `transform_img_paths`. The regex is modelled as a scanner with
  the same semantics, including how the greedy `[^>]*` backtracks to the last
  `src="` before the first `>`. There are two versions: the code as written,
  and the rewrite the code evidently intends (see Findings). The pages of
  the article loop are built with the code as written.
- `FrontMatter`: Rust's `str::lines` and `extract_title_date`. The loop is
  kept as a method, with its early `break`.
- `Feed`: `BlogMeta`, the sort on `date`, and the feed text. The feed has a
  reader, used to state what the feed holds.
- `Pipeline`: the article loop and `main` from its first check to the feed.
  The filesystem is replaced by the outcome each step would report.

## Model

| member | source | states |
|---|---|---|
| Strings.TrimStartMatches | backend/build.rs:226 | `trim_start_matches('#')` leaves a suffix of the line that does not start with `#` |
| Strings.TrimStartMatchesRemoves | backend/build.rs:226 | what it removes is `#` characters only |
| Strings.TrimStart | backend/build.rs:226 | `trim` leaves a suffix that does not start with whitespace |
| Strings.TrimStartRemoves | backend/build.rs:226 | what it removes at the start is whitespace only |
| Strings.TrimEnd | backend/build.rs:226 | `trim` leaves a prefix that does not end with whitespace |
| Strings.TrimEndRemoves | backend/build.rs:226 | what it removes at the end is whitespace only |
| Strings.AsciiLowerAt | backend/build.rs:228 | `to_ascii_lowercase` lowers each character on its own |
| Strings.ReplaceOnce | backend/build.rs:151 | `replace` on a text with one occurrence of the pattern splices the replacement in at that occurrence |
| Strings.ReplaceNoMatch | backend/build.rs:199-204 | `replace` leaves a text without the pattern unchanged |
| XmlEscape.EscapeChar | backend/build.rs:274-281 | a special character becomes an entity that starts with `&` and ends with `;`; any other character is kept |
| XmlEscape.EscapeXmlPerChar | backend/build.rs:274-281 | the five whole-text replacements, `&` first, equal escaping each character on its own: no entity is escaped twice |
| XmlEscape.EscapeXmlNoMarkup | backend/build.rs:274-281 | the escaped title holds no `<`, `>`, `"` or `'` |
| XmlEscape.EscapeXmlPlain | backend/build.rs:274-281 | a title without special characters is left unchanged |
| XmlEscape.UnescapeEscapedChar | backend/build.rs:274-281 | an XML entity decoder reads each escaped character back as that character |
| XmlEscape.EscapeXmlRoundTrip | backend/build.rs:274-281 | escaping loses nothing: decoding the escaped title gives the title back |
| Mermaid.MatchAt | backend/build.rs:196 | the pattern matches at `i` exactly when a `dolphin` or `mermaid` opening tag starts there and some `</code></pre>` follows it; the body starts after the tag and ends at a `</code></pre>` |
| Mermaid.MatchAtLazy | backend/build.rs:196 | the lazy body holds no `</code></pre>`: it ends at the first one after the tag |
| Mermaid.FindBlock | backend/build.rs:196-197 | the block found starts at or after the scan position and is the match there |
| Mermaid.FindBlockFirst | backend/build.rs:196-197 | no match starts before the block found, and none at all when nothing is found |
| Mermaid.FindBlockIs | backend/build.rs:196-197 | a match with no match before it is the block found |
| Mermaid.TransformMermaidNoBlock | backend/build.rs:195-208 | a document without a diagram block is returned unchanged |
| Mermaid.FirstBlock | backend/build.rs:196-197 | an opening tag with no earlier one, and with a closer after it, is the first match, and its body runs to the first closer |
| Mermaid.TransformMermaidBlock | backend/build.rs:195-208 | the text before the first block is copied; the block becomes `<pre class="mermaid">`, then the decoded body, then `</pre>`, without the `<code>` wrapper; the rest of the document is transformed the same way |
| Mermaid.TransformMermaidSingle | backend/build.rs:195-208 | a document that is one diagram block, with every `<` of its body escaped, becomes the bare diagram block with the body decoded |
| Mermaid.TransformMermaidArrow | backend/build.rs:195-208 | a rendered `A --&gt; B` mermaid block becomes a bare diagram block holding `A --> B` |
| Mermaid.DecodePlain | backend/build.rs:199-204 | a body without `&` is not changed by decoding |
| Mermaid.EntityChunk | backend/build.rs:199-204 | a single decoding pass changes only its own entity and cannot match across two characters' escapes |
| Mermaid.EntityReplace | backend/build.rs:199-204 | a decoding pass replaces an entity that is its pattern and keeps any other entity |
| Mermaid.CharPasses | backend/build.rs:199-204 | the five passes, in their order, take the escape of one character other than `&` back to that character, one entity at a time |
| Mermaid.DecodeUndoesEscape | backend/build.rs:199-204 | decoding undoes the renderer's entity escape of any body that holds no `&` of its own |
| Mermaid.DecodeDecodesTwice | backend/build.rs:199-204 | a literal `&lt;` in the code, escaped to `&amp;lt;`, is decoded twice, to `<`, because `&amp;` is decoded first |
| Mermaid.DecodeGt | backend/build.rs:199-204 | an escaped `>` between plain texts is decoded and the texts are kept |
| ImgPaths.TryValue | backend/build.rs:145 | a match found through the `src="` at `q` starts at the `<img`, its capture starts right after that `src="`, and its parts are ordered inside the text with a non-empty capture |
| ImgPaths.TryValueTag | backend/build.rs:145 | such a match is a well-formed tag: `<img`, no `>` before `src="`, a non-empty value without `"` up to the next `"`, and the first `>` after it |
| ImgPaths.TryValueAt | backend/build.rs:145 | given the closing `"` and the `>` after it, the match through `q` is exactly the tag with that value and that end |
| ImgPaths.Candidates | backend/build.rs:145 | the match found while backtracking over `src="` candidates starts at the `<img` and has its parts in order inside the text |
| ImgPaths.CandidatesTag | backend/build.rs:145 | the match found while backtracking is a well-formed tag |
| ImgPaths.FirstGt | backend/build.rs:145 | the position found lies at or after the start and holds a `>` unless it is the end of the text |
| ImgPaths.FirstGtBetween | backend/build.rs:145 | the first `>` lies after a stretch known to hold none and not after a known `>` |
| ImgPaths.MatchAt | backend/build.rs:145 | a match found at `p` starts at `p` with its parts in order inside the text |
| ImgPaths.MatchAtIsTag | backend/build.rs:145 | a match found at `p` is a well-formed tag |
| ImgPaths.FindTag | backend/build.rs:145-146 | the tag found starts at or after the scan position and is the match there |
| ImgPaths.FindTagFirst | backend/build.rs:145-146 | no match starts before the tag found, and none at all when nothing is found |
| ImgPaths.FindTagIs | backend/build.rs:145-146 | a match with no match before it is the tag found |
| ImgPaths.FoundIsTag | backend/build.rs:145-146 | the tag each rewrite works on is a well-formed match of the pattern |
| ImgPaths.CandidatesSkip | backend/build.rs:145 | the positions between `src="` candidates do not change which match is found |
| ImgPaths.MatchAtTag | backend/build.rs:145 | the match at `p` uses the last `src="` before the first `>`; its value runs to the next `"` and the tag ends at the next `>` |
| ImgPaths.FirstTag | backend/build.rs:145-146 | a match with no `<img` before it is the first match |
| ImgPaths.TagMatch | backend/build.rs:145 | an occurrence of `ImgTag(a, value, b)` whose attributes hold no `>`, with no `src="` after the attribute's, is matched with capture `value` and ends at its own `>` |
| ImgPaths.PlainTagFound | backend/build.rs:145-146 | in a document whose first `<img` starts the tag `ImgTag(a, value, b)`, where `a` and `b` hold no `>`, `value` is non-empty and holds no `"`, and no `src="` follows the attribute inside the tag, that tag is the first match and its capture is `value` |
| ImgPaths.TransformImgPathsNoTag | backend/build.rs:144-155 | a document without `<img` is returned unchanged by both versions |
| ImgPaths.RewritePlain | backend/build.rs:147-152 | the intended rewrite keeps an `http…` or `/…` source and prefixes any other source with `/img/`, changing nothing else in the tag |
| ImgPaths.TransformImgPathsTag | backend/build.rs:144-155 | on a document whose first tag is `ImgTag(a, value, b)`, the intended version copies the text before it, keeps an external source, prefixes a relative one with `/img/`, and transforms the rest |
| ImgPaths.TransformImgPathsAsWrittenTag | backend/build.rs:146-151 | on the same documents, the code as written replaces the tag by the tag with every occurrence of the value prefixed, unless the value is external |
| ImgPaths.RewriteAgrees | backend/build.rs:151 | when the value occurs in the tag only as the `src` value, the code as written and the intended rewrite agree |
| ImgPaths.AsWrittenRewritesTagName | backend/build.rs:151 | the code as written also rewrites the `g` of `<img`: `<img src="g">` becomes `<im/img/g src="/img/g">` |
| ImgPaths.AsWrittenDiffers | backend/build.rs:151 | when the as-written tag rewrite differs from the intended one at a position, the two whole-document results differ |
| ImgPaths.AsWrittenPrefixesTagName | backend/build.rs:151 | for any attributes `a` and `b`, the code as written rewrites the tag `ImgTag(a, "g", b)` to a text starting `<im/img/g`, where the intended rewrite keeps `<img` |
| ImgPaths.AsWrittenDiffersOnG | backend/build.rs:151 | every document whose first image tag is `ImgTag(a, "g", b)`, with the conditions of `PlainTagFound` and any attributes, is transformed differently by the code as written than by the intended rewrite |
| FrontMatter.StripCr | backend/build.rs:224 | a final `\r` is dropped, and nothing else |
| FrontMatter.LinesHaveNoNewline | backend/build.rs:224 | no line holds a `\n` |
| FrontMatter.LinesCons | backend/build.rs:224 | the text up to the first `\n` is the first line, without a final `\r`, and the rest gives the other lines |
| FrontMatter.LinesUnlines | backend/build.rs:224 | splitting lines written back with `\n` gives the same lines |
| FrontMatter.UnlinesLines | backend/build.rs:224 | writing back the lines of a text without `\r` gives the text, with a final `\n` added if it had none |
| FrontMatter.FirstTitleEmpty | backend/build.rs:225-226 | the title is empty exactly when no line is a heading with a non-empty title |
| FrontMatter.FirstTitleAt | backend/build.rs:225-226 | the title is the heading text of the first title line, without its leading `#`s and trimmed |
| FrontMatter.DateValue | backend/build.rs:229 | the date is the text after `date:`, trimmed |
| FrontMatter.DateLineColon | backend/build.rs:229 | the first `:` of a date line is the one of `date:` |
| FrontMatter.DateLineCase | backend/build.rs:228 | a line is a date line exactly when its first five characters spell `date:` in any ASCII case |
| FrontMatter.FirstDateNone | backend/build.rs:228-230 | there is no date exactly when no line is a date line |
| FrontMatter.FirstDateAt | backend/build.rs:228-230 | the date is the value of the first date line |
| FrontMatter.FirstTitleAppend | backend/build.rs:225-234 | once a title is found, the lines after it do not change it |
| FrontMatter.FirstDateAppend | backend/build.rs:228-234 | once a date is found, the lines after it do not change it |
| FrontMatter.TitleStep | backend/build.rs:225-226 | one more line sets the title only when none is set yet |
| FrontMatter.DateStep | backend/build.rs:228-231 | one more line sets the date only when none is set yet |
| FrontMatter.ExtractTitleDate | backend/build.rs:221-243 | the loop, with its early exit, computes the title of the first title line and the date of the first date line, or the fallback date |
| FrontMatter.FallbackWithoutDateLine | backend/build.rs:236-241 | without a date line the fallback date is used |
| FrontMatter.DateOfFirstDateLine | backend/build.rs:228-236 | with a date line, the date is that of the first one |
| FrontMatter.EmptyTitleWithoutTitleLine | backend/build.rs:222-226 | without a title line the title is empty |
| FrontMatter.TitleOfFirstTitleLine | backend/build.rs:225-226 | with a title line, the title is that of the first one |
| Feed.LessIrreflexive | backend/build.rs:113 | no date sorts before itself |
| Feed.LessAsymmetric | backend/build.rs:113 | two dates never sort before each other |
| Feed.LessTransitive | backend/build.rs:113 | the order on dates is transitive |
| Feed.LessTotal | backend/build.rs:113 | any two different dates are ordered |
| Feed.InsertPermutes | backend/build.rs:113 | placing a record adds it and nothing else |
| Feed.SortPermutes | backend/build.rs:113 | the sorted index holds exactly the collected records |
| Feed.InsertSorted | backend/build.rs:113 | placing a record keeps a list newest first |
| Feed.ConsSorted | backend/build.rs:113 | a record not later than any record of a newest-first list can go in front of it |
| Feed.SortSorted | backend/build.rs:113 | the index is sorted newest first |
| Feed.WithDate | backend/build.rs:113 | the records picked for a date all have that date |
| Feed.WithDateAppend | backend/build.rs:113 | picking the records of a date distributes over concatenation |
| Feed.NoneLater | backend/build.rs:113 | a newest-first list holds no record later than its first |
| Feed.WithDateNone | backend/build.rs:113 | a list without a date has no records of that date |
| Feed.InsertWithDate | backend/build.rs:113 | a placed record comes after the records of its own date |
| Feed.SortStable | backend/build.rs:113 | the sort is stable: records with equal dates keep the order in which they were collected |
| Feed.WithDateContains | backend/build.rs:113 | every record is picked for its own date |
| Feed.InWithDate | backend/build.rs:113 | every record picked for a date stands in the list with that date |
| Feed.StableSortUnique | backend/build.rs:113 | any two stable newest-first orderings of the same records are equal, so the result does not depend on the sorting algorithm |
| Feed.ItemsAppend | backend/build.rs:250-258 | the items of two lists of records are the items of each, in order |
| Feed.Field | backend/build.rs:254 | reading a field consumes part of the text |
| Feed.ParseItem | backend/build.rs:254 | reading an item consumes part of the text |
| Feed.FieldBack | backend/build.rs:254 | a field without `<` is read back |
| Feed.ParseItemFields | backend/build.rs:252-256 | an item whose fields hold no `<` is read back field by field |
| Feed.ItemBack | backend/build.rs:252-256 | an item is read back as its record: the escaped title is decoded, and the link gives the slug |
| Feed.ItemsHead | backend/build.rs:250-258 | the first item of the feed is read back as the first record, followed by the other items |
| Feed.ItemsBack | backend/build.rs:250-258 | the items are read back as the records, in order |
| Feed.RssBack | backend/build.rs:245-263 | the feed holds exactly the records it was built from, in their order, when no slug or date holds a `<` |
| Pipeline.MetaTitle | backend/build.rs:83-110 | an article's recorded title is the text of its first heading line with a non-empty title, and empty when it has no such line |
| Pipeline.MetaDate | backend/build.rs:69-110 | an article's recorded date is the trimmed text after `date:` on its first date line, and its modification date when it has none; its slug is the file stem, or `untitled` |
| Pipeline.MetasAppend | backend/build.rs:56-111 | the records of two runs of entries are the records of each, in order |
| Pipeline.PagesAppend | backend/build.rs:56-111 | the same holds for the pages |
| Pipeline.FaultIsolation | backend/build.rs:57-105 | an entry that fails a step is skipped and does not affect the entries around it |
| Pipeline.SuccessKept | backend/build.rs:106-110 | an entry that succeeds is recorded in its place, whatever the other entries do |
| Pipeline.CollectArticles | backend/build.rs:56-111 | the loop collects one record and one page per successful entry, in the order of the listing |
| Pipeline.Build | backend/build.rs:18-139 | a run builds nothing when skipped, when the directories are not ready, or when the content directory cannot be listed; otherwise it collects the articles, sorts the index and writes the feed from it |
| Pipeline.BuiltIndex | backend/build.rs:113-139 | the index of a run holds exactly the records of the successful entries, newest first, equal dates in listing order; the feed is built from that index |
| Pipeline.BuiltFeed | backend/build.rs:139 | reading the feed of a run back gives its index, when no slug or date holds a `<` |

## Left out

- Filesystem and environment. `SKIP_BLOG_BUILD` is the `skip` parameter.
  `locate_workspace_root`, the `content/` check, the creation of `dist/` and
  `dist/blog/`, and the write probe together become the `ready` parameter.
  A failing `read_dir` becomes `entries == None`. Each entry carries the
  outcomes of reading it, creating its directory and writing its page.
- `copy_static_images` and `copy_dir_recursively`: they only copy files,
  and their failures only print warnings.
- Markdown rendering by `pulldown_cmark`: the parameter `render`. Its
  escaping of code text is not modelled. `Mermaid.EntityOf` escapes the
  five characters that `Decode` decodes, and the renderer's escaping is
  taken to be this one or a subset of it.
- The modification-time date: `chrono`, `fs::metadata` and
  `SystemTime::now()` become the per-entry `modifiedDate`. The panic of
  `fs::metadata(path).unwrap()` is not modelled.
- Pipeline.Build: `serde_json` is not modelled. The index is the sorted list
  of records itself, and its two JSON copies are one value. The code returns
  before writing the feed when serialisation fails; serialising this struct
  of strings does not fail, so that path is not modelled.
- Pipeline.Build: failures to write `blogs.json` and `rss.xml` only print
  warnings, so the outputs are modelled as values. A page left partly
  written by a failed write is not modelled.
- The `cargo:warning` messages are not modelled.
- Feed.SortByDateDesc: Rust's `sort_by` is a stable merge sort that works
  in place on the `Vec`. It is modelled as a functional insertion sort.
  `Feed.StableSortUnique` shows that every stable newest-first sort gives
  the same result.
- Paths, stems and texts are sequences of Unicode scalar values. Rust
  compares `String`s byte-wise in UTF-8, which is the same order as code
  points. `to_string_lossy` is taken to return the stem unchanged.
- Feed.RssBack: slugs and dates are written into the feed unescaped, so the
  feed reads back only when they hold no `<`.
- The regexes are modelled as hand-written scanners with the regex engine's
  leftmost-first semantics, not as a general regex engine.

## Findings

| source | as written | input that shows it | evidently intended | confidence | as-written member | corrected member |
|---|---|---|---|---|---|---|
| backend/build.rs:151 | `caps[0].replace(src, …)` prefixes every occurrence of the source value inside the matched tag, not just the attribute value | `<img src="g">` becomes `<im/img/g src="/img/g">`; an `alt` equal to the source is rewritten too | only the `src` attribute value gets the `/img/` prefix | not executed | ImgPaths.AsWrittenDiffersOnG | ImgPaths.TransformImgPathsTag |
