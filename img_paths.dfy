/** `transform_img_paths` (backend/build.rs:144-155): relative image sources
    in the rendered HTML are prefixed with `/img/`.

    The pattern `<img[^>]*src="([^"]+)"[^>]*>` is modelled by a scanner with
    the regex engine's leftmost-first semantics.  A match starts at the
    leftmost `<img` for which the pattern succeeds.  The first `[^>]*` is
    greedy and cannot cross a `>`, so the `src="` used is the LAST one before
    the first `>` after `<img` for which the rest succeeds; the captured
    value runs to the next `"` and must not be empty (it may contain `>`);
    the tag ends at the first `>` after the closing quote.  Scanning resumes
    where the match ended. */
module ImgPaths {
  import opened Wrappers
  import opened Strings

  const ImgOpen: string := "<img"
  const SrcEq: string := "src=\""
  const ImgDir: string := "/img/"

  /** A match: the tag is `s[start..end]`, the captured value is
      `s[valueStart..valueEnd]`. */
  datatype Tag = Tag(start: nat, valueStart: nat, valueEnd: nat, end: nat)

  /** `t` is a match of the pattern in `s`, read piece by piece. */
  predicate IsTag(s: string, t: Tag) {
    && At(s, t.start, ImgOpen)
    && t.start + |ImgOpen| + |SrcEq| <= t.valueStart < t.valueEnd < t.end <= |s|
    && (forall k :: t.start + |ImgOpen| <= k < t.valueStart - |SrcEq| ==> s[k] != '>')
    && At(s, t.valueStart - |SrcEq|, SrcEq)
    && (forall k :: t.valueStart <= k < t.valueEnd ==> s[k] != '"')
    && s[t.valueEnd] == '"'
    && (forall k :: t.valueEnd < k < t.end - 1 ==> s[k] != '>')
    && s[t.end - 1] == '>'
  }

  /** The positions of `t` are ordered and lie in `s`, the value is not
      empty: what the rewrite needs to cut the tag up. */
  predicate InBounds(s: string, t: Tag) {
    t.start <= t.valueStart < t.valueEnd < t.end <= |s|
  }

  /** The match starting at `p` that uses the `src="` at `q`, if the rest
      of the pattern succeeds from there. */
  function TryValue(s: string, p: nat, q: nat): (r: Option<Tag>)
    requires p + |ImgOpen| <= q
    ensures r.Some? ==> InBounds(s, r.value) && r.value.start == p && r.value.valueStart == q + |SrcEq|
  {
    var v := q + |SrcEq|;
    match FindChar(s, v, '"')
    case None => None
    case Some(e) =>
      if e == v then None
      else
        match FindChar(s, e + 1, '>')
        case None => None
        case Some(f) => Some(Tag(p, v, e, f + 1))
  }

  /** The `src="` candidates from `q` down to just after `<img`, tried in
      the order the greedy `[^>]*` prefers. */
  function Candidates(s: string, p: nat, q: nat): (r: Option<Tag>)
    requires p + |ImgOpen| <= q
    ensures r.Some? ==> InBounds(s, r.value) && r.value.start == p && r.value.valueStart <= q + |SrcEq|
    decreases q
  {
    var here := if At(s, q, SrcEq) then TryValue(s, p, q) else None;
    if here.Some? then here
    else if q == p + |ImgOpen| then None
    else Candidates(s, p, q - 1)
  }

  /** The first `>` at or after `from`, or the end of the text. */
  function FirstGt(s: string, from: nat): (g: nat)
    requires from <= |s|
    ensures from <= g <= |s| && (g < |s| ==> s[g] == '>')
  {
    match FindChar(s, from, '>')
    case Some(k) => k
    case None => |s|
  }

  /** The match of the pattern that starts at `p`, if any. */
  function MatchAt(s: string, p: nat): (r: Option<Tag>)
    ensures r.Some? ==> InBounds(s, r.value) && r.value.start == p
  {
    if !At(s, p, ImgOpen) then None
    else Candidates(s, p, FirstGt(s, p + |ImgOpen|))
  }

  /** The leftmost match starting at or after `from`.  The same scan as
      `Mermaid.FindBlock`, written again over this pattern's matches. */
  function FindTag(s: string, from: nat): (r: Option<Tag>)
    ensures r.Some? ==> from <= r.value.start && MatchAt(s, r.value.start) == r
    decreases |s| - from
  {
    if from >= |s| then None
    else if MatchAt(s, from).Some? then MatchAt(s, from)
    else FindTag(s, from + 1)
  }

  /** The test of backend/build.rs:148: a source that starts with `http` or
      `/` is left alone. */
  predicate IsExternal(value: string) {
    StartsWith(value, "http") || StartsWith(value, "/")
  }

  /** The replacement for one tag as backend/build.rs:147-152 writes it:
      every occurrence of the value inside the tag is replaced. */
  function RewriteTagAsWritten(tag: string, value: string): string
    requires value != []
  {
    if IsExternal(value) then tag else Replace(tag, value, ImgDir + value)
  }

  /** `transform_img_paths` as written. */
  function TransformImgPathsAsWritten(s: string): string
    decreases |s|
  {
    match FindTag(s, 0)
    case None => s
    case Some(t) =>
      s[..t.start] + RewriteTagAsWritten(s[t.start..t.end], s[t.valueStart..t.valueEnd])
        + TransformImgPathsAsWritten(s[t.end..])
  }

  /** The replacement for one tag as intended: only the captured value, in
      its `src` attribute, is prefixed. */
  function RewriteTag(s: string, t: Tag): string
    requires InBounds(s, t)
  {
    var value := s[t.valueStart..t.valueEnd];
    if IsExternal(value) then s[t.start..t.end]
    else s[t.start..t.valueStart] + ImgDir + value + s[t.valueEnd..t.end]
  }

  /** `transform_img_paths` with the intended one-place rewrite. */
  function TransformImgPaths(s: string): string
    decreases |s|
  {
    match FindTag(s, 0)
    case None => s
    case Some(t) => s[..t.start] + RewriteTag(s, t) + TransformImgPaths(s[t.end..])
  }

  /** A match found through the `src="` at `q` is a match of the pattern:
      the value runs to the next `"` and is not empty, and the tag ends at
      the first `>` after it. */
  lemma TryValueTag(s: string, p: nat, q: nat)
    requires At(s, p, ImgOpen) && p + |ImgOpen| <= q && At(s, q, SrcEq)
    requires forall k :: p + |ImgOpen| <= k < q ==> s[k] != '>'
    ensures TryValue(s, p, q).Some? ==> IsTag(s, TryValue(s, p, q).value)
  {
    var v := q + |SrcEq|;
    var fe := FindChar(s, v, '"');
    if fe.Some? && fe.value != v {
      var e := fe.value;
      var ff := FindChar(s, e + 1, '>');
      if ff.Some? {
        var f := ff.value;
        assert TryValue(s, p, q) == Some(Tag(p, v, e, f + 1));
        FindCharFirst(s, v, '"');
        FindCharFirst(s, e + 1, '>');
        assert forall k :: v <= k < e ==> s[k] != '"';
        assert forall k :: e < k < f ==> s[k] != '>';
      }
    }
  }

  /** Every match found while backtracking over the `src="` candidates is a
      match of the pattern. */
  lemma {:induction false} CandidatesTag(s: string, p: nat, q: nat)
    requires At(s, p, ImgOpen) && p + |ImgOpen| <= q <= |s|
    requires forall k :: p + |ImgOpen| <= k < q ==> s[k] != '>'
    ensures Candidates(s, p, q).Some? ==> IsTag(s, Candidates(s, p, q).value)
    decreases q
  {
    if At(s, q, SrcEq) {
      TryValueTag(s, p, q);
    }
    if q > p + |ImgOpen| {
      CandidatesTag(s, p, q - 1);
    }
  }

  /** A match found at `p` is a match of the pattern. */
  lemma MatchAtIsTag(s: string, p: nat)
    ensures MatchAt(s, p).Some? ==> IsTag(s, MatchAt(s, p).value)
  {
    if At(s, p, ImgOpen) {
      FindCharFirst(s, p + |ImgOpen|, '>');
      CandidatesTag(s, p, FirstGt(s, p + |ImgOpen|));
    }
  }

  /** The match found is the leftmost one: there is none before it, and
      none at all when nothing is found. */
  lemma {:induction false} FindTagFirst(s: string, from: nat)
    ensures forall i: nat ::
      from <= i && (FindTag(s, from).None? || i < FindTag(s, from).value.start) ==> MatchAt(s, i).None?
    decreases |s| - from
  {
    if from < |s| && MatchAt(s, from).None? {
      FindTagFirst(s, from + 1);
    }
    if from >= |s| {
      forall i: nat | from <= i ensures MatchAt(s, i).None? {
        assert !At(s, i, ImgOpen);
      }
    }
  }

  /** The leftmost match at or after `from` is the one found. */
  lemma {:induction false} FindTagIs(s: string, from: nat, p: nat, t: Tag)
    requires from <= p && MatchAt(s, p) == Some(t)
    requires forall i: nat :: from <= i < p ==> MatchAt(s, i).None?
    ensures FindTag(s, from) == Some(t)
    decreases p - from
  {
    if from < p {
      FindTagIs(s, from + 1, p, t);
    }
  }

  /** A document without `<img` is returned unchanged, by both versions. */
  lemma TransformImgPathsNoTag(s: string)
    requires forall i: nat :: !At(s, i, ImgOpen)
    ensures TransformImgPaths(s) == s && TransformImgPathsAsWritten(s) == s
  {
    assert FindTag(s, 0).None?;
  }

  /** Candidates that are not a `src="` are passed over. */
  lemma {:induction false} CandidatesSkip(s: string, p: nat, lo: nat, hi: nat)
    requires p + |ImgOpen| <= lo <= hi
    requires forall j: nat :: lo < j <= hi ==> !At(s, j, SrcEq)
    ensures Candidates(s, p, hi) == Candidates(s, p, lo)
    decreases hi
  {
    if lo < hi {
      assert !At(s, hi, SrcEq);
      CandidatesSkip(s, p, lo, hi - 1);
    }
  }

  /** The match at `p` uses the `src="` at `q`, its value is `s[q + 5..e]`
      and it ends at the `>` at `f`, when: no `>` lies between `<img` and
      `q`; the value is non-empty and free of `"`; no `>` lies between the
      closing quote and `f`; and no other `src="` follows the one at `q`
      before `f`. */
  lemma MatchAtTag(s: string, p: nat, q: nat, e: nat, f: nat)
    requires q + |SrcEq| < e < f < |s|
    requires At(s, p, ImgOpen)
    requires p + |ImgOpen| <= q && forall k :: p + |ImgOpen| <= k < q ==> s[k] != '>'
    requires At(s, q, SrcEq)
    requires (forall k :: q + |SrcEq| <= k < e ==> s[k] != '"') && s[e] == '"'
    requires (forall k :: e < k < f ==> s[k] != '>') && s[f] == '>'
    requires forall j: nat :: q < j < f ==> !At(s, j, SrcEq)
    ensures MatchAt(s, p) == Some(Tag(p, q + |SrcEq|, e, f + 1))
  {
    var g := FirstGt(s, p + |ImgOpen|);
    FirstGtBetween(s, p + |ImgOpen|, q, f);
    assert !At(s, f, SrcEq) by {
      if f + |SrcEq| <= |s| {
        assert s[f..f + |SrcEq|][0] == s[f];
      }
    }
    CandidatesSkip(s, p, q, g);
    TryValueAt(s, p, q, e, f);
  }

  /** The first `>` after `from` lies between the first position that may
      hold one and a position known to hold one. */
  lemma FirstGtBetween(s: string, from: nat, q: nat, f: nat)
    requires from <= q <= f < |s| && s[f] == '>'
    requires forall k :: from <= k < q ==> s[k] != '>'
    ensures q <= FirstGt(s, from) <= f
  {
    FindCharFirst(s, from, '>');
  }

  /** The match through the `src="` at `q` when its value and end are known. */
  lemma TryValueAt(s: string, p: nat, q: nat, e: nat, f: nat)
    requires p + |ImgOpen| <= q && q + |SrcEq| < e < f < |s|
    requires (forall k :: q + |SrcEq| <= k < e ==> s[k] != '"') && s[e] == '"'
    requires (forall k :: e < k < f ==> s[k] != '>') && s[f] == '>'
    ensures TryValue(s, p, q) == Some(Tag(p, q + |SrcEq|, e, f + 1))
  {
    FindCharIs(s, q + |SrcEq|, '"', e);
    FindCharIs(s, e + 1, '>', f);
  }

  /** The leftmost match is the one at `p` when no `<img` comes before it. */
  lemma FirstTag(s: string, p: nat, t: Tag)
    requires MatchAt(s, p) == Some(t)
    requires forall i: nat :: i < p ==> !At(s, i, ImgOpen)
    ensures FindTag(s, 0) == Some(t)
  {
    FindTagIs(s, 0, p, t);
  }

  /** An image tag `<img` + `a` + `src="` + `value` + `"` + `b` + `>`. */
  function ImgTag(a: string, value: string, b: string): string {
    ImgOpen + (a + (SrcEq + (value + ("\"" + (b + ">")))))
  }

  /** What precedes the value in `ImgTag(a, value, b)`. */
  function TagHead(a: string): string {
    ImgOpen + (a + SrcEq)
  }

  /** What follows the value in `ImgTag(a, value, b)`. */
  function TagTail(b: string): string {
    "\"" + (b + ">")
  }

  lemma ImgTagSplit(a: string, value: string, b: string)
    ensures ImgTag(a, value, b) == TagHead(a) + value + TagTail(b)
  {
  }

  /** The match `ImgTag(a, value, b)` gives when it lies at `p`: the capture
      follows `<img` + `a` + `src="` and the tag ends after the closing
      `"` + `b` + `>`. */
  function TagOf(p: nat, a: string, value: string, b: string): Tag {
    var v := p + |TagHead(a)|;
    Tag(p, v, v + |value|, v + |value| + |TagTail(b)|)
  }

  /** The pieces of an occurrence of `ImgTag(a, value, b)` at `p`. */
  lemma TagPieces(s: string, p: nat, a: string, value: string, b: string)
    requires At(s, p, ImgTag(a, value, b))
    ensures var q := p + |ImgOpen| + |a|;
      var e := q + |SrcEq| + |value|;
      && At(s, p, ImgOpen) && At(s, p + |ImgOpen|, a) && At(s, q, SrcEq) && At(s, q + |SrcEq|, value)
      && At(s, e, "\"") && At(s, e + 1, b) && At(s, e + 1 + |b|, ">")
  {
    var q := p + |ImgOpen| + |a|;
    var e := q + |SrcEq| + |value|;
    var r4 := "\"" + (b + ">");
    var r3 := value + r4;
    var r2 := SrcEq + r3;
    var r1 := a + r2;
    AtCat(s, p, ImgOpen, r1);
    AtCat(s, p + |ImgOpen|, a, r2);
    AtCat(s, q, SrcEq, r3);
    AtCat(s, q + |SrcEq|, value, r4);
    AtCat(s, e, "\"", b + ">");
    AtCat(s, e + 1, b, ">");
  }

  /** A character a piece of the text lacks is absent from its stretch. */
  lemma NoCharIn(x: string, s: string, lo: nat, c: char)
    requires At(s, lo, x) && c !in x
    ensures forall k :: lo <= k < lo + |x| ==> s[k] != c
  {
    forall k | lo <= k < lo + |x| ensures s[k] != c {
      assert s[k] == s[lo..lo + |x|][k - lo];
    }
  }

  /** The characters at the one-character pieces of a tag. */
  lemma AtOne(s: string, i: nat, c: char)
    requires At(s, i, [c])
    ensures i < |s| && s[i] == c
  {
    assert s[i] == s[i..i + 1][0];
  }

  /** The markers of an occurrence of `ImgTag(a, value, b)` at `p`, at the
      positions `MatchAtTag` reads them. */
  lemma TagMarks(s: string, p: nat, a: string, value: string, b: string)
    requires At(s, p, ImgTag(a, value, b))
    ensures var q := p + |ImgOpen| + |a|;
      var e := q + |SrcEq| + |value|;
      var f := e + 1 + |b|;
      && |ImgTag(a, value, b)| == f + 1 - p
      && At(s, p, ImgOpen) && At(s, q, SrcEq) && s[e] == '"' && s[f] == '>'
  {
    var q := p + |ImgOpen| + |a|;
    var e := q + |SrcEq| + |value|;
    TagPieces(s, p, a, value, b);
    AtOne(s, e, '"');
    AtOne(s, e + 1 + |b|, '>');
  }

  /** The stretches of such a tag that the pattern requires to be free of
      `>` or of `"`. */
  lemma TagFree(s: string, p: nat, a: string, value: string, b: string)
    requires At(s, p, ImgTag(a, value, b))
    requires '"' !in value && '>' !in a && '>' !in b
    ensures var q := p + |ImgOpen| + |a|;
      var e := q + |SrcEq| + |value|;
      var f := e + 1 + |b|;
      && (forall k :: p + |ImgOpen| <= k < q ==> s[k] != '>')
      && (forall k :: q + |SrcEq| <= k < e ==> s[k] != '"')
      && (forall k :: e < k < f ==> s[k] != '>')
  {
    var q := p + |ImgOpen| + |a|;
    var e := q + |SrcEq| + |value|;
    TagPieces(s, p, a, value, b);
    NoCharIn(a, s, p + |ImgOpen|, '>');
    NoCharIn(value, s, q + |SrcEq|, '"');
    NoCharIn(b, s, e + 1, '>');
  }

  /** The match at `p` of an occurrence of `ImgTag(a, value, b)` at `p`
      with no other `src="` in the tag after the attribute's. */
  lemma TagMatch(s: string, p: nat, a: string, value: string, b: string)
    requires At(s, p, ImgTag(a, value, b))
    requires value != [] && '"' !in value && '>' !in a && '>' !in b
    requires forall j: nat :: p + |ImgOpen| + |a| < j < p + |ImgTag(a, value, b)| ==> !At(s, j, SrcEq)
    ensures MatchAt(s, p) == Some(TagOf(p, a, value, b))
  {
    var q := p + |ImgOpen| + |a|;
    var e := q + |SrcEq| + |value|;
    var f := e + 1 + |b|;
    TagMarks(s, p, a, value, b);
    TagFree(s, p, a, value, b);
    MatchAtTag(s, p, q, e, f);
  }

  /** The conditions of `FirstTag` for the tag `ImgTag(a, value, b)` placed
      after `pre`: the attributes before and after the value hold no `>`,
      the value is non-empty and has no `"`, and `src="` occurs in the tag
      only at the attribute. */
  predicate PlainTag(pre: string, a: string, value: string, b: string, post: string) {
    var s := pre + ImgTag(a, value, b) + post;
    var q := |pre| + |ImgOpen| + |a|;
    && (forall i: nat :: i < |pre| ==> !At(s, i, ImgOpen))
    && value != [] && '"' !in value && '>' !in a && '>' !in b
    && (forall j: nat :: q < j < |pre| + |ImgTag(a, value, b)| ==> !At(s, j, SrcEq))
  }

  /** In such a document the tag is the leftmost match. */
  lemma PlainTagFound(pre: string, a: string, value: string, b: string, post: string)
    requires PlainTag(pre, a, value, b, post)
    ensures FindTag(pre + ImgTag(a, value, b) + post, 0) == Some(TagOf(|pre|, a, value, b))
  {
    var s := pre + ImgTag(a, value, b) + post;
    AtThree(pre, ImgTag(a, value, b), post);
    TagMatch(s, |pre|, a, value, b);
    FirstTag(s, |pre|, TagOf(|pre|, a, value, b));
  }

  /** The slices of `pre + ImgTag(a, value, b) + post` that the rewrites
      read, once the tag is found. */
  lemma PlainTagSlices(pre: string, a: string, value: string, b: string, post: string)
    ensures var s := pre + ImgTag(a, value, b) + post;
      var t := TagOf(|pre|, a, value, b);
      && t.end <= |s|
      && s[..t.start] == pre && s[t.end..] == post
      && s[t.start..t.end] == ImgTag(a, value, b)
      && s[t.start..t.valueStart] == TagHead(a)
      && s[t.valueStart..t.valueEnd] == value
      && s[t.valueEnd..t.end] == TagTail(b)
  {
    var s := pre + ImgTag(a, value, b) + post;
    AtThree(pre, ImgTag(a, value, b), post);
    ImgTagSplit(a, value, b);
    AtCat(s, |pre|, TagHead(a) + value, TagTail(b));
    AtCat(s, |pre|, TagHead(a), value);
  }

  /** The first step of each rewrite. */
  lemma TransformStep(s: string, t: Tag)
    requires FindTag(s, 0) == Some(t)
    ensures TransformImgPaths(s) == s[..t.start] + RewriteTag(s, t) + TransformImgPaths(s[t.end..])
  {
  }

  lemma TransformStepAsWritten(s: string, t: Tag)
    requires FindTag(s, 0) == Some(t)
    ensures TransformImgPathsAsWritten(s)
      == s[..t.start] + RewriteTagAsWritten(s[t.start..t.end], s[t.valueStart..t.valueEnd])
        + TransformImgPathsAsWritten(s[t.end..])
  {
  }

  /** The tag each rewrite works on is a match of the pattern. */
  lemma FoundIsTag(s: string, from: nat)
    ensures FindTag(s, from).Some? ==> IsTag(s, FindTag(s, from).value)
  {
    if FindTag(s, from).Some? {
      MatchAtIsTag(s, FindTag(s, from).value.start);
    }
  }

  /** The intended rewrite of a tag that is `ImgTag(a, value, b)`. */
  lemma RewritePlain(s: string, t: Tag, a: string, value: string, b: string)
    requires InBounds(s, t)
    requires s[t.start..t.end] == ImgTag(a, value, b)
    requires s[t.start..t.valueStart] == TagHead(a)
    requires s[t.valueStart..t.valueEnd] == value
    requires s[t.valueEnd..t.end] == TagTail(b)
    ensures RewriteTag(s, t) == if IsExternal(value) then ImgTag(a, value, b) else ImgTag(a, ImgDir + value, b)
  {
    if !IsExternal(value) {
      assert RewriteTag(s, t) == TagHead(a) + ImgDir + value + TagTail(b);
      ImgTagSplit(a, ImgDir + value, b);
    }
  }

  /** The intended rewrite of a document whose first image tag is
      `ImgTag(a, value, b)`: the text before it is copied, an external
      source leaves the tag as it is, any other source becomes
      `/img/` + value with every other character of the tag kept, and the
      rest of the document is rewritten in the same way. */
  lemma TransformImgPathsTag(pre: string, a: string, value: string, b: string, post: string)
    requires PlainTag(pre, a, value, b, post)
    ensures TransformImgPaths(pre + ImgTag(a, value, b) + post)
      == pre + (if IsExternal(value) then ImgTag(a, value, b) else ImgTag(a, ImgDir + value, b))
        + TransformImgPaths(post)
  {
    var s := pre + ImgTag(a, value, b) + post;
    var t := TagOf(|pre|, a, value, b);
    var r := if IsExternal(value) then ImgTag(a, value, b) else ImgTag(a, ImgDir + value, b);
    PlainTagFound(pre, a, value, b, post);
    TransformStep(s, t);
    assert s[..t.start] == pre && s[t.end..] == post && RewriteTag(s, t) == r by {
      PlainTagSlices(pre, a, value, b, post);
      RewritePlain(s, t, a, value, b);
    }
  }

  /** The rewrite as written, on the same documents: the tag is replaced by
      `RewriteTagAsWritten` of the tag and its value. */
  lemma TransformImgPathsAsWrittenTag(pre: string, a: string, value: string, b: string, post: string)
    requires PlainTag(pre, a, value, b, post)
    ensures TransformImgPathsAsWritten(pre + ImgTag(a, value, b) + post)
      == pre + RewriteTagAsWritten(ImgTag(a, value, b), value) + TransformImgPathsAsWritten(post)
  {
    var s := pre + ImgTag(a, value, b) + post;
    var t := TagOf(|pre|, a, value, b);
    PlainTagFound(pre, a, value, b, post);
    TransformStepAsWritten(s, t);
    assert s[..t.start] == pre && s[t.end..] == post
      && s[t.start..t.end] == ImgTag(a, value, b) && s[t.valueStart..t.valueEnd] == value by {
      PlainTagSlices(pre, a, value, b, post);
    }
  }

  /** When the value occurs in the tag only as the `src` attribute, the code
      as written and the intended rewrite agree. */
  lemma RewriteAgrees(a: string, value: string, b: string)
    requires value != []
    requires forall j: nat :: j != |ImgOpen| + |a| + |SrcEq| ==> !At(ImgTag(a, value, b), j, value)
    ensures RewriteTagAsWritten(ImgTag(a, value, b), value)
      == if IsExternal(value) then ImgTag(a, value, b) else ImgTag(a, ImgDir + value, b)
  {
    var tag := ImgTag(a, value, b);
    var k := |TagHead(a)|;
    ImgTagSplit(a, value, b);
    AtThree(TagHead(a), value, TagTail(b));
    if !IsExternal(value) {
      ReplaceOnce(tag, k, value, ImgDir + value);
      assert tag[..k] == TagHead(a);
      ImgTagSplit(a, ImgDir + value, b);
    }
  }

  /** The code as written rewrites every occurrence of the value inside the
      tag, not only the one in `src`.  For `<img src="g"` + `b` + `>` with
      no `g` in `b`, the `g` that ends the tag name is prefixed too, giving
      `<im/img/g src="/img/g"` + `b` + `>` instead of
      `<img src="/img/g"` + `b` + `>`. */
  lemma AsWrittenRewritesTagName(b: string)
    requires 'g' !in b
    ensures RewriteTagAsWritten(ImgTag(" ", "g", b), "g")
      == "<im" + (ImgDir + "g" + (" " + (SrcEq + (ImgDir + "g" + TagTail(b)))))
    ensures var w := RewriteTagAsWritten(ImgTag(" ", "g", b), "g");
      var r := ImgTag(" ", ImgDir + "g", b);
      3 < |w| && 3 < |r| && w[3] == '/' && r[3] == 'g'
  {
    var v := "g";
    var R := ImgDir + v;
    var tail := TagTail(b);
    AsWrittenPrefixesTagName(" ", b);
    ReplaceSkip(" ", SrcEq + (v + tail), v, R);
    ReplaceSkip(SrcEq, v + tail, v, R);
    ReplaceLeading(v, tail, R);
    ReplaceNoFirst(tail, v, R);
  }

  /** On a document whose first tag is `ImgTag(a, value, b)`, the code as
      written and the intended rewrite differ as soon as their rewrites of
      that tag differ at some position `k` both have. */
  lemma AsWrittenDiffers(pre: string, a: string, value: string, b: string, post: string, k: nat)
    requires PlainTag(pre, a, value, b, post)
    requires var w := RewriteTagAsWritten(ImgTag(a, value, b), value);
      var r := if IsExternal(value) then ImgTag(a, value, b) else ImgTag(a, ImgDir + value, b);
      k < |w| && k < |r| && w[k] != r[k]
    ensures TransformImgPathsAsWritten(pre + ImgTag(a, value, b) + post)
      != TransformImgPaths(pre + ImgTag(a, value, b) + post)
  {
    var w := RewriteTagAsWritten(ImgTag(a, value, b), value);
    var r := if IsExternal(value) then ImgTag(a, value, b) else ImgTag(a, ImgDir + value, b);
    TransformImgPathsTag(pre, a, value, b, post);
    TransformImgPathsAsWrittenTag(pre, a, value, b, post);
    var x := pre + r + TransformImgPaths(post);
    var y := pre + w + TransformImgPathsAsWritten(post);
    assert x[|pre| + k] == r[k];
    assert y[|pre| + k] == w[k];
  }

  /** Whatever the attributes around it, a tag whose source is `g` loses
      the `g` that ends its tag name under the code as written: the
      rewrite starts `<im/img/g`, where the intended one keeps `<img`. */
  lemma AsWrittenPrefixesTagName(a: string, b: string)
    ensures var w := RewriteTagAsWritten(ImgTag(a, "g", b), "g");
      var r := ImgTag(a, ImgDir + "g", b);
      && w == "<im" + (ImgDir + "g" + Replace(a + (SrcEq + ("g" + TagTail(b))), "g", ImgDir + "g"))
      && 3 < |w| && 3 < |r| && w[3] == '/' && r[3] == 'g'
  {
    var v := "g";
    var R := ImgDir + v;
    var x := a + (SrcEq + (v + TagTail(b)));
    assert ImgTag(a, v, b) == "<im" + (v + x);
    assert !IsExternal(v) by {
      assert v[0] == 'g';
    }
    ReplaceSkip("<im", v + x, v, R);
    ReplaceLeading(v, x, R);
    assert ImgTag(a, R, b)[3] == ImgOpen[3] == 'g';
  }

  /** Every document whose first image tag has the source `g` is one of
      them. */
  lemma AsWrittenDiffersOnG(pre: string, a: string, b: string, post: string)
    requires PlainTag(pre, a, "g", b, post)
    ensures TransformImgPathsAsWritten(pre + ImgTag(a, "g", b) + post)
      != TransformImgPaths(pre + ImgTag(a, "g", b) + post)
  {
    AsWrittenPrefixesTagName(a, b);
    assert !IsExternal("g") by {
      assert "g"[0] == 'g';
    }
    AsWrittenDiffers(pre, a, "g", b, post, 3);
  }
}
