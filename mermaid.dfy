/** `transform_mermaid` (backend/build.rs:195-208): every rendered code block
    tagged `language-dolphin` or `language-mermaid` becomes a bare
    `<pre class="mermaid">` block whose body has its HTML entities decoded.
    The pattern `<pre><code class="language-(?:dolphin|mermaid)">([\s\S]*?)</code></pre>`
    is modelled by a scanner with the regex engine's semantics: the match
    starting leftmost wins, and the lazy body stops at the first
    `</code></pre>` after the opening tag; after a match, scanning resumes
    where the match ended. */
module Mermaid {
  import opened Wrappers
  import opened Strings

  const DolphinOpen: string := "<pre><code class=\"language-dolphin\">"
  const MermaidOpen: string := "<pre><code class=\"language-mermaid\">"
  const CodeClose: string := "</code></pre>"
  const DiagramOpen: string := "<pre class=\"mermaid\">"
  const DiagramClose: string := "</pre>"

  /** Both opening tags have the same length. */
  const OpenLen: nat := |DolphinOpen|

  /** One of the two diagram opening tags starts at `i`. */
  predicate OpenerAt(s: string, i: nat) {
    At(s, i, DolphinOpen) || At(s, i, MermaidOpen)
  }

  /** A match of the pattern: the opening tag at `start`, the lazy body
      `s[bodyStart..bodyEnd]`, and `</code></pre>` at `bodyEnd`. */
  datatype Block = Block(start: nat, bodyStart: nat, bodyEnd: nat) {
    function End(): nat { bodyEnd + |CodeClose| }
  }

  /** The match that starts at `i`, if the pattern matches there. */
  function MatchAt(s: string, i: nat): (r: Option<Block>)
    ensures r.Some? <==> OpenerAt(s, i) && Find(s, i + OpenLen, CodeClose).Some?
    ensures r.Some? ==> (r.value.start == i && r.value.bodyStart == i + OpenLen
      && r.value.bodyStart <= r.value.bodyEnd && At(s, r.value.bodyEnd, CodeClose)
      && r.value.End() <= |s|)
  {
    if OpenerAt(s, i) then
      match Find(s, i + OpenLen, CodeClose)
      case None => None
      case Some(e) => Some(Block(i, i + OpenLen, e))
    else None
  }

  /** The body of a match is lazy: it holds no `</code></pre>`. */
  lemma MatchAtLazy(s: string, i: nat)
    ensures MatchAt(s, i).Some? ==>
      forall j: nat :: MatchAt(s, i).value.bodyStart <= j < MatchAt(s, i).value.bodyEnd ==> !At(s, j, CodeClose)
  {
    FindFirst(s, i + OpenLen, CodeClose);
  }

  /** The leftmost match starting at or after `from`. */
  function FindBlock(s: string, from: nat): (r: Option<Block>)
    ensures r.Some? ==> from <= r.value.start && MatchAt(s, r.value.start) == r
    decreases |s| - from
  {
    if from >= |s| then None
    else if MatchAt(s, from).Some? then MatchAt(s, from)
    else FindBlock(s, from + 1)
  }

  /** No match starts before the one found; none at all when nothing is
      found. */
  lemma {:induction false} FindBlockFirst(s: string, from: nat)
    ensures forall i: nat ::
      from <= i && (FindBlock(s, from).None? || i < FindBlock(s, from).value.start) ==> MatchAt(s, i).None?
    decreases |s| - from
  {
    if from < |s| && MatchAt(s, from).None? {
      FindBlockFirst(s, from + 1);
    }
    if from >= |s| {
      forall i: nat | from <= i ensures MatchAt(s, i).None? {
        assert !At(s, i, DolphinOpen) && !At(s, i, MermaidOpen);
      }
    }
  }

  /** The leftmost match at or after `from` is the one found. */
  lemma {:induction false} FindBlockIs(s: string, from: nat, p: nat, b: Block)
    requires from <= p && MatchAt(s, p) == Some(b)
    requires forall i: nat :: from <= i < p ==> MatchAt(s, i).None?
    ensures FindBlock(s, from) == Some(b)
    decreases p - from
  {
    if from < p {
      assert MatchAt(s, from).None?;
      FindBlockIs(s, from + 1, p, b);
      assert FindBlock(s, from) == FindBlock(s, from + 1);
    } else {
      assert FindBlock(s, p) == MatchAt(s, p);
    }
  }

  /** The body decoding of backend/build.rs:199-204: five whole-text
      replacements in this order, each done once. */
  function Decode(code: string): string {
    Replace(Replace(Replace(Replace(Replace(code, "&amp;", "&"), "&lt;", "<"), "&gt;", ">"), "&quot;", "\""), "&#39;", "'")
  }

  /** `transform_mermaid`: the global replacement. */
  function TransformMermaid(s: string): string
    decreases |s|
  {
    match FindBlock(s, 0)
    case None => s
    case Some(b) =>
      s[..b.start] + DiagramOpen + Decode(s[b.bodyStart..b.bodyEnd]) + DiagramClose
        + TransformMermaid(s[b.End()..])
  }

  /** A document in which no diagram block is both opened and closed is
      returned unchanged; in particular one with no opening tag, or with no
      `</code></pre>`. */
  lemma TransformMermaidNoBlock(s: string)
    requires forall i: nat :: !OpenerAt(s, i) || Find(s, i + OpenLen, CodeClose).None?
    ensures TransformMermaid(s) == s
  {
    assert FindBlock(s, 0).None?;
  }

  /** The leftmost match is the opening tag at `p` with its body ending at
      `e`, when no opening tag comes before `p` and `e` is the first
      `</code></pre>` after the tag. */
  lemma FirstBlock(s: string, p: nat, e: nat)
    requires OpenerAt(s, p) && p + OpenLen <= e && At(s, e, CodeClose)
    requires forall i: nat :: i < p ==> !OpenerAt(s, i)
    requires forall j: nat :: p + OpenLen <= j < e ==> !At(s, j, CodeClose)
    ensures FindBlock(s, 0) == Some(Block(p, p + OpenLen, e))
  {
    FindIs(s, p + OpenLen, CodeClose, e);
    assert MatchAt(s, p) == Some(Block(p, p + OpenLen, e));
    FindBlockIs(s, 0, p, Block(p, p + OpenLen, e));
  }

  /** Where the pieces of `pre + open + body + CodeClose + post` lie. */
  lemma BlockSlices(pre: string, open: string, body: string, post: string)
    ensures var s := pre + open + body + CodeClose + post;
      var e := |pre| + |open| + |body|;
      && s[..|pre|] == pre && At(s, |pre|, open) && At(s, |pre| + |open|, body)
      && At(s, e, CodeClose) && s[e + |CodeClose|..] == post
  {
    var x := pre + open + body;
    AtThree(x, CodeClose, post);
    AtThree(pre, open, body);
    var s := x + CodeClose + post;
    AtWithin(s, 0, x, 0, pre);
    AtWithin(s, 0, x, |pre|, open);
    AtWithin(s, 0, x, |pre| + |open|, body);
  }

  /** The block structure of the result: the text before the first diagram
      block is copied, the block becomes `<pre class="mermaid">` + decoded
      body + `</pre>` with the `<code>` wrapper dropped, its body ends at the
      first `</code></pre>` after the opening tag, and the rest of the
      document is transformed in the same way. */
  lemma TransformMermaidBlock(pre: string, open: string, body: string, post: string)
    requires open == DolphinOpen || open == MermaidOpen
    requires forall i: nat :: i < |pre| ==> !OpenerAt(pre + open + body + CodeClose + post, i)
    requires forall j: nat :: |pre| + OpenLen <= j < |pre| + OpenLen + |body| ==>
      !At(pre + open + body + CodeClose + post, j, CodeClose)
    ensures TransformMermaid(pre + open + body + CodeClose + post)
      == pre + DiagramOpen + Decode(body) + DiagramClose + TransformMermaid(post)
  {
    var s := pre + open + body + CodeClose + post;
    var p, e := |pre|, |pre| + OpenLen + |body|;
    var b := Block(p, p + OpenLen, e);
    assert OpenerAt(s, p) && At(s, e, CodeClose)
      && s[..b.start] == pre && s[b.bodyStart..b.bodyEnd] == body && s[b.End()..] == post by {
      assert |open| == OpenLen;
      BlockSlices(pre, open, body, post);
    }
    FirstBlock(s, p, e);
    TransformStep(s, b);
  }

  /** The first step of the rewrite: the text before the leftmost block is
      copied, the block is replaced and the rest is rewritten alike. */
  lemma TransformStep(s: string, b: Block)
    requires FindBlock(s, 0) == Some(b)
    ensures TransformMermaid(s)
      == s[..b.start] + DiagramOpen + Decode(s[b.bodyStart..b.bodyEnd]) + DiagramClose + TransformMermaid(s[b.End()..])
  {
  }

  /** Decoding touches nothing in code without `&`. */
  lemma DecodePlain(code: string)
    requires '&' !in code
    ensures Decode(code) == code
  {
    ReplaceNoFirst(code, "&amp;", "&");
    ReplaceNoFirst(code, "&lt;", "<");
    ReplaceNoFirst(code, "&gt;", ">");
    ReplaceNoFirst(code, "&quot;", "\"");
    ReplaceNoFirst(code, "&#39;", "'");
  }

  /** The five entity names `Decode` looks for. */
  predicate IsEntity(x: string) {
    x == "&amp;" || x == "&lt;" || x == "&gt;" || x == "&quot;" || x == "&#39;"
  }

  /** The escape a renderer applies to code text, the one `Decode` is meant
      to undo. */
  function EntityOf(c: char): string {
    if c == '&' then "&amp;"
    else if c == '<' then "&lt;"
    else if c == '>' then "&gt;"
    else if c == '"' then "&quot;"
    else if c == '\'' then "&#39;"
    else [c]
  }

  /** The escaped text after each of the decoding passes, per character. */
  function AfterLtDecoded(c: char): string { if c == '<' then "<" else EntityOf(c) }
  function AfterGtDecoded(c: char): string { if c == '>' then ">" else AfterLtDecoded(c) }
  function AfterQuotDecoded(c: char): string { if c == '"' then "\"" else AfterGtDecoded(c) }

  /** One decoding pass on one character's expansion: an entity other than
      the pattern, or a plain character, is left alone, and no occurrence of
      the pattern can straddle into the next expansion. */
  lemma EntityChunk(chunk: string, pat: string, rep: string)
    requires IsEntity(pat) && Chunk(chunk)
    ensures NoStraddle(chunk, pat)
    ensures Replace(chunk, pat, rep) == if chunk == pat then rep else chunk
  {
    if |chunk| == 1 && chunk[0] != '&' {
      PlainChunk(chunk, pat, rep);
    } else {
      EntityNoStraddle(chunk, pat);
      EntityReplace(chunk, pat, rep);
    }
  }

  /** A plain character is left alone by a pass. */
  lemma PlainChunk(chunk: string, pat: string, rep: string)
    requires pat != [] && pat[0] == '&'
    requires |chunk| == 1 && chunk[0] != '&'
    ensures NoStraddle(chunk, pat)
    ensures Replace(chunk, pat, rep) == chunk
  {
    ReplaceNoFirst(chunk, pat, rep);
    forall i | 0 <= i < |chunk| < i + |pat| ensures !StartsWith(pat, chunk[i..]) {
      assert chunk[i..][0] != pat[0];
    }
  }

  /** An entity ends none of the five entities but the one it starts. */
  lemma EntityNoStraddle(chunk: string, pat: string)
    requires IsEntity(pat) && IsEntity(chunk)
    ensures NoStraddle(chunk, pat)
  {
    forall i | 0 <= i < |chunk| < i + |pat| ensures !StartsWith(pat, chunk[i..]) {
      if i == 0 {
        assert chunk[i..][1] != pat[1];
      } else {
        assert chunk[i..][0] == chunk[i] != '&' == pat[0];
      }
    }
  }

  /** A pass replaces an entity that is its pattern and keeps any other. */
  lemma EntityReplace(chunk: string, pat: string, rep: string)
    requires IsEntity(pat) && IsEntity(chunk)
    ensures Replace(chunk, pat, rep) == if chunk == pat then rep else chunk
  {
    if chunk == pat {
      ReplaceLeading(pat, [], rep);
      assert pat + [] == pat;
    } else {
      EntityKeys(chunk, pat);
      assert !At(chunk, 0, pat) by {
        assert chunk[1] != pat[1];
      }
      EntityTail(chunk);
      var rest := chunk[1..];
      ReplaceNoFirst(rest, pat, rep);
      assert [chunk[0]] + rest == chunk;
      assert Replace(chunk, pat, rep) == [chunk[0]] + Replace(rest, pat, rep);
    }
  }

  /** The five entities differ in their second character. */
  lemma EntityKeys(x: string, y: string)
    requires IsEntity(x) && IsEntity(y) && x != y
    ensures x[1] != y[1]
  {
  }

  /** An entity holds no `&` after its first character. */
  lemma EntityTail(x: string)
    requires IsEntity(x)
    ensures x[0] == '&' && '&' !in x[1..]
  {
  }

  /** Whether a decoding pass from expansion `t` to expansion `u` acts on
      each character of `s` as `ReplaceFlat` needs. */
  predicate DecodePassOk(s: string, t: char -> string, u: char -> string, pat: string, rep: string)
    requires pat != []
  {
    forall i :: 0 <= i < |s| ==> NoStraddle(t(s[i]), pat) && u(s[i]) == Replace(t(s[i]), pat, rep)
  }

  lemma DecodePassesOk(s: string)
    requires '&' !in s
    ensures DecodePassOk(s, EntityOf, EntityOf, "&amp;", "&")
    ensures DecodePassOk(s, EntityOf, AfterLtDecoded, "&lt;", "<")
    ensures DecodePassOk(s, AfterLtDecoded, AfterGtDecoded, "&gt;", ">")
    ensures DecodePassOk(s, AfterGtDecoded, AfterQuotDecoded, "&quot;", "\"")
    ensures DecodePassOk(s, AfterQuotDecoded, Self, "&#39;", "'")
  {
    forall i | 0 <= i < |s|
      ensures NoStraddle(EntityOf(s[i]), "&amp;") && EntityOf(s[i]) == Replace(EntityOf(s[i]), "&amp;", "&")
      ensures NoStraddle(EntityOf(s[i]), "&lt;") && AfterLtDecoded(s[i]) == Replace(EntityOf(s[i]), "&lt;", "<")
      ensures NoStraddle(AfterLtDecoded(s[i]), "&gt;") && AfterGtDecoded(s[i]) == Replace(AfterLtDecoded(s[i]), "&gt;", ">")
      ensures NoStraddle(AfterGtDecoded(s[i]), "&quot;") && AfterQuotDecoded(s[i]) == Replace(AfterGtDecoded(s[i]), "&quot;", "\"")
      ensures NoStraddle(AfterQuotDecoded(s[i]), "&#39;") && Self(s[i]) == Replace(AfterQuotDecoded(s[i]), "&#39;", "'")
    {
      CharPasses(s[i]);
    }
  }

  /** Each expansion of a character other than `&` is a plain character or
      an entity. */
  predicate Chunk(x: string) {
    (|x| == 1 && x[0] != '&') || IsEntity(x)
  }

  lemma CharChunks(c: char)
    requires c != '&'
    ensures Chunk(EntityOf(c)) && Chunk(AfterLtDecoded(c)) && Chunk(AfterGtDecoded(c)) && Chunk(AfterQuotDecoded(c))
  {
  }

  /** The five passes on the escape of one character other than `&`. */
  lemma CharPasses(c: char)
    requires c != '&'
    ensures NoStraddle(EntityOf(c), "&amp;") && EntityOf(c) == Replace(EntityOf(c), "&amp;", "&")
    ensures NoStraddle(EntityOf(c), "&lt;") && AfterLtDecoded(c) == Replace(EntityOf(c), "&lt;", "<")
    ensures NoStraddle(AfterLtDecoded(c), "&gt;") && AfterGtDecoded(c) == Replace(AfterLtDecoded(c), "&gt;", ">")
    ensures NoStraddle(AfterGtDecoded(c), "&quot;") && AfterQuotDecoded(c) == Replace(AfterGtDecoded(c), "&quot;", "\"")
    ensures NoStraddle(AfterQuotDecoded(c), "&#39;") && Self(c) == Replace(AfterQuotDecoded(c), "&#39;", "'")
  {
    CharChunks(c);
    AmpPass(c);
    LtPass(c);
    GtPass(c);
    QuotPass(c);
    AposPass(c);
  }

  lemma AmpPass(c: char)
    requires c != '&' && Chunk(EntityOf(c))
    ensures NoStraddle(EntityOf(c), "&amp;") && EntityOf(c) == Replace(EntityOf(c), "&amp;", "&")
  {
    EntityChunk(EntityOf(c), "&amp;", "&");
  }

  lemma LtPass(c: char)
    requires Chunk(EntityOf(c))
    ensures NoStraddle(EntityOf(c), "&lt;") && AfterLtDecoded(c) == Replace(EntityOf(c), "&lt;", "<")
  {
    EntityChunk(EntityOf(c), "&lt;", "<");
  }

  lemma GtPass(c: char)
    requires Chunk(AfterLtDecoded(c))
    ensures NoStraddle(AfterLtDecoded(c), "&gt;") && AfterGtDecoded(c) == Replace(AfterLtDecoded(c), "&gt;", ">")
  {
    EntityChunk(AfterLtDecoded(c), "&gt;", ">");
  }

  lemma QuotPass(c: char)
    requires Chunk(AfterGtDecoded(c))
    ensures NoStraddle(AfterGtDecoded(c), "&quot;") && AfterQuotDecoded(c) == Replace(AfterGtDecoded(c), "&quot;", "\"")
  {
    EntityChunk(AfterGtDecoded(c), "&quot;", "\"");
  }

  lemma AposPass(c: char)
    requires c != '&' && Chunk(AfterQuotDecoded(c))
    ensures NoStraddle(AfterQuotDecoded(c), "&#39;") && Self(c) == Replace(AfterQuotDecoded(c), "&#39;", "'")
  {
    EntityChunk(AfterQuotDecoded(c), "&#39;", "'");
  }

  /** Decoding undoes the entity escape of any code text that holds no `&`
      of its own. */
  lemma DecodeUndoesEscape(s: string)
    requires '&' !in s
    ensures Decode(Flat(s, EntityOf)) == s
  {
    DecodePassesOk(s);
    ReplaceFlat(s, EntityOf, EntityOf, "&amp;", "&");
    ReplaceFlat(s, EntityOf, AfterLtDecoded, "&lt;", "<");
    ReplaceFlat(s, AfterLtDecoded, AfterGtDecoded, "&gt;", ">");
    ReplaceFlat(s, AfterGtDecoded, AfterQuotDecoded, "&quot;", "\"");
    ReplaceFlat(s, AfterQuotDecoded, Self, "&#39;", "'");
    FlatSelf(s);
  }

  /** With an `&` of its own the escape is not undone: the escaped form of
      the text `&lt;` is decoded twice, to `<`, because `&amp;` is decoded
      first and its output is seen by the `&lt;` pass. */
  lemma DecodeDecodesTwice()
    ensures Flat("&lt;", EntityOf) == "&amp;lt;"
    ensures Decode("&amp;lt;") == "<"
  {
    assert Flat("&lt;", EntityOf) == "&amp;lt;" by {
      EntityOfPlain("lt;");
      assert Flat("&lt;", EntityOf) == EntityOf('&') + Flat("lt;", EntityOf);
    }
    var s1 := Replace("&amp;lt;", "&amp;", "&");
    assert s1 == "&lt;" by {
      assert "&amp;lt;" == "&amp;" + "lt;";
      ReplaceLeading("&amp;", "lt;", "&");
      ReplaceNoFirst("lt;", "&amp;", "&");
    }
    var s2 := Replace(s1, "&lt;", "<");
    assert s2 == "<" by {
      assert s1 == "&lt;" + [];
      ReplaceLeading("&lt;", [], "<");
    }
    assert Replace(s2, "&gt;", ">") == "<" by {
      ReplaceNoFirst("<", "&gt;", ">");
    }
    assert Replace("<", "&quot;", "\"") == "<" by {
      ReplaceNoFirst("<", "&quot;", "\"");
    }
    assert Replace("<", "&#39;", "'") == "<" by {
      ReplaceNoFirst("<", "&#39;", "'");
    }
  }

  /** Text without the five special characters is its own escape. */
  lemma {:induction false} EntityOfPlain(s: string)
    requires forall i :: 0 <= i < |s| ==> EntityOf(s[i]) == [s[i]]
    ensures Flat(s, EntityOf) == s
  {
    if s != [] {
      EntityOfPlain(s[1..]);
      assert [s[0]] + s[1..] == s;
    }
  }

  /** An escaped `>` between plain text is decoded and the rest is kept:
      `--&gt;` becomes `-->`. */
  lemma DecodeGt(head: string, tail: string)
    requires forall i :: 0 <= i < |head| ==> EntityOf(head[i]) == [head[i]]
    requires forall i :: 0 <= i < |tail| ==> EntityOf(tail[i]) == [tail[i]]
    ensures Decode(head + "&gt;" + tail) == head + ">" + tail
  {
    EntityOfPlain(head);
    EntityOfPlain(tail);
    FlatConcat(head, ">" + tail, EntityOf);
    FlatConcat(">", tail, EntityOf);
    assert Flat(">", EntityOf) == "&gt;";
    assert head + ">" + tail == head + (">" + tail);
    assert head + "&gt;" + tail == head + ("&gt;" + tail);
    assert '&' !in head + ">" + tail;
    DecodeUndoesEscape(head + ">" + tail);
  }

  /** `</code></pre>` does not occur inside text that has no `<`. */
  lemma NoCloseWithoutLt(s: string, lo: nat, hi: nat)
    requires hi <= |s|
    requires forall j :: lo <= j < hi ==> s[j] != '<'
    ensures forall j: nat :: lo <= j < hi ==> !At(s, j, CodeClose)
  {
    forall j: nat | lo <= j < hi ensures !At(s, j, CodeClose) {
      if j + |CodeClose| <= |s| {
        assert s[j..j + |CodeClose|][0] == s[j];
      }
    }
  }

  /** A document that is one diagram block, with a body as the renderer
      emits it (every `<` escaped), becomes the bare diagram block. */
  lemma TransformMermaidSingle(open: string, body: string)
    requires open == DolphinOpen || open == MermaidOpen
    requires '<' !in body
    ensures TransformMermaid(open + body + CodeClose) == DiagramOpen + Decode(body) + DiagramClose
  {
    SingleBody(open, body);
    TransformMermaidBlock("", open, body, "");
    SingleShape(open, body);
  }

  /** The body of the single block holds no `</code></pre>`. */
  lemma SingleBody(open: string, body: string)
    requires open == DolphinOpen || open == MermaidOpen
    requires '<' !in body
    ensures forall j: nat :: OpenLen <= j < OpenLen + |body| ==> !At("" + open + body + CodeClose + "", j, CodeClose)
  {
    assert |open| == OpenLen;
    BlockSlices("", open, body, "");
    NoCloseIn("" + open + body + CodeClose + "", OpenLen, body);
  }

  /** The empty text around the single block. */
  lemma SingleShape(open: string, body: string)
    ensures "" + open + body + CodeClose + "" == open + body + CodeClose
    ensures "" + DiagramOpen + Decode(body) + DiagramClose + TransformMermaid("") == DiagramOpen + Decode(body) + DiagramClose
  {
    assert TransformMermaid("") == "";
    var d := Decode(body);
    var r := DiagramOpen + d + DiagramClose;
    assert "" + DiagramOpen == DiagramOpen;
    assert "" + DiagramOpen + d + DiagramClose == r;
    assert r + "" == r;
    var x := open + body + CodeClose;
    assert "" + open == open;
    assert "" + open + body + CodeClose == x;
    assert x + "" == x;
  }

  /** `</code></pre>` does not start inside an occurrence of text without `<`. */
  lemma NoCloseIn(s: string, lo: nat, x: string)
    requires At(s, lo, x) && '<' !in x
    ensures forall j: nat :: lo <= j < lo + |x| ==> !At(s, j, CodeClose)
  {
    forall j | lo <= j < lo + |x| ensures s[j] != '<' {
      assert s[j] == s[lo..lo + |x|][j - lo];
    }
    NoCloseWithoutLt(s, lo, lo + |x|);
  }

  /** The worked example, for any plain text around the arrow: a mermaid
      code block such as `graph TD; A --&gt; B;` as the renderer emits it
      becomes a bare diagram block `graph TD; A --> B;`. */
  lemma TransformMermaidArrow(head: string, tail: string)
    requires forall i :: 0 <= i < |head| ==> EntityOf(head[i]) == [head[i]]
    requires forall i :: 0 <= i < |tail| ==> EntityOf(tail[i]) == [tail[i]]
    ensures TransformMermaid(MermaidOpen + (head + "&gt;" + tail) + CodeClose)
      == DiagramOpen + (head + ">" + tail) + DiagramClose
  {
    var body := head + "&gt;" + tail;
    assert '<' !in body by {
      forall i | 0 <= i < |head| ensures head[i] != '<' {
        assert EntityOf(head[i]) == [head[i]];
      }
      forall i | 0 <= i < |tail| ensures tail[i] != '<' {
        assert EntityOf(tail[i]) == [tail[i]];
      }
      assert forall j :: 0 <= j < |body| ==> body[j] == (if j < |head| then head[j] else if j < |head| + 4 then "&gt;"[j - |head|] else tail[j - |head| - 4]);
    }
    TransformMermaidSingle(MermaidOpen, body);
    DecodeGt(head, tail);
  }
}
