/** The tone-colouring engine of chinese/color.py: the alignment primitive
    `colorize_fuse`, the dictionary-entry colouriser `colorize_dict` with its
    `_sub` callback, and the fragment colouriser `colorize` with its
    callbacks `colorize_ruby_sub`, `colorize_trans_sub` and `repl`.

    Each operation the source writes as a loop is a method that builds the
    string the way the source does; its postcondition ties the string to
    `Render` of a list of pieces computed by a function, and the lemmas below
    state what those pieces are. */
module Color {
  import opened Results
  import opened PyStr
  import opened Foreign
  import opened Markup

  /* ---------------------------------------------------------------------
     colorize_fuse
     --------------------------------------------------------------------- */

  /** The piece for one aligned pair whose two sides are both present. */
  function KeptPiece(env: Env, c: string, t: string, ruby: bool): Piece {
    if env.isPunc(c) && env.isPunc(t) then Raw(c)
    else if ruby then ColoredRuby(env.toneNumber(t), c, t)
    else Colored(env.toneNumber(t), c)
  }

  /** What one aligned pair adds: nothing when a side is `None`. */
  function PairPieces(env: Env, pair: (Option<string>, Option<string>), ruby: bool): seq<Piece> {
    if pair.0.None? || pair.1.None? then []
    else [KeptPiece(env, pair.0.value, pair.1.value, ruby)]
  }

  function FuseFold(env: Env, pairs: seq<(Option<string>, Option<string>)>, ruby: bool): seq<Piece> {
    if pairs == [] then []
    else FuseFold(env, pairs[..|pairs| - 1], ruby) + PairPieces(env, pairs[|pairs| - 1], ruby)
  }

  /** The pieces `colorize_fuse(chars, trans, ruby)` emits. */
  function FusePieces(env: Env, chars: seq<string>, trans: seq<string>, ruby: bool): seq<Piece> {
    FuseFold(env, Align(chars, trans), ruby)
  }

  /** colorize_fuse: walks the aligned pairs and appends one piece of markup
      per pair whose sides are both present. */
  method ColorizeFuse(env: Env, chars: seq<string>, trans: seq<string>, ruby: bool := false)
    returns (colorized: string)
    ensures colorized == Render(env, FusePieces(env, chars, trans, ruby))
  {
    colorized := "";
    var pairs := Align(chars, trans);
    for i := 0 to |pairs|
      invariant colorized == Render(env, FuseFold(env, pairs[..i], ruby))
    {
      var (c, t) := pairs[i];
      FuseStep(env, pairs, i, ruby);
      if c.None? || t.None? {
        continue;
      }
      if env.isPunc(c.value) && env.isPunc(t.value) {
        colorized := colorized + c.value;
        continue;
      }
      if ruby {
        colorized := colorized + env.colorRubyTemplate(env.toneNumber(t.value), c.value, t.value);
      } else {
        colorized := colorized + env.colorTemplate(env.toneNumber(t.value), c.value);
      }
    }
    assert pairs[..|pairs|] == pairs;
  }

  /** The markup one aligned pair contributes, as a string. */
  lemma PairRender(env: Env, pair: (Option<string>, Option<string>), ruby: bool)
    ensures Render(env, PairPieces(env, pair, ruby)) ==
      if pair.0.None? || pair.1.None? then []
      else if env.isPunc(pair.0.value) && env.isPunc(pair.1.value) then pair.0.value
      else if ruby then env.colorRubyTemplate(env.toneNumber(pair.1.value), pair.0.value, pair.1.value)
      else env.colorTemplate(env.toneNumber(pair.1.value), pair.0.value)
  {
    if pair.0.Some? && pair.1.Some? {
      RenderSingle(env, KeptPiece(env, pair.0.value, pair.1.value, ruby));
    }
  }

  lemma FuseStep(env: Env, pairs: seq<(Option<string>, Option<string>)>, i: nat, ruby: bool)
    requires i < |pairs|
    ensures var (c, t) := pairs[i];
      Render(env, FuseFold(env, pairs[..i + 1], ruby)) == Render(env, FuseFold(env, pairs[..i], ruby)) +
        if c.None? || t.None? then []
        else if env.isPunc(c.value) && env.isPunc(t.value) then c.value
        else if ruby then env.colorRubyTemplate(env.toneNumber(t.value), c.value, t.value)
        else env.colorTemplate(env.toneNumber(t.value), c.value)
  {
    assert pairs[..i + 1][..i] == pairs[..i];
    RenderAppend(env, FuseFold(env, pairs[..i], ruby), PairPieces(env, pairs[i], ruby));
    PairRender(env, pairs[i], ruby);
  }

  lemma {:induction false} FuseFoldShape(env: Env, pairs: seq<(Option<string>, Option<string>)>, n: nat, ruby: bool)
    requires n <= |pairs|
    requires forall i :: 0 <= i < n ==> pairs[i].0.Some? && pairs[i].1.Some?
    requires forall i :: n <= i < |pairs| ==> pairs[i].0.None? || pairs[i].1.None?
    ensures |FuseFold(env, pairs, ruby)| == n
    ensures forall i :: 0 <= i < n ==>
      FuseFold(env, pairs, ruby)[i] == KeptPiece(env, pairs[i].0.value, pairs[i].1.value, ruby)
    decreases |pairs|
  {
    if pairs != [] {
      var init := pairs[..|pairs| - 1];
      if n == |pairs| {
        FuseFoldShape(env, init, n - 1, ruby);
      } else {
        FuseFoldShape(env, init, n, ruby);
      }
    }
  }

  /** colorize_fuse emits exactly one piece per position that both lists
      have, in order, and nothing for the positions `align` pads with
      `None`; the piece at a position depends only on that position's
      character and syllable. */
  lemma FuseShape(env: Env, chars: seq<string>, trans: seq<string>, ruby: bool)
    ensures |FusePieces(env, chars, trans, ruby)| == Min(|chars|, |trans|)
    ensures forall i :: 0 <= i < Min(|chars|, |trans|) ==>
      FusePieces(env, chars, trans, ruby)[i] == KeptPiece(env, chars[i], trans[i], ruby)
  {
    var pairs := Align(chars, trans);
    FuseFoldShape(env, pairs, Min(|chars|, |trans|), ruby);
  }

  /** The piece for position `i`: the bare character when both sides are
      punctuation (the syllable is dropped); otherwise a span whose tone
      comes from the syllable, holding character and syllable in ruby mode
      and the character alone in plain mode. */
  lemma FusePieceAt(env: Env, chars: seq<string>, trans: seq<string>, ruby: bool, i: nat)
    requires i < |chars| && i < |trans|
    ensures i < |FusePieces(env, chars, trans, ruby)|
    ensures var p := FusePieces(env, chars, trans, ruby)[i];
      && (env.isPunc(chars[i]) && env.isPunc(trans[i]) ==> p == Raw(chars[i]))
      && (!(env.isPunc(chars[i]) && env.isPunc(trans[i])) && ruby ==>
            p == ColoredRuby(env.toneNumber(trans[i]), chars[i], trans[i]))
      && (!(env.isPunc(chars[i]) && env.isPunc(trans[i])) && !ruby ==>
            p == Colored(env.toneNumber(trans[i]), chars[i]))
  {
    FuseShape(env, chars, trans, ruby);
  }

  /** Characters or syllables beyond the shorter list are dropped without
      error: only the common prefix matters. */
  lemma FuseDropsUnmatched(env: Env, chars: seq<string>, trans: seq<string>, ruby: bool)
    ensures var n := Min(|chars|, |trans|);
      FusePieces(env, chars, trans, ruby) == FusePieces(env, chars[..n], trans[..n], ruby)
  {
    var n := Min(|chars|, |trans|);
    FuseShape(env, chars, trans, ruby);
    FuseShape(env, chars[..n], trans[..n], ruby);
  }

  lemma {:induction false} EraseEach(ps: seq<Piece>, cs: seq<string>)
    requires |ps| == |cs|
    requires forall i :: 0 <= i < |ps| ==> ErasePiece(ps[i]) == cs[i]
    ensures Erase(ps) == Concat(cs)
    decreases |ps|
  {
    if ps != [] {
      var k := |ps| - 1;
      EraseEach(ps[..k], cs[..k]);
    }
  }

  /** In plain mode the markup shows the characters of the common prefix,
      each once and in order, and no syllable. */
  lemma FusePlainShowsCharacters(env: Env, chars: seq<string>, trans: seq<string>)
    ensures Erase(FusePieces(env, chars, trans, false)) == Concat(chars[..Min(|chars|, |trans|)])
  {
    var n := Min(|chars|, |trans|);
    var ps := FusePieces(env, chars, trans, false);
    FuseShape(env, chars, trans, false);
    EraseEach(ps, chars[..n]);
  }

  /* ---------------------------------------------------------------------
     re.sub and its callbacks
     --------------------------------------------------------------------- */

  /** colorize_ruby_sub: wraps a whole ruby unit in a tone span whose tone
      comes from the unit's second group, the syllable. */
  function ColorizeRubySub(env: Env): Match -> seq<Piece> {
    (m: Match) => [ToneSpan(env.toneNumber(m.group2), m.whole)]
  }

  /** repl (inside colorize_trans_sub): wraps a match in a tone span whose
      tone comes from its first group. */
  function Repl(env: Env): Match -> seq<Piece> {
    (m: Match) => [ToneSpan(env.toneNumber(m.group1), m.whole)]
  }

  /** _sub (inside colorize_dict), as a function of the match. */
  function DictSub(env: Env): Match -> seq<Piece> {
    (m: Match) => DictEntryPieces(env, m)
  }

  /** The two tone-span callbacks wrap exactly the matched text in one tone
      span: the markup reads back as the match's tone, taken from the second
      group for a ruby unit and from the first group for a syllable, and the
      matched text, and removing it leaves the match. */
  lemma ToneSpanCallbacks(env: Env)
    ensures forall m :: |ColorizeRubySub(env)(m)| == 1 && ColorizeRubySub(env)(m)[0].ToneSpan?
    ensures forall m :: |Repl(env)(m)| == 1 && Repl(env)(m)[0].ToneSpan?
    ensures forall m :: ParseToneSpan(Render(env, ColorizeRubySub(env)(m))) == Some((env.toneNumber(m.group2), m.whole))
    ensures forall m :: ParseToneSpan(Render(env, Repl(env)(m))) == Some((env.toneNumber(m.group1), m.whole))
    ensures forall m :: Erase(ColorizeRubySub(env)(m)) == m.whole
    ensures forall m :: Erase(Repl(env)(m)) == m.whole
  {
    forall m: Match
      ensures ParseToneSpan(Render(env, ColorizeRubySub(env)(m))) == Some((env.toneNumber(m.group2), m.whole))
      ensures ParseToneSpan(Render(env, Repl(env)(m))) == Some((env.toneNumber(m.group1), m.whole))
      ensures Erase(ColorizeRubySub(env)(m)) == m.whole && Erase(Repl(env)(m)) == m.whole
    {
      var ruby := ToneSpan(env.toneNumber(m.group2), m.whole);
      var syllable := ToneSpan(env.toneNumber(m.group1), m.whole);
      RenderSingle(env, ruby);
      RenderSingle(env, syllable);
      ParseToneSpanMarkup(env.toneNumber(m.group2), m.whole);
      ParseToneSpanMarkup(env.toneNumber(m.group1), m.whole);
      EraseSingle(ruby);
      EraseSingle(syllable);
    }
  }

  /* ---------------------------------------------------------------------
     colorize_dict
     --------------------------------------------------------------------- */

  /** The fusion delimiter separating two readings that share a transcript. */
  const Delim: char := '|'

  /** The pieces `_sub` returns for one `hanzi[transcript]` match: with
      exactly one delimiter, the first run aligned in ruby mode, the
      delimiter, and the second run aligned in plain mode, both against the
      whole syllable list; otherwise the whole run aligned in ruby mode. */
  function DictEntryPieces(env: Env, m: Match): seq<Piece> {
    var pinyin := env.sanitizeTranscript(m.group2);
    var hanzi := m.group1;
    if Count(hanzi, Delim) == 1 then
      var halves := SplitOn(hanzi, Delim);
      FusePieces(env, env.splitHanzi(halves[0]), pinyin, true) + [Raw([Delim])]
        + FusePieces(env, env.splitHanzi(halves[1]), pinyin, false)
    else
      FusePieces(env, env.splitHanzi(hanzi), pinyin, true)
  }

  /** _sub: builds the replacement of one dictionary entry. */
  method SubEntry(env: Env, m: Match) returns (s: string)
    ensures s == Render(env, DictEntryPieces(env, m))
  {
    s := "";
    var hanzi := m.group1;
    var pinyin := env.sanitizeTranscript(m.group2);
    if Count(hanzi, Delim) == 1 {
      var halves := SplitOn(hanzi, Delim);
      var ruby := ColorizeFuse(env, env.splitHanzi(halves[0]), pinyin, true);
      s := s + ruby;
      assert s == ruby;
      s := s + [Delim];
      var plain := ColorizeFuse(env, env.splitHanzi(halves[1]), pinyin, false);
      s := s + plain;
      DictEntryFused(env, m);
    } else {
      var whole := ColorizeFuse(env, env.splitHanzi(hanzi), pinyin, true);
      s := s + whole;
      assert s == whole;
      DictEntryWhole(env, m);
    }
  }

  /** colorize_dict: rewrites every `hanzi[transcript]` occurrence with
      `_sub`, leaving the text around the occurrences as it is. */
  method ColorizeDict(env: Env, text: string) returns (r: string)
    ensures r == Render(env, Substitute(env.scan(DictEntryRegex, text), DictSub(env), 0))
  {
    var segs := env.scan(DictEntryRegex, text);
    r := "";
    for i := 0 to |segs|
      invariant r == Render(env, Substitute(segs[..i], DictSub(env), 0))
    {
      DictStep(env, segs, i);
      match segs[i]
      case Gap(g) =>
        RenderSingle(env, Raw(g));
        r := r + g;
      case Hit(m) =>
        var s := SubEntry(env, m);
        r := r + s;
    }
    assert segs[..|segs|] == segs;
  }

  /** One more segment adds what re.sub makes of it. */
  lemma DictStep(env: Env, segs: seq<Segment>, i: nat)
    requires i < |segs|
    ensures Render(env, Substitute(segs[..i + 1], DictSub(env), 0))
         == Render(env, Substitute(segs[..i], DictSub(env), 0)) + Render(env, SegmentPieces(segs[i], DictSub(env), true))
    ensures segs[i].Hit? ==> SegmentPieces(segs[i], DictSub(env), true) == DictEntryPieces(env, segs[i].m)
  {
    assert segs[..i + 1][..i] == segs[..i];
    RenderAppend(env, Substitute(segs[..i], DictSub(env), 0), SegmentPieces(segs[i], DictSub(env), true));
  }

  /** With exactly one delimiter the run splits into the text before and
      after it, and the replacement is the ruby-mode colouring of the first
      part, the delimiter, then the plain-mode colouring of the second part,
      both aligned against the same full syllable list. */
  lemma DictEntryFused(env: Env, m: Match)
    requires Count(m.group1, Delim) == 1
    ensures var halves := SplitOn(m.group1, Delim);
      var pinyin := env.sanitizeTranscript(m.group2);
      && |halves| == 2
      && m.group1 == halves[0] + [Delim] + halves[1]
      && Delim !in halves[0] && Delim !in halves[1]
      && Render(env, DictEntryPieces(env, m))
         == Render(env, FusePieces(env, env.splitHanzi(halves[0]), pinyin, true)) + [Delim]
            + Render(env, FusePieces(env, env.splitHanzi(halves[1]), pinyin, false))
  {
    var halves := SplitOn(m.group1, Delim);
    var pinyin := env.sanitizeTranscript(m.group2);
    SplitOnOnce(m.group1, Delim);
    var first := FusePieces(env, env.splitHanzi(halves[0]), pinyin, true);
    var second := FusePieces(env, env.splitHanzi(halves[1]), pinyin, false);
    RenderAppend(env, first + [Raw([Delim])], second);
    RenderAppend(env, first, [Raw([Delim])]);
  }

  /** With no delimiter, or with two or more, the whole run is aligned once,
      in ruby mode, against the syllable list. */
  lemma DictEntryWhole(env: Env, m: Match)
    requires Count(m.group1, Delim) != 1
    ensures DictEntryPieces(env, m)
         == FusePieces(env, env.splitHanzi(m.group1), env.sanitizeTranscript(m.group2), true)
  {
  }

  /** Which kind of span each part of an entry gets: with one delimiter,
      only ruby spans before it and only plain spans after it; with none or
      several, only ruby spans. Punctuation pairs give bare text anywhere. */
  lemma DictEntryModes(env: Env, m: Match)
    ensures var ps := DictEntryPieces(env, m);
      var pinyin := env.sanitizeTranscript(m.group2);
      if Count(m.group1, Delim) == 1 then
        var halves := SplitOn(m.group1, Delim);
        var n := |FusePieces(env, env.splitHanzi(halves[0]), pinyin, true)|;
        && n < |ps| && ps[n] == Raw([Delim])
        && (forall i :: 0 <= i < n ==> ps[i].Raw? || ps[i].ColoredRuby?)
        && (forall i :: n < i < |ps| ==> ps[i].Raw? || ps[i].Colored?)
      else
        forall i :: 0 <= i < |ps| ==> ps[i].Raw? || ps[i].ColoredRuby?
  {
    var pinyin := env.sanitizeTranscript(m.group2);
    if Count(m.group1, Delim) == 1 {
      var halves := SplitOn(m.group1, Delim);
      var a, b := env.splitHanzi(halves[0]), env.splitHanzi(halves[1]);
      FuseShape(env, a, pinyin, true);
      FuseShape(env, b, pinyin, false);
    } else {
      FuseShape(env, env.splitHanzi(m.group1), pinyin, true);
    }
  }

  /** Text holding no dictionary entry passes through colorize_dict
      unchanged. */
  lemma DictWithoutEntries(env: Env, text: string)
    requires ScansFaithfully(env)
    requires forall i :: 0 <= i < |env.scan(DictEntryRegex, text)| ==> env.scan(DictEntryRegex, text)[i].Gap?
    ensures Render(env, Substitute(env.scan(DictEntryRegex, text), DictSub(env), 0)) == text
  {
    SubstituteNoMatch(env, env.scan(DictEntryRegex, text), DictSub(env), 0);
  }

  /* ---------------------------------------------------------------------
     colorize
     --------------------------------------------------------------------- */

  /** The exception `colorize` raises for a scheme it does not know. */
  datatype Error = NotImplemented(target: string)

  predicate Supported(target: string) {
    target == "pinyin" || target == "jyutping"
  }

  /** `re.IGNORECASE`, whose value is 2. colorize passes it to re.sub where
      re.sub takes its `count`, so each of those calls replaces at most two
      matches, and the flag never reaches re.sub's `flags`: it has no effect
      on matching, whose case handling is left to the patterns. */
  const IgnoreCase: nat := 2

  /** What re.sub with `repl` and the given count makes of one token. */
  function TokenPieces(env: Env, token: string, pat: Pattern, count: nat): seq<Piece> {
    Substitute(env.scan(pat, token), Repl(env), count)
  }

  /** The tokens substituted one by one, the results run together. */
  function SubstituteTokens(env: Env, tokens: seq<string>, pat: Pattern, count: nat): seq<Piece> {
    if tokens == [] then []
    else SubstituteTokens(env, tokens[..|tokens| - 1], pat, count) + TokenPieces(env, tokens[|tokens| - 1], pat, count)
  }

  /** The pieces `colorize_trans_sub(text, pattern)` emits: each token of
      `text.split()` substituted with `repl` and the count `IgnoreCase`. */
  function TransPieces(env: Env, text: string, pat: Pattern): seq<Piece> {
    SubstituteTokens(env, Words(text), pat, IgnoreCase)
  }

  /** colorize_trans_sub: substitutes in each token of `text.split()` and
      appends the results with no separator. */
  method ColorizeTransSub(env: Env, text: string, pat: Pattern) returns (colorized: string)
    ensures colorized == Render(env, TransPieces(env, text, pat))
  {
    colorized := "";
    var tokens := Words(text);
    for i := 0 to |tokens|
      invariant colorized == Render(env, SubstituteTokens(env, tokens[..i], pat, IgnoreCase))
    {
      TokenStep(env, tokens, i, pat);
      colorized := colorized + Render(env, Substitute(env.scan(pat, tokens[i]), Repl(env), IgnoreCase));
    }
    assert tokens[..|tokens|] == tokens;
  }

  lemma TokenStep(env: Env, tokens: seq<string>, i: nat, pat: Pattern)
    requires i < |tokens|
    ensures Render(env, SubstituteTokens(env, tokens[..i + 1], pat, IgnoreCase))
         == Render(env, SubstituteTokens(env, tokens[..i], pat, IgnoreCase))
            + Render(env, Substitute(env.scan(pat, tokens[i]), Repl(env), IgnoreCase))
  {
    assert tokens[..i + 1][..i] == tokens[..i];
    RenderAppend(env, SubstituteTokens(env, tokens[..i], pat, IgnoreCase), TokenPieces(env, tokens[i], pat, IgnoreCase));
  }

  lemma {:induction false} SubstituteTokensKeepText(env: Env, tokens: seq<string>, pat: Pattern, count: nat)
    requires ScansFaithfully(env)
    ensures Erase(SubstituteTokens(env, tokens, pat, count)) == Concat(tokens)
    decreases |tokens|
  {
    if tokens != [] {
      var init, last := tokens[..|tokens| - 1], tokens[|tokens| - 1];
      SubstituteTokensKeepText(env, init, pat, count);
      EraseAppend(SubstituteTokens(env, init, pat, count), TokenPieces(env, last, pat, count));
      ToneSpanCallbacks(env);
      SubstituteKeepsText(env.scan(pat, last), Repl(env), count);
    }
  }

  /** colorize_trans_sub only adds spans and drops whitespace: removing the
      spans gives back the text with its whitespace, and nothing else,
      removed. */
  lemma TransKeepsText(env: Env, text: string, pat: Pattern)
    requires ScansFaithfully(env)
    ensures Erase(TransPieces(env, text, pat)) == NoSpace(text)
  {
    SubstituteTokensKeepText(env, Words(text), pat, IgnoreCase);
    ConcatWords(text);
  }

  /** A token yields one piece per segment, in order: text between matches
      as it is, each of the first `count` matches (all when `count` is 0) as
      a tone span whose tone comes from its first group, and any later match
      as its bare text. */
  lemma TokenShape(env: Env, token: string, pat: Pattern, count: nat)
    ensures var segs := env.scan(pat, token);
      var ps := TokenPieces(env, token, pat, count);
      && |ps| == |segs|
      && forall k :: 0 <= k < |segs| ==>
           && (segs[k].Gap? ==> ps[k] == Raw(segs[k].text))
           && (segs[k].Hit? && Replaces(count, Hits(segs[..k])) ==>
                 ps[k] == ToneSpan(env.toneNumber(segs[k].m.group1), segs[k].m.whole))
           && (segs[k].Hit? && !Replaces(count, Hits(segs[..k])) ==> ps[k] == Raw(segs[k].m.whole))
  {
    ToneSpanCallbacks(env);
    SubstituteShape(env.scan(pat, token), Repl(env), count);
  }

  /** The number of matches the token substitutions replace: per token, all
      of its matches when `count` is 0, otherwise at most `count`. */
  function ReplacedHits(env: Env, tokens: seq<string>, pat: Pattern, count: nat): nat {
    if tokens == [] then 0
    else
      var hits := Hits(env.scan(pat, tokens[|tokens| - 1]));
      ReplacedHits(env, tokens[..|tokens| - 1], pat, count) + (if count == 0 then hits else Min(hits, count))
  }

  /** Every replaced match, and nothing else, becomes a tone span. */
  lemma {:induction false} TokensSpans(env: Env, tokens: seq<string>, pat: Pattern, count: nat)
    ensures Spans(SubstituteTokens(env, tokens, pat, count)) == ReplacedHits(env, tokens, pat, count)
    decreases |tokens|
  {
    if tokens != [] {
      var init, last := tokens[..|tokens| - 1], tokens[|tokens| - 1];
      TokensSpans(env, init, pat, count);
      SpansAppend(SubstituteTokens(env, init, pat, count), TokenPieces(env, last, pat, count));
      ToneSpanCallbacks(env);
      SubstituteSpans(env.scan(pat, last), Repl(env), count);
    }
  }

  /** As written, colorize_trans_sub colours at most two syllables per
      whitespace-separated token. */
  lemma TransSpans(env: Env, text: string, pat: Pattern)
    ensures Spans(TransPieces(env, text, pat)) == ReplacedHits(env, Words(text), pat, IgnoreCase)
    ensures Spans(TransPieces(env, text, pat)) <= IgnoreCase * |Words(text)|
  {
    TokensSpans(env, Words(text), pat, IgnoreCase);
    CappedHitsBound(env, Words(text), pat);
  }

  lemma {:induction false} CappedHitsBound(env: Env, tokens: seq<string>, pat: Pattern)
    ensures ReplacedHits(env, tokens, pat, IgnoreCase) <= IgnoreCase * |tokens|
    decreases |tokens|
  {
    if tokens != [] {
      CappedHitsBound(env, tokens[..|tokens| - 1], pat);
    }
  }

  /** As written: a token in which the pattern finds three syllables comes
      out with the first two in tone spans and the third left bare. */
  lemma ThreeSyllableToken(env: Env, token: string, pat: Pattern, m1: Match, m2: Match, m3: Match)
    requires env.scan(pat, token) == [Hit(m1), Hit(m2), Hit(m3)]
    ensures TokenPieces(env, token, pat, IgnoreCase)
         == [ToneSpan(env.toneNumber(m1.group1), m1.whole), ToneSpan(env.toneNumber(m2.group1), m2.whole), Raw(m3.whole)]
  {
    var segs := env.scan(pat, token);
    TokenShape(env, token, pat, IgnoreCase);
    assert segs[..0] == [];
    assert segs[..1] == [Hit(m1)] && [Hit(m1)][..0] == [];
    assert segs[..2] == [Hit(m1), Hit(m2)] && [Hit(m1), Hit(m2)][..1] == [Hit(m1)];
  }

  /** The transcript colouring the flag argument evidently intends: every
      syllable of every token substituted. */
  function IntendedTransPieces(env: Env, text: string, pat: Pattern): seq<Piece> {
    SubstituteTokens(env, Words(text), pat, 0)
  }

  /** With no count, every syllable the pattern finds in the text becomes a
      tone span, and removing the spans still gives the text without its
      whitespace. */
  lemma IntendedTransSpans(env: Env, text: string, pat: Pattern)
    requires ScansFaithfully(env)
    ensures Spans(IntendedTransPieces(env, text, pat)) == ReplacedHits(env, Words(text), pat, 0)
    ensures Erase(IntendedTransPieces(env, text, pat)) == NoSpace(text)
  {
    TokensSpans(env, Words(text), pat, 0);
    SubstituteTokensKeepText(env, Words(text), pat, 0);
    ConcatWords(text);
  }

  /** What `sub(ruby_regex, colorize_ruby_sub, text, count)` makes of a
      fragment. */
  function RubyPieces(env: Env, text: string, count: nat): seq<Piece> {
    Substitute(env.scan(RubyRegex, text), ColorizeRubySub(env), count)
  }

  /** Whole-ruby colouring yields one piece per segment, in order: text
      between units as it is, each of the first `count` ruby units (all when
      `count` is 0) as a tone span around the whole unit with the tone of its
      syllable, any later unit as its bare text; so there are as many spans
      as units replaced. */
  lemma RubyShape(env: Env, text: string, count: nat)
    ensures var segs := env.scan(RubyRegex, text);
      var ps := RubyPieces(env, text, count);
      && |ps| == |segs|
      && (forall k :: 0 <= k < |segs| ==>
           && (segs[k].Gap? ==> ps[k] == Raw(segs[k].text))
           && (segs[k].Hit? && Replaces(count, Hits(segs[..k])) ==>
                 ps[k] == ToneSpan(env.toneNumber(segs[k].m.group2), segs[k].m.whole))
           && (segs[k].Hit? && !Replaces(count, Hits(segs[..k])) ==> ps[k] == Raw(segs[k].m.whole)))
      && Spans(ps) == if count == 0 then Hits(segs) else Min(Hits(segs), count)
  {
    ToneSpanCallbacks(env);
    SubstituteShape(env.scan(RubyRegex, text), ColorizeRubySub(env), count);
    SubstituteSpans(env.scan(RubyRegex, text), ColorizeRubySub(env), count);
  }

  /** As written: a fragment holding three ruby units comes out with the
      first two in tone spans and the third left bare. */
  lemma ThreeUnitRuby(env: Env, text: string, m1: Match, m2: Match, m3: Match)
    requires env.scan(RubyRegex, text) == [Hit(m1), Hit(m2), Hit(m3)]
    ensures RubyPieces(env, text, IgnoreCase)
         == [ToneSpan(env.toneNumber(m1.group2), m1.whole), ToneSpan(env.toneNumber(m2.group2), m2.whole), Raw(m3.whole)]
  {
    var segs := env.scan(RubyRegex, text);
    RubyShape(env, text, IgnoreCase);
    assert segs[..0] == [];
    assert segs[..1] == [Hit(m1)] && [Hit(m1)][..0] == [];
    assert segs[..2] == [Hit(m1), Hit(m2)] && [Hit(m1), Hit(m2)][..1] == [Hit(m1)];
  }

  /** With no count, every ruby unit of the fragment becomes a tone span,
      and removing the spans gives back the fragment. */
  lemma IntendedRubySpans(env: Env, text: string)
    requires ScansFaithfully(env)
    ensures Spans(RubyPieces(env, text, 0)) == Hits(env.scan(RubyRegex, text))
    ensures Erase(RubyPieces(env, text, 0)) == text
  {
    RubyShape(env, text, 0);
    ToneSpanCallbacks(env);
    SubstituteKeepsText(env.scan(RubyRegex, text), ColorizeRubySub(env), 0);
  }

  /** The fragment after `no_color` and `extract_tags`: its text and its
      sound tags. */
  function Prepared(env: Env, word: string): (string, string) {
    env.extractTags(env.noColor(word))
  }

  /** What the loop body of `colorize` makes of one fragment. */
  function FragmentPieces(env: Env, word: string, target: string, rubyWhole: bool): Result<seq<Piece>, Error> {
    var (text, soundTags) := Prepared(env, word);
    if env.hasRuby(text) then
      if rubyWhole then Ok(RubyPieces(env, text, IgnoreCase) + [Raw(soundTags)])
      else Ok(TransPieces(env, text, HalfRubyRegex) + [Raw(soundTags)])
    else if target == "pinyin" then Ok(TransPieces(env, text, PinyinRegex) + [Raw(soundTags)])
    else if target == "jyutping" then Ok(TransPieces(env, text, JyutpingRegex) + [Raw(soundTags)])
    else Err(NotImplemented(target))
  }

  /** One pass of the loop body of `colorize`: the fragment's output, or the
      exception it raises. */
  function ColorizeFragment(env: Env, target: string, rubyWhole: bool): string -> Result<string, Error> {
    (word: string) =>
      match FragmentPieces(env, word, target, rubyWhole)
      case Err(e) => Err(e)
      case Ok(ps) => Ok(Render(env, ps))
  }

  /** What `colorize(words, target, ruby_whole)` returns or raises. */
  function ColorizeResult(env: Env, words: seq<string>, target: string, rubyWhole: bool): Result<string, Error> {
    match MapAll(words, ColorizeFragment(env, target, rubyWhole))
    case Err(e) => Err(e)
    case Ok(done) => Ok(Join(" ", done))
  }

  /** colorize: strips old colour, sets the sound tags aside, colours the
      fragment by one of the four strategies, re-attaches the tags, and
      joins the fragments with single spaces. */
  method Colorize(env: Env, words: seq<string>, target: string := "pinyin", rubyWhole: bool := false)
    returns (r: Result<string, Error>)
    ensures r == ColorizeResult(env, words, target, rubyWhole)
  {
    var colorized: seq<string> := [];
    for i := 0 to |words|
      invariant MapAll(words[..i], ColorizeFragment(env, target, rubyWhole)) == Ok(colorized)
    {
      assert words[..i + 1][..i] == words[..i];
      var text := env.noColor(words[i]);
      var tagged := env.extractTags(text);
      var soundTags := tagged.1;
      text := tagged.0;
      ghost var body: seq<Piece>;
      if env.hasRuby(text) {
        if rubyWhole {
          body := RubyPieces(env, text, IgnoreCase);
          text := Render(env, Substitute(env.scan(RubyRegex, text), ColorizeRubySub(env), IgnoreCase));
        } else {
          body := TransPieces(env, text, HalfRubyRegex);
          text := ColorizeTransSub(env, text, HalfRubyRegex);
        }
      } else if target == "pinyin" {
        body := TransPieces(env, text, PinyinRegex);
        text := ColorizeTransSub(env, text, PinyinRegex);
      } else if target == "jyutping" {
        body := TransPieces(env, text, JyutpingRegex);
        text := ColorizeTransSub(env, text, JyutpingRegex);
      } else {
        MapAllOutcome(words, ColorizeFragment(env, target, rubyWhole));
        assert ColorizeFragment(env, target, rubyWhole)(words[i]).Err?;
        return Err(NotImplemented(target));
      }
      RenderAppend(env, body, [Raw(soundTags)]);
      RenderSingle(env, Raw(soundTags));
      assert ColorizeFragment(env, target, rubyWhole)(words[i]) == Ok(text + soundTags);
      colorized := colorized + [text + soundTags];
    }
    assert words[..|words|] == words;
    r := Ok(Join(" ", colorized));
  }

  /** A fragment raises exactly when it carries no ruby and the scheme is
      neither pinyin nor jyutping, and the exception names the scheme. */
  lemma FragmentRaises(env: Env, word: string, target: string, rubyWhole: bool)
    ensures var res := FragmentPieces(env, word, target, rubyWhole);
      && (res.Err? <==> !env.hasRuby(Prepared(env, word).0) && !Supported(target))
      && (res.Err? ==> res.error == NotImplemented(target))
  {
  }

  /** A fragment that does not raise ends with its sound tags, unchanged and
      outside any span, and removing the spans from the rest gives back its
      text: whole when ruby is coloured whole, with whitespace removed in the
      token-by-token strategies. */
  lemma FragmentKeepsText(env: Env, word: string, target: string, rubyWhole: bool)
    requires ScansFaithfully(env)
    requires FragmentPieces(env, word, target, rubyWhole).Ok?
    ensures var (text, soundTags) := Prepared(env, word);
      var ps := FragmentPieces(env, word, target, rubyWhole).value;
      && ps != [] && ps[|ps| - 1] == Raw(soundTags)
      && Render(env, ps) == Render(env, ps[..|ps| - 1]) + soundTags
      && Erase(ps[..|ps| - 1]) == (if env.hasRuby(text) && rubyWhole then text else NoSpace(text))
  {
    var (text, soundTags) := Prepared(env, word);
    var ps := FragmentPieces(env, word, target, rubyWhole).value;
    var body := ps[..|ps| - 1];
    assert ps == body + [Raw(soundTags)];
    RenderAppend(env, body, [Raw(soundTags)]);
    RenderSingle(env, Raw(soundTags));
    if env.hasRuby(text) && rubyWhole {
      ToneSpanCallbacks(env);
      SubstituteKeepsText(env.scan(RubyRegex, text), ColorizeRubySub(env), IgnoreCase);
    } else if env.hasRuby(text) {
      TransKeepsText(env, text, HalfRubyRegex);
    } else if target == "pinyin" {
      TransKeepsText(env, text, PinyinRegex);
    } else {
      TransKeepsText(env, text, JyutpingRegex);
    }
  }

  /** Which strategy colours a fragment, told by its tone spans: a fragment
      coloured whole gets one span per ruby unit, up to the count; otherwise
      each token gets one span per syllable, up to the count, of the
      half-ruby pattern when the fragment has ruby and of the pinyin or the
      jyutping pattern, as `target` names, when it has not. The sound tags
      hold no span. */
  lemma FragmentSpans(env: Env, word: string, target: string, rubyWhole: bool)
    requires FragmentPieces(env, word, target, rubyWhole).Ok?
    ensures var text := Prepared(env, word).0;
      Spans(FragmentPieces(env, word, target, rubyWhole).value) ==
        if env.hasRuby(text) && rubyWhole then Min(Hits(env.scan(RubyRegex, text)), IgnoreCase)
        else if env.hasRuby(text) then ReplacedHits(env, Words(text), HalfRubyRegex, IgnoreCase)
        else if target == "pinyin" then ReplacedHits(env, Words(text), PinyinRegex, IgnoreCase)
        else ReplacedHits(env, Words(text), JyutpingRegex, IgnoreCase)
  {
    var (text, soundTags) := Prepared(env, word);
    var ps := FragmentPieces(env, word, target, rubyWhole).value;
    var body := ps[..|ps| - 1];
    assert ps == body + [Raw(soundTags)];
    SpansAppend(body, [Raw(soundTags)]);
    assert [Raw(soundTags)][..0] == [];
    if env.hasRuby(text) && rubyWhole {
      RubyShape(env, text, IgnoreCase);
    } else if env.hasRuby(text) {
      TransSpans(env, text, HalfRubyRegex);
    } else if target == "pinyin" {
      TransSpans(env, text, PinyinRegex);
    } else {
      TransSpans(env, text, JyutpingRegex);
    }
  }

  /** colorize raises NotImplementedError(target) exactly when the scheme is
      neither pinyin nor jyutping and some fragment carries no ruby;
      fragments with ruby never consult the scheme, and an empty list gives
      the empty string. */
  lemma ColorizeRaises(env: Env, words: seq<string>, target: string, rubyWhole: bool)
    ensures var res := ColorizeResult(env, words, target, rubyWhole);
      && (res.Err? <==> !Supported(target) && exists j :: 0 <= j < |words| && !env.hasRuby(Prepared(env, words[j]).0))
      && (res.Err? ==> res.error == NotImplemented(target))
      && (words == [] ==> res == Ok(""))
  {
    var f := ColorizeFragment(env, target, rubyWhole);
    MapAllOutcome(words, f);
    forall j | 0 <= j < |words|
      ensures f(words[j]).Err? <==> !env.hasRuby(Prepared(env, words[j]).0) && !Supported(target)
      ensures f(words[j]).Err? ==> f(words[j]).error == NotImplemented(target)
    {
      FragmentRaises(env, words[j], target, rubyWhole);
    }
  }

  /** EndsWith(s, t): `s.endswith(t)`. */
  predicate EndsWith(s: string, t: string) {
    |t| <= |s| && s[|s| - |t|..] == t
  }

  /** When colorize succeeds its output is the fragments' outputs, one per
      fragment, in input order, joined by single spaces; each output ends
      with that fragment's sound tags, unchanged. */
  lemma ColorizeOutput(env: Env, words: seq<string>, target: string, rubyWhole: bool)
    requires ScansFaithfully(env)
    requires ColorizeResult(env, words, target, rubyWhole).Ok?
    ensures var outs := MapAll(words, ColorizeFragment(env, target, rubyWhole));
      && outs.Ok?
      && ColorizeResult(env, words, target, rubyWhole).value == Join(" ", outs.value)
      && |outs.value| == |words|
      && (forall j :: 0 <= j < |words| ==> ColorizeFragment(env, target, rubyWhole)(words[j]) == Ok(outs.value[j]))
      && (forall j :: 0 <= j < |words| ==> EndsWith(outs.value[j], Prepared(env, words[j]).1))
  {
    var f := ColorizeFragment(env, target, rubyWhole);
    MapAllOutcome(words, f);
    var outs := MapAll(words, f).value;
    forall j | 0 <= j < |words|
      ensures EndsWith(outs[j], Prepared(env, words[j]).1)
    {
      assert f(words[j]) == Ok(outs[j]);
      FragmentKeepsText(env, words[j], target, rubyWhole);
      var ps := FragmentPieces(env, words[j], target, rubyWhole).value;
      var tags := Prepared(env, words[j]).1;
      var head := Render(env, ps[..|ps| - 1]);
      assert outs[j] == head + tags;
      assert (head + tags)[|head + tags| - |tags|..] == tags;
    }
  }

  /** Adding a fragment at the end adds a single space and that fragment's
      output. */
  lemma ColorizeSnoc(env: Env, words: seq<string>, w: string, target: string, rubyWhole: bool)
    requires words != []
    requires ColorizeResult(env, words, target, rubyWhole).Ok?
    requires FragmentPieces(env, w, target, rubyWhole).Ok?
    ensures ColorizeResult(env, words + [w], target, rubyWhole)
      == Ok(ColorizeResult(env, words, target, rubyWhole).value + " "
            + Render(env, FragmentPieces(env, w, target, rubyWhole).value))
  {
    var all := words + [w];
    var f := ColorizeFragment(env, target, rubyWhole);
    assert all[..|all| - 1] == words;
    assert f(w) == Ok(Render(env, FragmentPieces(env, w, target, rubyWhole).value));
    MapAllOutcome(words, f);
  }
}
