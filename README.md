# Tone colouring of hanzi and romanised syllables

A Dafny model of the tone-colouring engine of Chinese Support Redux
(`chinese/color.py`). The engine turns hanzi and their pinyin or jyutping
syllables into HTML spans whose CSS class names the tone. It has three layers:

- `colorize_fuse` aligns a list of characters with a list of syllables by
  position. It drops pairs with a missing side and passes punctuation pairs
  through as bare text. Every other pair becomes a ruby span (character and
  syllable) or a plain span (character only).
- `colorize_dict` rewrites each `hanzi[transcript]` dictionary entry.
  - A hanzi run with exactly one `|` is split there. The first half is fused
    in ruby mode and the second in plain mode, both against the whole
    syllable list, with the `|` kept between them.
  - Any other run is fused once, in ruby mode.
- `colorize` processes each fragment of a list in turn:
  - it strips old colour and sets the trailing sound tags aside;
  - it colours the rest by one of four strategies: whole ruby, half ruby,
    pinyin or jyutping;
  - it raises `NotImplementedError` for an unknown scheme;
  - it re-attaches the tags and joins the fragments with single spaces.

Layout:

- `results.dfy` (module `Results`): `Option`, `Result`, and `MapAll`, a loop
  in which the first exception raised stops everything.
- `pystr.dfy` (module `PyStr`): the Python string operations the engine uses:
  `str.split()`, `str.split('|')`, `str.count`, `sep.join`.
- `foreign.dfy` (module `Foreign`): the collaborators from other modules of
  the add-on. Each is a field of the record `Env`, with `tone_number` ranging
  over 1..5. `re.sub` is modelled as a scanner that cuts a string into gaps
  and matches. `util.align` is defined as zip-longest.
- `markup.dfy` (module `Markup`): the output as a list of pieces.
  - `Render` turns the pieces into the emitted string.
  - `Erase` gives the text the pieces show once their markup is removed.
  - `Substitute` is `re.sub` with a callback and a count.
- `color.dfy` (module `Color`): the three operations and their callbacks.

Each loop in the source that builds a string (`colorize_fuse`,
`colorize_trans_sub`, `_sub` and the `re.sub` of `colorize_dict`) is a method
that builds it the way the source does. The method's postcondition equates
that string with `Render` of a list of pieces computed by a function, and the
lemmas state what those pieces are. The loop of `colorize` builds a list and
joins it: `Color.Colorize` is equated with `ColorizeResult`, the single-space
join of `MapAll` applied to the fragments, and the lemmas state what each
fragment's output is.

Three behaviours of the code worth knowing:

- An unknown scheme raises only on reaching a fragment without ruby, so a
  list whose fragments all carry ruby is coloured whatever the scheme, and
  an empty list gives `''` (`Color.ColorizeRaises`).
- A hanzi run with two or more `|` is fused once, in ruby mode, delimiters
  included (`Color.DictEntryWhole`).
- `colorize` passes `IGNORECASE` to `re.sub` in the place of its `count`
  argument, so each token of a transcript and each whole-ruby fragment gets
  at most two replacements. The flag never reaches `re.sub`'s `flags`, so
  it has no effect on matching (see Findings).

## Model

| member | source | states |
|---|---|---|
| Foreign.Align | chinese/color.py:111 | the aligned list is as long as the longer input; position i pairs the i-th character with the i-th syllable, with None where a list is too short |
| Color.PairRender | chinese/color.py:111-122 | one pair adds nothing when either side is None; the bare character when both sides are punctuation; otherwise the ruby template (tone from the syllable, character and syllable) or the plain template (tone from the syllable, character only) |
| Color.ColorizeFuse | chinese/color.py:105-124 | the string built pair by pair, with the default `ruby=False`, equals the rendering of the fused pieces |
| Color.FuseShape | chinese/color.py:109-124 | exactly one piece per position both lists have, in order, so min(len(chars), len(trans)) pieces; each depends only on that position's character and syllable |
| Color.FusePieceAt | chinese/color.py:114-122 | the piece at a position: bare character with the syllable dropped for punctuation pairs; ruby span with character and syllable in ruby mode; plain span with the character alone otherwise; tone from the syllable |
| Color.FuseDropsUnmatched | chinese/color.py:111-113 | characters or syllables beyond the shorter list change nothing: fusing the full lists equals fusing their common prefix |
| Color.FusePlainShowsCharacters | chinese/color.py:117-122 | in plain mode the markup shows the characters of the common prefix, each once, in order, and no syllable |
| Color.SubEntry | chinese/color.py:82-100 | the replacement built for one dictionary entry equals the rendering of that entry's pieces |
| PyStr.SplitOnOnce | chinese/color.py:88-89 | a run with exactly one delimiter splits into two parts, neither containing it, that rejoin around it to the run |
| PyStr.JoinSplitOn | chinese/color.py:89 | splitting on a character and rejoining with it gives back the string |
| Color.DictEntryFused | chinese/color.py:88-96 | with exactly one delimiter: ruby-mode fuse of the first half, then the delimiter, then plain-mode fuse of the second half, both against the same full syllable list |
| Color.DictEntryWhole | chinese/color.py:97-98 | with zero or two or more delimiters: one ruby-mode fuse of the whole run against the syllable list |
| Color.DictEntryModes | chinese/color.py:88-98 | with one delimiter: only ruby spans or bare text before the delimiter, which is emitted bare, and only plain spans or bare text after it; otherwise only ruby spans or bare text |
| Color.DictStep | chinese/color.py:102 | one more segment of the scanned text adds its gap unchanged, or the entry replacement for a match |
| Color.ColorizeDict | chinese/color.py:79-102 | the substituted text equals the rendering of every entry replaced by its pieces, with the text between entries kept |
| Color.DictWithoutEntries | chinese/color.py:102 | text holding no dictionary entry comes back unchanged |
| Markup.SubstituteNoMatch | chinese/color.py:102 | text with no match comes out of the substitution exactly as it went in |
| Markup.SubstituteKeepsText | chinese/color.py:54 | a callback that only wraps its match leaves the text unchanged once the markup is removed, whatever the count |
| Markup.SubstituteShape | chinese/color.py:54 | with a one-piece callback, one piece per segment in order: a gap as raw text, each of the first `count` matches (all for count 0) as the callback's piece, a later match as its raw text |
| Markup.SubstituteSpans | chinese/color.py:54 | with a callback that wraps each match in one tone span, there are as many spans as matches for count 0, otherwise min(matches, count) |
| Color.ToneSpanCallbacks | chinese/color.py:41-50 | `colorize_ruby_sub` and `repl` return one tone span that reads back as the tone of group 2 (ruby unit) or group 1 (syllable) and exactly the matched text; removing it leaves the match |
| Markup.ParseToneSpanMarkup | chinese/color.py:42-44 | the tone span can be read back into the tone digit and exactly the wrapped text |
| Color.TokenStep | chinese/color.py:53-54 | each token adds its own substitution to the end of the output |
| Color.ColorizeTransSub | chinese/color.py:46-55 | the string built token by token equals the rendering of each token of `text.split()` substituted with `repl` and count 2, run together with no separator |
| Color.TokenShape | chinese/color.py:47-54 | a token yields one piece per segment: text between syllables as is, each of the first `count` syllables in a tone span with the tone of its group 1, later syllables bare |
| Color.TokensSpans | chinese/color.py:52-55 | the tone spans of the run-together tokens are exactly the replaced syllables: per token all of them for count 0, otherwise at most `count` |
| Color.TransSpans | chinese/color.py:52-55 | as written, at most two spans per token, so at most twice the number of tokens |
| Color.TransKeepsText | chinese/color.py:52-55 | with the spans removed, the output is the input with its whitespace, and nothing else, removed |
| Color.RubyShape | chinese/color.py:64 | whole-ruby colouring yields one piece per segment: text between units as is, each of the first `count` ruby units wrapped whole in a tone span with the tone of its group 2, later units bare; as many spans as units replaced |
| Color.ThreeSyllableToken | chinese/color.py:54 | as written, a token with three syllables comes out with the first two in tone spans and the third bare |
| Color.IntendedTransSpans | chinese/color.py:54 | with no count, every syllable of every token becomes a tone span, and the text without whitespace is kept |
| Color.ThreeUnitRuby | chinese/color.py:64 | as written, a fragment with three ruby units comes out with the first two in tone spans and the third bare |
| Color.IntendedRubySpans | chinese/color.py:64 | with no count, every ruby unit becomes a tone span, and the fragment's text is kept |
| Results.MapAllOutcome | chinese/color.py:57-74 | the loop raises exactly when some fragment raises, with the first such fragment's exception; otherwise it yields one output per fragment, at the same position |
| Color.Colorize | chinese/color.py:36-76 | the fragment loop, with the defaults `target='pinyin'` and `ruby_whole=False`, returns the joined outputs, or raises as the per-fragment step does |
| Color.FragmentSpans | chinese/color.py:62-70 | a fragment's span count names its strategy: min(ruby units, 2) when coloured whole; otherwise the syllables replaced, at most two per token, of the half-ruby pattern when it has ruby, else of the pinyin or the jyutping pattern as `target` says; the sound tags add none |
| Color.FragmentRaises | chinese/color.py:62-72 | a fragment raises exactly when it carries no ruby and the scheme is neither pinyin nor jyutping, and the error names the scheme |
| Color.FragmentKeepsText | chinese/color.py:59-74 | a fragment's output ends with its sound tags, bare; with the spans removed the rest is its text (whole for whole-ruby, whitespace removed otherwise) |
| Color.ColorizeRaises | chinese/color.py:57-76 | colorize raises NotImplementedError(target) exactly when the scheme is unsupported and some fragment has no ruby; an empty list gives '' |
| Color.ColorizeOutput | chinese/color.py:74-76 | on success the result is one output per fragment, the j-th being fragment j's coloured output, joined by single spaces, each ending with its fragment's sound tags |
| Color.ColorizeSnoc | chinese/color.py:74-76 | one more fragment appends a single space and that fragment's output |

## Left out

- The regular expressions `pinyin_regex`, `jyutping_regex`, `ruby_regex`,
  `half_ruby_regex` and `HANZI_RANGE` are defined in `chinese/consts.py`,
  which is not part of this model. Each is a `Pattern` tag. Its matches come
  from the scanner `Env.scan`, of which only `ScansFaithfully` (segments
  concatenate back to the input) is assumed where a lemma needs it.
- `IGNORECASE` never reaches `re.sub`'s `flags` in `chinese/color.py`, so it
  has no effect on matching. Whether a pattern matches case-insensitively is
  decided by the patterns of `chinese/consts.py`, which are not modelled; the
  scanner `Env.scan` reports whatever they match. The corrected members of
  the Findings fix only the count.
- `COLOR_TEMPLATE` and `COLOR_RUBY_TEMPLATE` are opaque formatters, because
  their text is in `chinese/consts.py`. The pieces record the tone and the
  text each span holds.
- `tone_number`, `sanitize_transcript`, `split_hanzi`, `extract_tags`,
  `has_ruby`, `is_punc` and `no_color` are total functions supplied in `Env`.
  They live in other modules of the add-on, which are not part of this model.
  Only `tone_number`'s range of 1 to 5 is assumed.
- The idempotence of colouring twice depends on `no_color`, which is not part
  of this model, so it is not stated.
- The `isinstance` assertions (chinese/color.py:39, 80, 106) are the
  parameter types `seq<string>` and `string`.
- `re.sub` only ever sees the matches the scanner reports. Overlap and
  lazy-group rules of Python's regex engine are not modelled.
- `Foreign.Align`: `util.align` is not part of this model. Its contract
  states zip-longest with `None` padding, which is the only behaviour the
  engine relies on.

## Findings

| source | as written | input that shows it | evidently intended | confidence | as-written member | corrected member |
|---|---|---|---|---|---|---|
| chinese/color.py:54 | `IGNORECASE` (value 2) is passed where `re.sub` takes `count`, so each token gets at most two tone spans and the flag has no effect on matching | a token in which the pattern finds three syllables: the third is left bare | `flags=IGNORECASE`: every syllable coloured | high; not executed | Color.ThreeSyllableToken | Color.IntendedTransSpans |
| chinese/color.py:64 | the same argument caps whole-ruby colouring at two ruby units per fragment | a fragment holding three ruby units: the third is left bare | `flags=IGNORECASE`: every ruby unit coloured | high; not executed | Color.ThreeUnitRuby | Color.IntendedRubySpans |

The operations `Color.ColorizeTransSub` and `Color.Colorize` model the code as
written, with the count of 2; `Color.IntendedTransPieces` and
`Color.RubyPieces` with count 0 are the corrected colourings.
