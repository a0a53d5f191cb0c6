/** The collaborators of the colouring engine that live in other modules of
    the add-on (`hanzi`, `sound`, `transcribe`, `util`, `ruby`, `consts`).
    Their bodies are not part of this model: each is a field of `Env`, a total
    function the caller supplies, and only what the engine relies on is
    assumed of it. `align` is the exception: its whole contract (pair by
    position, pad the shorter list with `None`) is what the engine uses, so
    it is defined here. */
module Foreign {
  import opened Results

  /** The tone class `tone_number` returns: 1 to 4, 5 for the neutral tone. */
  type Tone = t: int | 1 <= t <= 5 witness 5

  /** The regular expressions of `consts` that the engine substitutes with,
      and the dictionary-entry pattern `([<hanzi>|]+)\[(.*?)\]`. */
  datatype Pattern = PinyinRegex | JyutpingRegex | RubyRegex | HalfRubyRegex | DictEntryRegex

  /** One match of a pattern: the matched text and its first two groups. */
  datatype Match = Match(whole: string, group1: string, group2: string)

  /** A string cut into the stretches a pattern leaves alone and its
      non-overlapping matches, in order. */
  datatype Segment = Gap(text: string) | Hit(m: Match)

  /** The text a list of segments was cut from. */
  function Original(segs: seq<Segment>): string {
    if segs == [] then []
    else
      Original(segs[..|segs| - 1]) +
      match segs[|segs| - 1]
      case Gap(g) => g
      case Hit(m) => m.whole
  }

  datatype Env = Env(
    noColor: string -> string,                            // util.no_color
    extractTags: string -> (string, string),              // sound.extract_tags: (text, sound tags)
    hasRuby: string -> bool,                              // ruby.has_ruby
    toneNumber: string -> Tone,                           // transcribe.tone_number
    sanitizeTranscript: string -> seq<string>,            // transcribe.sanitize_transcript(_, 'pinyin', grouped=False)
    splitHanzi: string -> seq<string>,                    // hanzi.split_hanzi(_, grouped=False)
    isPunc: string -> bool,                               // util.is_punc
    scan: (Pattern, string) -> seq<Segment>,              // the non-overlapping matches re.sub finds; case handling is the pattern's own
    colorTemplate: (Tone, string) -> string,              // consts.COLOR_TEMPLATE.format(tone=, chars=)
    colorRubyTemplate: (Tone, string, string) -> string   // consts.COLOR_RUBY_TEMPLATE.format(tone=, chars=, trans=)
  )

  /** What re.sub guarantees of its matches: cutting a string into gaps and
      matches loses and invents nothing. */
  ghost predicate ScansFaithfully(env: Env) {
    forall p: Pattern, s: string :: Original(env.scan(p, s)) == s
  }

  function At<T>(xs: seq<T>, i: nat): Option<T> {
    if i < |xs| then Some(xs[i]) else None
  }

  function Max(a: nat, b: nat): nat { if a < b then b else a }

  function Min(a: nat, b: nat): nat { if a < b then a else b }

  /** util.align: pairs the two lists position by position, padding the
      shorter one with `None` up to the length of the longer. */
  function Align<T>(xs: seq<T>, ys: seq<T>): (pairs: seq<(Option<T>, Option<T>)>)
    ensures |pairs| == Max(|xs|, |ys|)
    ensures forall i :: 0 <= i < |pairs| ==> pairs[i] == (At(xs, i), At(ys, i))
    decreases |xs| + |ys|
  {
    if xs == [] && ys == [] then []
    else [(At(xs, 0), At(ys, 0))] + Align(if xs == [] then [] else xs[1..], if ys == [] then [] else ys[1..])
  }
}
