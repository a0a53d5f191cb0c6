/** The HTML the engine emits, kept as a list of pieces until it is rendered
    to a string, so that what each piece holds can be stated. */
module Markup {
  import opened Results
  import opened Foreign

  datatype Piece =
    | Raw(text: string)                                   // text passed through unchanged
    | ToneSpan(tone: Tone, body: string)                  // the tone span color.py formats itself
    | Colored(tone: Tone, chars: string)                  // the plain colour template
    | ColoredRuby(tone: Tone, chars: string, trans: string)  // the ruby colour template

  const SpanOpen: string := "<span class=\"tone"
  const SpanClose: string := "</span>"

  function ToneDigit(t: Tone): char {
    (('0' as int) + t) as char
  }

  /** The literal tone span color.py formats itself. */
  function ToneSpanMarkup(t: Tone, body: string): string {
    SpanOpen + [ToneDigit(t)] + "\">" + body + SpanClose
  }

  /** Reads back the tone class and the wrapped text of a literal tone span. */
  function ParseToneSpan(s: string): Option<(Tone, string)> {
    var n := |SpanOpen|;
    if |s| < n + 3 + |SpanClose| || s[..n] != SpanOpen || s[n + 1..n + 3] != "\">"
       || s[|s| - |SpanClose|..] != SpanClose || !('1' <= s[n] <= '5')
    then None
    else Some(((s[n] as int) - ('0' as int), s[n + 3..|s| - |SpanClose|]))
  }

  /** The tone class and the wrapped text survive the literal span: the
      markup can be read back into exactly what was wrapped. */
  lemma ParseToneSpanMarkup(t: Tone, body: string)
    ensures ParseToneSpan(ToneSpanMarkup(t, body)) == Some((t, body))
  {
    var s := ToneSpanMarkup(t, body);
    var n := |SpanOpen|;
    assert s[..n] == SpanOpen;
    assert s[n] == ToneDigit(t);
    assert s[n + 1..n + 3] == "\">";
    assert s[n + 3..|s| - |SpanClose|] == body;
    assert s[|s| - |SpanClose|..] == SpanClose;
  }

  function RenderPiece(env: Env, p: Piece): string {
    match p
    case Raw(s) => s
    case ToneSpan(t, body) => ToneSpanMarkup(t, body)
    case Colored(t, c) => env.colorTemplate(t, c)
    case ColoredRuby(t, c, tr) => env.colorRubyTemplate(t, c, tr)
  }

  /** The string the pieces stand for, in order. */
  function Render(env: Env, ps: seq<Piece>): string {
    if ps == [] then [] else Render(env, ps[..|ps| - 1]) + RenderPiece(env, ps[|ps| - 1])
  }

  /** The text a piece shows once its markup is removed. */
  function ErasePiece(p: Piece): string {
    match p
    case Raw(s) => s
    case ToneSpan(_, body) => body
    case Colored(_, c) => c
    case ColoredRuby(_, c, tr) => c + tr
  }

  /** The text the pieces show once their markup is removed. */
  function Erase(ps: seq<Piece>): string {
    if ps == [] then [] else Erase(ps[..|ps| - 1]) + ErasePiece(ps[|ps| - 1])
  }

  lemma RenderSingle(env: Env, p: Piece)
    ensures Render(env, [p]) == RenderPiece(env, p)
  {
    assert [p][..0] == [];
  }

  lemma EraseSingle(p: Piece)
    ensures Erase([p]) == ErasePiece(p)
  {
    assert [p][..0] == [];
  }

  lemma {:induction false} RenderAppend(env: Env, a: seq<Piece>, b: seq<Piece>)
    ensures Render(env, a + b) == Render(env, a) + Render(env, b)
    decreases |b|
  {
    if b == [] {
      assert a + b == a;
    } else {
      var init := b[..|b| - 1];
      var last := b[|b| - 1];
      assert (a + b)[..|a + b| - 1] == a + init;
      assert (a + b)[|a + b| - 1] == last;
      calc {
        Render(env, a + b);
        Render(env, a + init) + RenderPiece(env, last);
        { RenderAppend(env, a, init); }
        Render(env, a) + Render(env, init) + RenderPiece(env, last);
      }
    }
  }

  lemma {:induction false} EraseAppend(a: seq<Piece>, b: seq<Piece>)
    ensures Erase(a + b) == Erase(a) + Erase(b)
    decreases |b|
  {
    if b == [] {
      assert a + b == a;
    } else {
      var init := b[..|b| - 1];
      var last := b[|b| - 1];
      assert (a + b)[..|a + b| - 1] == a + init;
      assert (a + b)[|a + b| - 1] == last;
      calc {
        Erase(a + b);
        Erase(a + init) + ErasePiece(last);
        { EraseAppend(a, init); }
        Erase(a) + Erase(init) + ErasePiece(last);
      }
    }
  }

  /** How many of the segments are matches. */
  function Hits(segs: seq<Segment>): nat {
    if segs == [] then 0 else Hits(segs[..|segs| - 1]) + (if segs[|segs| - 1].Hit? then 1 else 0)
  }

  /** Whether re.sub called with this `count` still replaces a match after
      `done` replacements: a count of 0 means no limit. */
  predicate Replaces(count: nat, done: nat) {
    count == 0 || done < count
  }

  /** re.sub(pattern, repl, string, count): the first `count` matches (all of
      them when `count` is 0) replaced by what the callback returns for them;
      the text between matches, and the matches past the count, kept as they
      are. */
  function Substitute(segs: seq<Segment>, repl: Match -> seq<Piece>, count: nat): seq<Piece> {
    if segs == [] then []
    else
      var init := segs[..|segs| - 1];
      Substitute(init, repl, count) + SegmentPieces(segs[|segs| - 1], repl, Replaces(count, Hits(init)))
  }

  /** What re.sub makes of one segment, given whether it still replaces. */
  function SegmentPieces(seg: Segment, repl: Match -> seq<Piece>, replace: bool): seq<Piece> {
    match seg
    case Gap(g) => [Raw(g)]
    case Hit(m) => if replace then repl(m) else [Raw(m.whole)]
  }

  /** A callback that only wraps its match leaves the text unchanged once
      the markup is removed, whatever the count. */
  lemma {:induction false} SubstituteKeepsText(segs: seq<Segment>, repl: Match -> seq<Piece>, count: nat)
    requires forall m :: Erase(repl(m)) == m.whole
    ensures Erase(Substitute(segs, repl, count)) == Original(segs)
    decreases |segs|
  {
    if segs != [] {
      var init, last := segs[..|segs| - 1], segs[|segs| - 1];
      var replace := Replaces(count, Hits(init));
      SubstituteKeepsText(init, repl, count);
      EraseAppend(Substitute(init, repl, count), SegmentPieces(last, repl, replace));
      match last
      case Gap(g) => EraseSingle(Raw(g));
      case Hit(m) =>
        if !replace {
          EraseSingle(Raw(m.whole));
        }
    }
  }

  /** Text with no match comes out of re.sub exactly as it went in. */
  lemma {:induction false} SubstituteNoMatch(env: Env, segs: seq<Segment>, repl: Match -> seq<Piece>, count: nat)
    requires forall i :: 0 <= i < |segs| ==> segs[i].Gap?
    ensures Render(env, Substitute(segs, repl, count)) == Original(segs)
    decreases |segs|
  {
    if segs != [] {
      var init := segs[..|segs| - 1];
      SubstituteNoMatch(env, init, repl, count);
      RenderAppend(env, Substitute(init, repl, count), [Raw(segs[|segs| - 1].text)]);
      RenderSingle(env, Raw(segs[|segs| - 1].text));
    }
  }

  /** `p` is what re.sub leaves at the place of `seg` when the callback
      returns one piece: a gap as raw text, a match it still replaces as the
      callback's piece, and a match past the count as its raw text. */
  predicate ShapedAs(p: Piece, seg: Segment, repl: Match -> seq<Piece>, replace: bool) {
    match seg
    case Gap(g) => p == Raw(g)
    case Hit(m) => if replace then repl(m) == [p] else p == Raw(m.whole)
  }

  /** With a callback that returns one piece, re.sub yields one piece per
      segment, in order, each shaped by its segment and by whether fewer
      than `count` matches come before it. */
  lemma {:induction false} SubstituteShape(segs: seq<Segment>, repl: Match -> seq<Piece>, count: nat)
    requires forall m :: |repl(m)| == 1
    ensures |Substitute(segs, repl, count)| == |segs|
    ensures forall k :: 0 <= k < |segs| ==>
      ShapedAs(Substitute(segs, repl, count)[k], segs[k], repl, Replaces(count, Hits(segs[..k])))
    decreases |segs|
  {
    if segs != [] {
      var n := |segs| - 1;
      var init := segs[..n];
      SubstituteShape(init, repl, count);
      var done := Substitute(init, repl, count);
      var ps := Substitute(segs, repl, count);
      var tail := SegmentPieces(segs[n], repl, Replaces(count, Hits(init)));
      assert ps == done + tail;
      match segs[n] {
        case Gap(_) =>
        case Hit(m) => assert |repl(m)| == 1;
      }
      assert |tail| == 1;
      assert |ps| == |segs|;
      forall k | 0 <= k < |segs|
        ensures ShapedAs(ps[k], segs[k], repl, Replaces(count, Hits(segs[..k])))
      {
        if k < n {
          assert ps[k] == done[k] && segs[k] == init[k] && segs[..k] == init[..k];
        } else {
          assert segs[..k] == init;
        }
      }
    }
  }

  /** How many tone spans the pieces hold. */
  function Spans(ps: seq<Piece>): nat {
    if ps == [] then 0 else Spans(ps[..|ps| - 1]) + (if ps[|ps| - 1].ToneSpan? then 1 else 0)
  }

  lemma {:induction false} SpansAppend(a: seq<Piece>, b: seq<Piece>)
    ensures Spans(a + b) == Spans(a) + Spans(b)
    decreases |b|
  {
    if b == [] {
      assert a + b == a;
    } else {
      var init := b[..|b| - 1];
      assert (a + b)[..|a + b| - 1] == a + init;
      assert (a + b)[|a + b| - 1] == b[|b| - 1];
      SpansAppend(a, init);
    }
  }

  /** With a callback that wraps each match in one tone span, re.sub makes
      as many spans as it replaces matches: every match when `count` is 0,
      otherwise no more than `count`. */
  lemma {:induction false} SubstituteSpans(segs: seq<Segment>, repl: Match -> seq<Piece>, count: nat)
    requires forall m :: |repl(m)| == 1 && repl(m)[0].ToneSpan?
    ensures Spans(Substitute(segs, repl, count)) == if count == 0 then Hits(segs) else Min(Hits(segs), count)
    decreases |segs|
  {
    if segs != [] {
      var init, last := segs[..|segs| - 1], segs[|segs| - 1];
      var pieces := SegmentPieces(last, repl, Replaces(count, Hits(init)));
      SubstituteSpans(init, repl, count);
      SpansAppend(Substitute(init, repl, count), pieces);
      assert |pieces| == 1 && pieces[..0] == [];
    }
  }
}
