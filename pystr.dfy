/** The few Python string operations the colouring engine relies on:
    `str.split()` with no argument, `str.split(sep)`, `str.count(sep)`,
    `sep.join(parts)` and `''.join(parts)`. */
module PyStr {

  /** Python's `str.isspace()` for one character: the characters on which
      `str.split()` with no argument breaks a string. */
  predicate IsSpace(c: char) {
    c == ' ' || ('\t' <= c <= '\r') || ('\U{1C}' <= c <= '\U{1F}')
    || c == '\U{85}' || c == '\U{A0}' || c == '\U{1680}'
    || ('\U{2000}' <= c <= '\U{200A}')
    || c == '\U{2028}' || c == '\U{2029}' || c == '\U{202F}' || c == '\U{205F}'
    || c == '\U{3000}'
  }

  predicate SpaceFree(s: string) {
    forall i :: 0 <= i < |s| ==> !IsSpace(s[i])
  }

  /** `s` with every whitespace character removed. */
  function NoSpace(s: string): (r: string)
    ensures SpaceFree(r) && |r| <= |s|
  {
    if s == [] then []
    else (if IsSpace(s[0]) then [] else [s[0]]) + NoSpace(s[1..])
  }

  /** `''.join(ss)`. */
  function Concat(ss: seq<string>): string {
    if ss == [] then [] else Concat(ss[..|ss| - 1]) + ss[|ss| - 1]
  }

  /** `sep.join(ss)`. */
  function Join(sep: string, ss: seq<string>): string {
    if |ss| == 0 then []
    else if |ss| == 1 then ss[0]
    else Join(sep, ss[..|ss| - 1]) + sep + ss[|ss| - 1]
  }

  /** `s.count(c)` for a one-character `c`. */
  function Count(s: string, c: char): nat {
    if s == [] then 0 else (if s[0] == c then 1 else 0) + Count(s[1..], c)
  }

  /** Length of the run of non-space characters that starts `s`. */
  function WordLength(s: string): (n: nat)
    requires s != [] && !IsSpace(s[0])
    ensures 0 < n <= |s| && SpaceFree(s[..n])
    ensures n < |s| ==> IsSpace(s[n])
  {
    if |s| == 1 || IsSpace(s[1]) then 1 else 1 + WordLength(s[1..])
  }

  /** `s.split()`: the maximal runs of non-space characters, in order. */
  function Words(s: string): (ws: seq<string>)
    ensures forall i :: 0 <= i < |ws| ==> ws[i] != [] && SpaceFree(ws[i])
    decreases |s|
  {
    if s == [] then []
    else if IsSpace(s[0]) then Words(s[1..])
    else
      var n := WordLength(s);
      [s[..n]] + Words(s[n..])
  }

  /** `s.split(c)` for a one-character separator `c`: the pieces between
      occurrences of `c`, one more than there are occurrences. */
  function SplitOn(s: string, c: char): (parts: seq<string>)
    ensures |parts| == Count(s, c) + 1
  {
    if s == [] then [[]]
    else
      var rest := SplitOn(s[1..], c);
      if s[0] == c then [[]] + rest
      else [[s[0]] + rest[0]] + rest[1..]
  }

  lemma {:induction false} ConcatCons(w: string, ws: seq<string>)
    ensures Concat([w] + ws) == w + Concat(ws)
    decreases |ws|
  {
    if ws == [] {
      assert [w] + ws == [w];
      assert Concat([w]) == Concat([]) + w;
    } else {
      var init := ws[..|ws| - 1];
      assert ([w] + ws)[..|ws|] == [w] + init;
      ConcatCons(w, init);
    }
  }

  lemma {:induction false} JoinCons(sep: string, w: string, ws: seq<string>)
    requires ws != []
    ensures Join(sep, [w] + ws) == w + sep + Join(sep, ws)
    decreases |ws|
  {
    if |ws| == 1 {
      assert [w] + ws == [w, ws[0]];
      assert [w, ws[0]][..1] == [w];
    } else {
      var init := ws[..|ws| - 1];
      assert ([w] + ws)[..|ws|] == [w] + init;
      JoinCons(sep, w, init);
    }
  }

  lemma {:induction false} NoSpaceAppend(a: string, b: string)
    ensures NoSpace(a + b) == NoSpace(a) + NoSpace(b)
    decreases |a|
  {
    if a != [] {
      assert (a + b)[1..] == a[1..] + b;
      NoSpaceAppend(a[1..], b);
    } else {
      assert a + b == b;
    }
  }

  lemma {:induction false} NoSpaceOfSpaceFree(a: string)
    requires SpaceFree(a)
    ensures NoSpace(a) == a
    decreases |a|
  {
    if a != [] {
      NoSpaceOfSpaceFree(a[1..]);
    }
  }

  /** Concatenating what `s.split()` returns, with no separator, gives `s`
      with exactly its whitespace removed. */
  lemma {:induction false} ConcatWords(s: string)
    ensures Concat(Words(s)) == NoSpace(s)
    decreases |s|
  {
    if s == [] {
    } else if IsSpace(s[0]) {
      ConcatWords(s[1..]);
    } else {
      var n := WordLength(s);
      ConcatCons(s[..n], Words(s[n..]));
      ConcatWords(s[n..]);
      assert s == s[..n] + s[n..];
      NoSpaceAppend(s[..n], s[n..]);
      NoSpaceOfSpaceFree(s[..n]);
    }
  }

  /** Putting `x` in front of the first piece puts it in front of the
      joined string. */
  lemma JoinPrepend(sep: string, x: char, parts: seq<string>)
    requires parts != []
    ensures Join(sep, [[x] + parts[0]] + parts[1..]) == [x] + Join(sep, parts)
  {
    if |parts| == 1 {
      assert [[x] + parts[0]] + parts[1..] == [[x] + parts[0]];
    } else {
      var w, more := parts[0], parts[1..];
      assert parts == [w] + more;
      JoinCons(sep, w, more);
      JoinCons(sep, [x] + w, more);
      assert [x] + w + sep + Join(sep, more) == [x] + (w + sep + Join(sep, more));
    }
  }

  /** `c.join(s.split(c))` gives back `s`. */
  lemma {:induction false} JoinSplitOn(s: string, c: char)
    ensures Join([c], SplitOn(s, c)) == s
    decreases |s|
  {
    if s != [] {
      var rest := SplitOn(s[1..], c);
      JoinSplitOn(s[1..], c);
      assert s == [s[0]] + s[1..];
      if s[0] == c {
        assert SplitOn(s, c) == [[]] + rest;
        JoinCons([c], [], rest);
      } else {
        assert SplitOn(s, c) == [[s[0]] + rest[0]] + rest[1..];
        JoinPrepend([c], s[0], rest);
      }
    }
  }

  /** No piece of `s.split(c)` contains `c`. */
  lemma {:induction false} SplitOnSeparatorFree(s: string, c: char)
    ensures forall i :: 0 <= i < |SplitOn(s, c)| ==> c !in SplitOn(s, c)[i]
    decreases |s|
  {
    if s != [] {
      SplitOnSeparatorFree(s[1..], c);
      var rest := SplitOn(s[1..], c);
      if s[0] != c {
        assert c !in rest[0];
        assert c !in [s[0]] + rest[0];
      }
    }
  }

  /** When `c` occurs exactly once, `s.split(c)` yields the text before it
      and the text after it. */
  lemma SplitOnOnce(s: string, c: char)
    requires Count(s, c) == 1
    ensures var parts := SplitOn(s, c);
      |parts| == 2 && s == parts[0] + [c] + parts[1]
      && c !in parts[0] && c !in parts[1]
  {
    var parts := SplitOn(s, c);
    JoinSplitOn(s, c);
    SplitOnSeparatorFree(s, c);
    assert parts[..1] == [parts[0]];
  }
}
