/**
 * The two pieces of string handling the command parser relies on:
 * splitting a line into whitespace-separated words (`str::split_whitespace`)
 * and upper-casing a word (`str::to_uppercase`).
 */
module Text {

  /** A character with the Unicode White_Space property, which is what
      `char::is_whitespace` tests: tab, line feed, vertical tab, form feed,
      carriage return, space, next line, no-break space, Ogham space mark,
      the spaces U+2000 to U+200A, line and paragraph separators, narrow
      no-break space, medium mathematical space and ideographic space. */
  predicate IsWhitespace(c: char) {
    || ('\t' <= c <= '\r')
    || c == ' '
    || c == '\U{0085}'
    || c == '\U{00A0}'
    || c == '\U{1680}'
    || ('\U{2000}' <= c <= '\U{200A}')
    || c == '\U{2028}'
    || c == '\U{2029}'
    || c == '\U{202F}'
    || c == '\U{205F}'
    || c == '\U{3000}'
  }

  /** Nothing but whitespace (the empty string included). */
  predicate IsBlank(s: string) {
    forall i :: 0 <= i < |s| ==> IsWhitespace(s[i])
  }

  /** A word as `split_whitespace` yields it: non-empty, no whitespace. */
  predicate IsWord(t: string) {
    |t| > 0 && forall i :: 0 <= i < |t| ==> !IsWhitespace(t[i])
  }

  /** Length of the longest whitespace-free prefix of `s`. */
  function WordEnd(s: string): (n: nat)
    ensures n <= |s|
    ensures forall i :: 0 <= i < n ==> !IsWhitespace(s[i])
    ensures n < |s| ==> IsWhitespace(s[n])
  {
    if s == [] || IsWhitespace(s[0]) then 0 else 1 + WordEnd(s[1..])
  }

  /** The words of `s`, left to right: the maximal runs of non-whitespace
      characters, as `s.split_whitespace().collect::<Vec<&str>>()`. */
  function SplitWhitespace(s: string): (ws: seq<string>)
    ensures forall k :: 0 <= k < |ws| ==> IsWord(ws[k])
    ensures ws == [] <==> IsBlank(s)
    decreases |s|
  {
    if s == [] then []
    else if IsWhitespace(s[0]) then SplitWhitespace(s[1..])
    else
      var n := WordEnd(s);
      [s[..n]] + SplitWhitespace(s[n..])
  }

  /** The string made of the words `ws` with the gaps `gs` around and
      between them: gs[0] ws[0] gs[1] ws[1] ... ws[n-1] gs[n]. */
  function Layout(ws: seq<string>, gs: seq<string>): (s: string)
    requires |gs| == |ws| + 1
    ensures |s| >= |gs[0]|
    ensures forall i :: 0 <= i < |gs[0]| ==> s[i] == gs[0][i]
    decreases |ws|
  {
    if ws == [] then gs[0] else gs[0] + ws[0] + Layout(ws[1..], gs[1..])
  }

  /** Gaps that keep the words apart: all whitespace, and those between two
      words non-empty (the outer two may be empty). */
  predicate ValidGaps(ws: seq<string>, gs: seq<string>) {
    && |gs| == |ws| + 1
    && (forall k :: 0 <= k < |gs| ==> IsBlank(gs[k]))
    && (forall k :: 0 < k < |ws| ==> |gs[k]| > 0)
  }

  /** The whitespace runs of `s` around and between its words. */
  function Gaps(s: string): (gs: seq<string>)
    ensures |gs| == |SplitWhitespace(s)| + 1
    ensures s != [] && IsWhitespace(s[0]) ==> |gs[0]| > 0
    decreases |s|
  {
    if s == [] then [[]]
    else if IsWhitespace(s[0]) then
      var g := Gaps(s[1..]);
      [[s[0]] + g[0]] + g[1..]
    else
      [[]] + Gaps(s[WordEnd(s)..])
  }

  /** A blank prefix contributes no word. */
  lemma {:induction false} SplitSkipsBlank(b: string, s: string)
    requires IsBlank(b)
    ensures SplitWhitespace(b + s) == SplitWhitespace(s)
    decreases |b|
  {
    if b == [] {
      assert b + s == s;
    } else {
      assert (b + s)[0] == b[0] && (b + s)[1..] == b[1..] + s;
      SplitSkipsBlank(b[1..], s);
    }
  }

  /** A word followed by the end of the string or by whitespace ends there. */
  lemma {:induction false} WordEndOfWord(w: string, s: string)
    requires IsWord(w)
    requires s == [] || IsWhitespace(s[0])
    ensures WordEnd(w + s) == |w|
    decreases |w|
  {
    assert (w + s)[1..] == w[1..] + s;
    if |w| > 1 {
      WordEndOfWord(w[1..], s);
    } else {
      assert w[1..] + s == s;
    }
  }

  /** A word followed by the end of the string or by whitespace is split
      off whole. */
  lemma SplitWordThen(w: string, rest: string)
    requires IsWord(w)
    requires rest == [] || IsWhitespace(rest[0])
    ensures SplitWhitespace(w + rest) == [w] + SplitWhitespace(rest)
  {
    WordEndOfWord(w, rest);
    var s := w + rest;
    assert s[0] == w[0];
    assert s[..|w|] == w && s[|w|..] == rest;
  }

  /** Splitting yields the laid-out words back, whatever the gaps: the
      result of `split_whitespace` depends only on the words. */
  lemma {:induction false} SplitLayout(ws: seq<string>, gs: seq<string>)
    requires forall k :: 0 <= k < |ws| ==> IsWord(ws[k])
    requires ValidGaps(ws, gs)
    ensures SplitWhitespace(Layout(ws, gs)) == ws
    decreases |ws|
  {
    if ws == [] {
      SplitSkipsBlank(gs[0], []);
      assert gs[0] + [] == gs[0];
    } else {
      SplitLayout(ws[1..], gs[1..]);
      SplitLayoutStep(ws, gs);
    }
  }

  /** Step of SplitLayout: the first gap and the first word. */
  lemma SplitLayoutStep(ws: seq<string>, gs: seq<string>)
    requires ws != [] && IsWord(ws[0])
    requires ValidGaps(ws, gs)
    requires SplitWhitespace(Layout(ws[1..], gs[1..])) == ws[1..]
    ensures SplitWhitespace(Layout(ws, gs)) == ws
  {
    var w, g, rest := ws[0], gs[0], Layout(ws[1..], gs[1..]);
    assert Layout(ws, gs) == g + (w + rest);
    assert IsBlank(g);
    assert rest == [] || IsWhitespace(rest[0]) by {
      if |ws| > 1 {
        assert |gs[1]| > 0;
      }
    }
    SplitSkipsBlank(g, w + rest);
    SplitWordThen(w, rest);
    assert [w] + ws[1..] == ws;
  }

  /** Widening the first gap widens the laid-out string at its front. */
  lemma LayoutWidenFirstGap(w: string, ws: seq<string>, gs: seq<string>)
    requires |gs| == |ws| + 1
    ensures Layout(ws, [w + gs[0]] + gs[1..]) == w + Layout(ws, gs)
  {
    var hs := [w + gs[0]] + gs[1..];
    if ws != [] {
      assert hs[1..] == gs[1..];
    }
  }

  /** The gaps of `s` are whitespace and keep its words apart. */
  lemma {:induction false} GapsValid(s: string)
    ensures ValidGaps(SplitWhitespace(s), Gaps(s))
    decreases |s|
  {
    if s == [] {
    } else if IsWhitespace(s[0]) {
      GapsValid(s[1..]);
      GapsValidSpace(s);
    } else {
      GapsValid(s[WordEnd(s)..]);
      GapsValidWord(s);
    }
  }

  /** Step of GapsValid for a string that starts with whitespace. */
  lemma GapsValidSpace(s: string)
    requires s != [] && IsWhitespace(s[0])
    requires ValidGaps(SplitWhitespace(s[1..]), Gaps(s[1..]))
    ensures ValidGaps(SplitWhitespace(s), Gaps(s))
  {
    var g := Gaps(s[1..]);
    var gs := Gaps(s);
    assert gs[0] == [s[0]] + g[0];
    assert forall k :: 0 < k < |gs| ==> gs[k] == g[k];
    assert IsBlank(gs[0]) by {
      forall i | 0 <= i < |gs[0]| ensures IsWhitespace(gs[0][i]) {
        if i > 0 { assert gs[0][i] == g[0][i - 1]; }
      }
    }
  }

  /** Step of GapsValid for a string that starts with a word. */
  lemma GapsValidWord(s: string)
    requires s != [] && !IsWhitespace(s[0])
    requires ValidGaps(SplitWhitespace(s[WordEnd(s)..]), Gaps(s[WordEnd(s)..]))
    ensures ValidGaps(SplitWhitespace(s), Gaps(s))
  {
    var t := s[WordEnd(s)..];
    var gs := Gaps(s);
    assert forall k :: 0 < k < |gs| ==> gs[k] == Gaps(t)[k - 1];
    assert |SplitWhitespace(s)| == 1 + |SplitWhitespace(t)|;
    assert |SplitWhitespace(s)| > 1 ==> t != [] && IsWhitespace(t[0]);
  }

  /** Putting the gaps `Gaps(s)` back around the words of `s` gives `s`:
      no character other than whitespace between words is dropped. */
  lemma {:induction false} LayoutSplit(s: string)
    ensures Layout(SplitWhitespace(s), Gaps(s)) == s
    decreases |s|
  {
    if s == [] {
    } else if IsWhitespace(s[0]) {
      LayoutSplit(s[1..]);
      LayoutSplitSpace(s);
    } else {
      LayoutSplit(s[WordEnd(s)..]);
      LayoutSplitWord(s);
    }
  }

  /** Step of LayoutSplit for a string that starts with whitespace. */
  lemma LayoutSplitSpace(s: string)
    requires s != [] && IsWhitespace(s[0])
    requires Layout(SplitWhitespace(s[1..]), Gaps(s[1..])) == s[1..]
    ensures Layout(SplitWhitespace(s), Gaps(s)) == s
  {
    var ws, g := SplitWhitespace(s[1..]), Gaps(s[1..]);
    assert SplitWhitespace(s) == ws;
    assert Gaps(s) == [[s[0]] + g[0]] + g[1..];
    LayoutWidenFirstGap([s[0]], ws, g);
    assert [s[0]] + s[1..] == s;
  }

  lemma TakeDrop(s: string, n: nat)
    requires n <= |s|
    ensures s[..n] + s[n..] == s
  {
  }

  /** Laying out a first word with no gap in front of it. */
  lemma LayoutConsNoGap(w: string, ws: seq<string>, gs: seq<string>)
    requires |gs| == |ws| + 1
    ensures Layout([w] + ws, [[]] + gs) == w + Layout(ws, gs)
  {
    var hs := [[]] + gs;
    assert ([w] + ws)[1..] == ws && hs[1..] == gs;
    assert Layout([w] + ws, hs) == hs[0] + w + Layout(ws, gs);
    assert hs[0] + w == w;
  }

  /** Step of LayoutSplit for a string that starts with a word. */
  lemma LayoutSplitWord(s: string)
    requires s != [] && !IsWhitespace(s[0])
    requires Layout(SplitWhitespace(s[WordEnd(s)..]), Gaps(s[WordEnd(s)..])) == s[WordEnd(s)..]
    ensures Layout(SplitWhitespace(s), Gaps(s)) == s
  {
    var n := WordEnd(s);
    var t := s[n..];
    assert SplitWhitespace(s) == [s[..n]] + SplitWhitespace(t);
    assert Gaps(s) == [[]] + Gaps(t);
    LayoutConsNoGap(s[..n], SplitWhitespace(t), Gaps(t));
    TakeDrop(s, n);
  }

  /** The upper-case form of one character under `char::to_uppercase`, for
      the ASCII letters and for every character whose upper-case form is made
      of ASCII letters only: sharp s, dotless i, long s and the Latin
      ligatures U+FB00 to U+FB06. */
  function UpperChar(c: char): (u: string)
    ensures |u| > 0
    ensures IsWhitespace(c) ==> u == [c]
    ensures !IsWhitespace(c) ==> forall i :: 0 <= i < |u| ==> !IsWhitespace(u[i])
  {
    if 'a' <= c <= 'z' then [(c as int - 32) as char]
    else if c == '\U{00DF}' then "SS"
    else if c == '\U{0131}' then "I"
    else if c == '\U{017F}' then "S"
    else if c == '\U{FB00}' then "FF"
    else if c == '\U{FB01}' then "FI"
    else if c == '\U{FB02}' then "FL"
    else if c == '\U{FB03}' then "FFI"
    else if c == '\U{FB04}' then "FFL"
    else if c == '\U{FB05}' || c == '\U{FB06}' then "ST"
    else [c]
  }

  /** `str::to_uppercase`: each character replaced by its upper-case form. */
  function ToUpper(t: string): (u: string)
    ensures |u| >= |t|
    ensures forall i :: 0 <= i < |u| ==> !('a' <= u[i] <= 'z')
    decreases |t|
  {
    if t == [] then [] else UpperChar(t[0]) + ToUpper(t[1..])
  }

  /** Upper-casing works character by character, so it distributes over
      concatenation. */
  lemma {:induction false} ToUpperAppend(a: string, b: string)
    ensures ToUpper(a + b) == ToUpper(a) + ToUpper(b)
    decreases |a|
  {
    if a == [] {
      assert a + b == b;
    } else {
      assert (a + b)[0] == a[0] && (a + b)[1..] == a[1..] + b;
      ToUpperAppend(a[1..], b);
      calc {
        ToUpper(a + b);
        UpperChar(a[0]) + ToUpper(a[1..] + b);
        UpperChar(a[0]) + (ToUpper(a[1..]) + ToUpper(b));
        (UpperChar(a[0]) + ToUpper(a[1..])) + ToUpper(b);
      }
    }
  }

  /** Upper-casing a string of upper-case ASCII letters changes nothing. */
  lemma {:induction false} ToUpperKeyword(k: string)
    requires IsKeyword(k)
    ensures ToUpper(k) == k
    decreases |k|
  {
    if k != [] {
      var c := k[0];
      assert 'A' <= c <= 'Z';
      UpperCharCapital(c);
      assert IsKeyword(k[1..]);
      ToUpperKeyword(k[1..]);
      assert ToUpper(k) == [c] + k[1..];
    }
  }

  lemma UpperCharCapital(c: char)
    requires 'A' <= c <= 'Z'
    ensures UpperChar(c) == [c]
  {
  }

  /** The upper-case form of a character is already upper case. */
  lemma UpperCharUpper(c: char)
    ensures ToUpper(UpperChar(c)) == UpperChar(c)
  {
    var u := UpperChar(c);
    if u == [c] {
      assert ToUpper(u) == UpperChar(c) + ToUpper([]);
    } else {
      ToUpperKeyword(u);
    }
  }

  /** Upper-casing an upper-case string changes nothing. */
  lemma {:induction false} ToUpperIdempotent(t: string)
    ensures ToUpper(ToUpper(t)) == ToUpper(t)
    decreases |t|
  {
    if t != [] {
      var u := UpperChar(t[0]);
      ToUpperAppend(u, ToUpper(t[1..]));
      ToUpperIdempotent(t[1..]);
      UpperCharUpper(t[0]);
    }
  }

  /** Upper-casing leaves whitespace alone and keeps a word a word. */
  lemma {:induction false} ToUpperBlank(g: string)
    requires IsBlank(g)
    ensures ToUpper(g) == g
    decreases |g|
  {
    if g != [] {
      ToUpperBlank(g[1..]);
    }
  }

  lemma {:induction false} ToUpperWord(w: string)
    requires IsWord(w)
    ensures IsWord(ToUpper(w))
    decreases |w|
  {
    var u := UpperChar(w[0]);
    if |w| > 1 {
      ToUpperWord(w[1..]);
    }
    var r := ToUpper(w[1..]);
    assert ToUpper(w) == u + r;
    forall i | 0 <= i < |u + r| ensures !IsWhitespace((u + r)[i]) {
      if i >= |u| {
        assert (u + r)[i] == r[i - |u|];
      }
    }
  }

  /** A keyword: upper-case ASCII letters only. */
  predicate IsKeyword(k: string) {
    forall i :: 0 <= i < |k| ==> 'A' <= k[i] <= 'Z'
  }

  /** Each word upper-cased. */
  function UpperWords(ws: seq<string>): (us: seq<string>)
    ensures |us| == |ws|
    ensures forall k :: 0 <= k < |ws| ==> us[k] == ToUpper(ws[k])
  {
    seq(|ws|, k requires 0 <= k < |ws| => ToUpper(ws[k]))
  }

  /** Upper-casing a laid-out line upper-cases its words and keeps its gaps. */
  lemma {:induction false} ToUpperLayout(ws: seq<string>, gs: seq<string>)
    requires |gs| == |ws| + 1
    requires forall k :: 0 <= k < |gs| ==> IsBlank(gs[k])
    ensures ToUpper(Layout(ws, gs)) == Layout(UpperWords(ws), gs)
    decreases |ws|
  {
    ToUpperBlank(gs[0]);
    if ws != [] {
      var rest := Layout(ws[1..], gs[1..]);
      ToUpperLayout(ws[1..], gs[1..]);
      ToUpperAppend(gs[0] + ws[0], rest);
      ToUpperAppend(gs[0], ws[0]);
      assert UpperWords(ws)[1..] == UpperWords(ws[1..]);
    }
  }

  /** The words of an upper-cased line are the upper-cased words of the
      line. */
  lemma SplitToUpper(line: string)
    ensures SplitWhitespace(ToUpper(line)) == UpperWords(SplitWhitespace(line))
  {
    var ws, gs := SplitWhitespace(line), Gaps(line);
    LayoutSplit(line);
    GapsValid(line);
    ToUpperLayout(ws, gs);
    var us := UpperWords(ws);
    forall k | 0 <= k < |us| ensures IsWord(us[k]) {
      ToUpperWord(ws[k]);
    }
    SplitLayout(us, gs);
  }

  /** ASCII letter case: the lower-case partner of an upper-case letter. */
  function ToLowerAscii(c: char): (l: char)
    requires 'A' <= c <= 'Z'
    ensures 'a' <= l <= 'z' && UpperChar(l) == [c]
  {
    (c as int + 32) as char
  }

  /** Upper-case form of an ASCII character: a single character. */
  function UpperAscii(c: char): char {
    if 'a' <= c <= 'z' then (c as int - 32) as char else c
  }

  predicate IsAscii(t: string) {
    forall i :: 0 <= i < |t| ==> t[i] < '\U{0080}'
  }

  /** On ASCII text, `to_uppercase` maps character to character. */
  lemma {:induction false} ToUpperAscii(t: string)
    requires IsAscii(t)
    ensures |ToUpper(t)| == |t|
    ensures forall i :: 0 <= i < |t| ==> ToUpper(t)[i] == UpperAscii(t[i])
    decreases |t|
  {
    if t != [] {
      ToUpperAscii(t[1..]);
      assert UpperChar(t[0]) == [UpperAscii(t[0])];
      assert forall i :: 0 < i < |t| ==> t[i] == t[1..][i - 1];
    }
  }

  /** An ASCII character upper-cases to a given capital exactly when it is
      that capital or its lower-case partner. */
  lemma UpperAsciiMatches(c: char, k: char)
    requires 'A' <= k <= 'Z'
    ensures UpperAscii(c) == k <==> c == k || c == ToLowerAscii(k)
  {
  }

  /** For an ASCII word, `to_uppercase` yields a keyword exactly when the
      word spells that keyword with each letter in either case. */
  lemma MatchesKeywordIgnoringCase(t: string, k: string)
    requires IsAscii(t) && IsKeyword(k)
    ensures ToUpper(t) == k <==>
      |t| == |k| && forall i :: 0 <= i < |t| ==> t[i] == k[i] || t[i] == ToLowerAscii(k[i])
  {
    ToUpperAscii(t);
    var u := ToUpper(t);
    if |t| == |k| {
      forall i | 0 <= i < |t|
        ensures u[i] == k[i] <==> t[i] == k[i] || t[i] == ToLowerAscii(k[i])
      {
        UpperAsciiMatches(t[i], k[i]);
      }
      if u != k {
        var i :| 0 <= i < |t| && u[i] != k[i];
      }
    }
  }
}
