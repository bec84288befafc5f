/**
 * `sanitizeFilename` in src/index.ts: strip the characters no file system
 * accepts, collapse whitespace runs to one space, trim, and cut to 200
 * characters, in that order.
 */
module Sanitize {
  import opened Seqs

  /** The length limit of a sanitised name. */
  const MaxLength: nat := 200

  /** The characters of the regular expression class `[<>:"/\\|?*]`. */
  predicate IsInvalid(c: char) {
    c == '<' || c == '>' || c == ':' || c == '"' || c == '/' || c == '\\' || c == '|' || c == '?' || c == '*'
  }

  /**
   * JavaScript's `\s`, which is also the set `trim` removes: the ASCII
   * controls TAB to CR, space, no-break space, the Unicode space
   * separators, line and paragraph separators, and the byte order mark.
   */
  predicate IsWhitespace(c: char) {
    var n := c as int;
    (9 <= n <= 13) || n == 0x20 || n == 0xA0 || n == 0x1680 || (0x2000 <= n <= 0x200A)
    || n == 0x2028 || n == 0x2029 || n == 0x202F || n == 0x205F || n == 0x3000 || n == 0xFEFF
  }

  /** The characters that survive sanitising unchanged: neither invalid nor whitespace, in order. */
  function Glyphs(s: string): string {
    if s == [] then [] else Kept(s[0]) + Glyphs(s[1..])
  }

  /** A character as a glyph: itself, or nothing when it is invalid or whitespace. */
  function Kept(c: char): string {
    if IsInvalid(c) || IsWhitespace(c) then [] else [c]
  }

  /** `.replace(/[<>:"/\\|?*]/g, "")` */
  function StripInvalid(s: string): (r: string)
    ensures forall i :: 0 <= i < |r| ==> !IsInvalid(r[i])
    ensures |r| <= |s|
  {
    if s == [] then []
    else (if IsInvalid(s[0]) then [] else [s[0]]) + StripInvalid(s[1..])
  }

  /** `.trimStart()`: the longest suffix of `s` that does not start with whitespace. */
  function TrimStart(s: string): (r: string)
    ensures |r| <= |s| && r == s[|s| - |r|..]
    ensures r == [] || !IsWhitespace(r[0])
    ensures forall i :: 0 <= i < |s| - |r| ==> IsWhitespace(s[i])
  {
    if s != [] && IsWhitespace(s[0]) then
      var r := TrimStart(s[1..]);
      assert s[1..][|s| - 1 - |r|..] == s[|s| - |r|..];
      assert forall i :: 1 <= i < |s| - |r| ==> s[i] == s[1..][i - 1];
      r
    else s
  }

  /** `.trimEnd()`: the longest prefix of `s` that does not end with whitespace. */
  function TrimEnd(s: string): (r: string)
    ensures |r| <= |s| && r == s[..|r|]
    ensures r == [] || !IsWhitespace(r[|r| - 1])
    ensures forall i :: |r| <= i < |s| ==> IsWhitespace(s[i])
  {
    if s != [] && IsWhitespace(s[|s| - 1]) then
      var r := TrimEnd(s[..|s| - 1]);
      assert s[..|s| - 1][..|r|] == s[..|r|];
      assert forall i :: |r| <= i < |s| - 1 ==> s[i] == s[..|s| - 1][i];
      r
    else s
  }

  /** `.trim()`: `s` without its leading and trailing whitespace. */
  function Trim(s: string): (r: string)
    ensures r == [] || (!IsWhitespace(r[0]) && !IsWhitespace(r[|r| - 1]))
  {
    TrimEnd(TrimStart(s))
  }

  /** How many leading characters `trim` drops. */
  function TrimOffset(s: string): nat {
    |s| - |TrimStart(s)|
  }

  /** `.replace(/\s+/g, " ")`: every maximal whitespace run becomes one space. */
  function Collapse(s: string): (r: string)
    ensures |r| <= |s|
    ensures r == [] <==> s == []
    ensures (r != [] && IsWhitespace(r[0])) <==> (s != [] && IsWhitespace(s[0]))
    ensures forall i :: 0 <= i < |r| && IsWhitespace(r[i]) ==> r[i] == ' '
    ensures forall i, j :: 0 <= i && j == i + 1 < |r| ==> !(IsWhitespace(r[i]) && IsWhitespace(r[j]))
    decreases |s|
  {
    if s == [] then []
    else if IsWhitespace(s[0]) then
      var t := TrimStart(s);
      [' '] + Collapse(t)
    else
      [s[0]] + Collapse(s[1..])
  }

  /** The title after stripping, collapsing and trimming, before the cut. */
  function Normalized(title: string): string {
    Trim(Collapse(StripInvalid(title)))
  }

  /** `sanitizeFilename` */
  function SanitizeFilename(title: string): string {
    Take(Normalized(title), MaxLength)
  }

  /** Whitespace in a string that is normalised is a lone space. */
  ghost predicate SingleSpaced(s: string) {
    && (forall i :: 0 <= i < |s| && IsWhitespace(s[i]) ==> s[i] == ' ')
    && (forall i, j :: 0 <= i && j == i + 1 < |s| ==> !(IsWhitespace(s[i]) && IsWhitespace(s[j])))
  }

  /** A non-empty run of characters none of which is whitespace. */
  predicate IsWord(w: string) {
    w != [] && forall j :: 0 <= j < |w| ==> !IsWhitespace(w[j])
  }

  /** The longest prefix of `s` without whitespace. */
  function Word(s: string): (r: string)
    ensures |r| <= |s| && r == s[..|r|]
    ensures forall j :: 0 <= j < |r| ==> !IsWhitespace(r[j])
    ensures |r| == |s| || IsWhitespace(s[|r|])
  {
    if s == [] || IsWhitespace(s[0]) then [] else [s[0]] + Word(s[1..])
  }

  /** The maximal runs of non-whitespace characters of `s`, in order. */
  function Words(s: string): (r: seq<string>)
    ensures forall i :: 0 <= i < |r| ==> IsWord(r[i])
    decreases |s|
  {
    if s == [] then []
    else if IsWhitespace(s[0]) then Words(s[1..])
    else
      var w := Word(s);
      [w] + Words(s[|w|..])
  }

  /** `words.join(sep)` */
  function JoinWords(ws: seq<string>, sep: string): string {
    if ws == [] then [] else if |ws| == 1 then ws[0] else ws[0] + sep + JoinWords(ws[1..], sep)
  }

  /** One space when `s` ends with whitespace, nothing otherwise. */
  function TrailingSpace(s: string): string {
    if s != [] && IsWhitespace(s[|s| - 1]) then " " else ""
  }

  // ---- lemmas ----

  lemma {:induction false} GlyphsAppend(a: string, b: string)
    ensures Glyphs(a + b) == Glyphs(a) + Glyphs(b)
  {
    if a == [] {
      assert a + b == b;
    } else {
      var c, t := a[0], a[1..];
      assert a == [c] + t;
      assert a + b == [c] + (t + b);
      GlyphsCons(c, t + b);
      GlyphsCons(c, t);
      GlyphsAppend(t, b);
    }
  }

  lemma GlyphsCons(c: char, s: string)
    ensures Glyphs([c] + s) == Kept(c) + Glyphs(s)
  {
    assert ([c] + s)[1..] == s;
  }

  lemma {:induction false} GlyphsOfWhitespace(s: string)
    requires forall i :: 0 <= i < |s| ==> IsWhitespace(s[i])
    ensures Glyphs(s) == []
  {
    if s != [] {
      GlyphsOfWhitespace(s[1..]);
    }
  }

  /** Stripping keeps every glyph, in order. */
  lemma {:induction false} StripInvalidGlyphs(s: string)
    ensures Glyphs(StripInvalid(s)) == Glyphs(s)
  {
    if s != [] {
      StripInvalidGlyphs(s[1..]);
      var head := if IsInvalid(s[0]) then [] else [s[0]];
      GlyphsAppend(head, StripInvalid(s[1..]));
    }
  }

  /** Collapsing keeps every glyph, in order. */
  lemma {:induction false} CollapseGlyphs(s: string)
    ensures Glyphs(Collapse(s)) == Glyphs(s)
    decreases |s|
  {
    if s != [] {
      if IsWhitespace(s[0]) {
        var t := TrimStart(s);
        CollapseGlyphs(t);
        GlyphsAppend([' '], Collapse(t));
        var k := |s| - |t|;
        assert s == s[..k] + t;
        GlyphsAppend(s[..k], t);
        GlyphsOfWhitespace(s[..k]);
      } else {
        CollapseGlyphs(s[1..]);
        GlyphsAppend([s[0]], Collapse(s[1..]));
      }
    }
  }

  /** Stripping works character by character: it distributes over concatenation. */
  lemma {:induction false} StripInvalidAppend(a: string, b: string)
    ensures StripInvalid(a + b) == StripInvalid(a) + StripInvalid(b)
  {
    if a == [] {
      assert a + b == b;
    } else {
      assert (a + b)[1..] == a[1..] + b;
      StripInvalidAppend(a[1..], b);
    }
  }

  /** A single character is dropped exactly when it is one of `<>:"/\|?*`; whitespace stays. */
  lemma StripInvalidChar(c: char)
    ensures StripInvalid([c]) == if IsInvalid(c) then [] else [c]
  {
    assert [c][1..] == [];
  }

  /** A glyph or invalid character is copied, and the collapse goes on after it. */
  lemma CollapseNonSpace(s: string)
    requires s != [] && !IsWhitespace(s[0])
    ensures Collapse(s) == [s[0]] + Collapse(s[1..])
  {
  }

  /** A whitespace run becomes one space, and the collapse goes on after the run. */
  lemma CollapseSpace(s: string)
    requires s != [] && IsWhitespace(s[0])
    ensures Collapse(s) == [' '] + Collapse(TrimStart(s))
  {
  }

  /** A string starting with a non-whitespace character collapses as its first word followed by the rest. */
  lemma {:induction false} CollapseWord(s: string)
    requires s != [] && !IsWhitespace(s[0])
    ensures Collapse(s) == Word(s) + Collapse(s[|Word(s)|..])
    decreases |s|
  {
    var t := s[1..];
    CollapseNonSpace(s);
    if t == [] || IsWhitespace(t[0]) {
      WordSingle(s);
    } else {
      CollapseWord(t);
      WordCons(s);
      ConsAssoc(s[0], Word(t), Collapse(t[|Word(t)|..]));
    }
  }

  lemma WordSingle(s: string)
    requires s != [] && !IsWhitespace(s[0])
    requires s[1..] == [] || IsWhitespace(s[1..][0])
    ensures Word(s) == [s[0]] && s[|Word(s)|..] == s[1..]
  {
  }

  lemma WordCons(s: string)
    requires s != [] && !IsWhitespace(s[0])
    ensures Word(s) == [s[0]] + Word(s[1..])
    ensures s[1..][|Word(s[1..])|..] == s[|Word(s)|..]
  {
  }

  lemma ConsAssoc(c: char, a: string, b: string)
    ensures [c] + (a + b) == ([c] + a) + b
  {
  }

  /** The words of a string that starts with one: that word, then the words after it. */
  lemma WordsFirst(s: string)
    requires s != [] && !IsWhitespace(s[0])
    ensures |Word(s)| >= 1
    ensures Words(s) == [Word(s)] + Words(s[|Word(s)|..])
  {
  }

  /** A non-empty suffix ends where the whole string ends. */
  lemma TrailingSpaceSuffix(s: string, t: string)
    requires 0 < |t| <= |s| && t == s[|s| - |t|..]
    ensures TrailingSpace(t) == TrailingSpace(s)
  {
    assert t[|t| - 1] == s[|s| - 1];
  }

  /** Leading whitespace does not change the words. */
  lemma {:induction false} WordsTrimStart(s: string)
    ensures Words(TrimStart(s)) == Words(s)
    decreases |s|
  {
    if s != [] && IsWhitespace(s[0]) {
      WordsTrimStart(s[1..]);
    }
  }

  /** Joining words gives a string that starts and ends with a non-whitespace character. */
  lemma {:induction false} JoinWordsEnds(ws: seq<string>)
    requires ws != [] && forall i :: 0 <= i < |ws| ==> IsWord(ws[i])
    ensures JoinWords(ws, " ") != []
    ensures !IsWhitespace(JoinWords(ws, " ")[0])
    ensures !IsWhitespace(JoinWords(ws, " ")[|JoinWords(ws, " ")| - 1])
  {
    assert IsWord(ws[0]);
    if |ws| > 1 {
      JoinWordsEnds(ws[1..]);
      var j := JoinWords(ws[1..], " ");
      assert JoinWords(ws, " ") == ws[0] + " " + j;
      assert JoinWords(ws, " ")[|JoinWords(ws, " ")| - 1] == j[|j| - 1];
    } else {
      assert !IsWhitespace(ws[0][|ws[0]| - 1]);
    }
  }

  /** Joining one word in front of others puts a single space between them. */
  lemma JoinWordsCons(w: string, ws: seq<string>)
    requires ws != []
    ensures JoinWords([w] + ws, " ") == w + " " + JoinWords(ws, " ")
  {
    assert ([w] + ws)[1..] == ws;
  }

  /** The shape of a collapsed string that starts with a word: the words one space apart, then a space when `s` ends with whitespace. */
  lemma {:induction false} CollapseJoin(s: string)
    requires s != [] && !IsWhitespace(s[0])
    ensures Words(s) != []
    ensures Collapse(s) == JoinWords(Words(s), " ") + TrailingSpace(s)
    decreases |s|, 1
  {
    var w := Word(s);
    var rest := s[|w|..];
    CollapseWord(s);
    WordsFirst(s);
    if rest == [] {
      CollapseLastWord(s, w);
    } else {
      CollapseJoinRest(s, w, rest);
    }
  }

  /** The first word, then the collapsed whitespace run and the words after it. */
  lemma {:induction false} CollapseJoinRest(s: string, w: string, rest: string)
    requires s != [] && !IsWhitespace(s[0])
    requires w == Word(s) && rest == s[|w|..] && rest != []
    ensures w + Collapse(rest) == JoinWords([w] + Words(rest), " ") + TrailingSpace(s)
    decreases |s|, 0
  {
    assert |w| >= 1 by {
      WordsFirst(s);
    }
    var t := TrimStart(rest);
    CollapseSpace(rest);
    WordsTrimStart(rest);
    TrailingSpaceSuffix(s, rest);
    if t == [] {
      CollapseSpaceEnd(w, rest);
    } else {
      CollapseJoin(t);
      TrailingSpaceSuffix(rest, t);
      CollapseMoreWords(w, Words(t), TrailingSpace(t));
    }
  }

  lemma CollapseLastWord(s: string, w: string)
    requires w == Word(s) && |w| == |s| && |w| >= 1
    ensures JoinWords([w] + Words(s[|w|..]), " ") + TrailingSpace(s) == w + Collapse(s[|w|..])
  {
    assert s[|w|..] == [];
    assert s == w;
    assert !IsWhitespace(w[|w| - 1]);
  }

  lemma CollapseSpaceEnd(w: string, rest: string)
    requires rest != [] && TrimStart(rest) == []
    ensures JoinWords([w] + Words(TrimStart(rest)), " ") + TrailingSpace(rest) == w + ([' '] + Collapse(TrimStart(rest)))
  {
    assert IsWhitespace(rest[|rest| - 1]);
  }

  lemma CollapseMoreWords(w: string, ws: seq<string>, tail: string)
    requires ws != []
    ensures JoinWords([w] + ws, " ") + tail == w + ([' '] + (JoinWords(ws, " ") + tail))
  {
    JoinWordsCons(w, ws);
  }

  lemma {:induction false} TrimStartPad(pre: string, x: string)
    requires forall k :: 0 <= k < |pre| ==> IsWhitespace(pre[k])
    requires x == [] || !IsWhitespace(x[0])
    ensures TrimStart(pre + x) == x
  {
    if pre == [] {
      assert pre + x == x;
    } else {
      assert (pre + x)[1..] == pre[1..] + x;
      TrimStartPad(pre[1..], x);
    }
  }

  lemma {:induction false} TrimEndPad(x: string, post: string)
    requires forall k :: 0 <= k < |post| ==> IsWhitespace(post[k])
    requires x == [] || !IsWhitespace(x[|x| - 1])
    ensures TrimEnd(x + post) == x
  {
    if post == [] {
      assert x + post == x;
    } else {
      var p := post[..|post| - 1];
      assert (x + post)[..|x + post| - 1] == x + p;
      TrimEndPad(x, p);
    }
  }

  /** Whitespace around a string that starts and ends with a glyph is what `trim` removes. */
  lemma TrimPadded(pre: string, j: string, post: string)
    requires forall k :: 0 <= k < |pre| ==> IsWhitespace(pre[k])
    requires forall k :: 0 <= k < |post| ==> IsWhitespace(post[k])
    requires j == [] || (!IsWhitespace(j[0]) && !IsWhitespace(j[|j| - 1]))
    ensures Trim(pre + j + post) == j
  {
    if j == [] {
      assert pre + j + post == pre + post;
      TrimStartPad(pre + post, []);
      assert pre + post + [] == pre + post;
      forall k | 0 <= k < |pre + post| ensures IsWhitespace((pre + post)[k]) {
        if k < |pre| {
          assert (pre + post)[k] == pre[k];
        } else {
          assert (pre + post)[k] == post[k - |pre|];
        }
      }
    } else {
      assert pre + j + post == pre + (j + post);
      TrimStartPad(pre, j + post);
      TrimEndPad(j, post);
    }
  }

  /**
   * Collapsing then trimming puts exactly one space between consecutive
   * words of the input and nothing before the first or after the last.
   */
  lemma CollapseWords(s: string)
    ensures Trim(Collapse(s)) == JoinWords(Words(s), " ")
  {
    if s != [] {
      if IsWhitespace(s[0]) {
        CollapseWordsSpace(s);
      } else {
        CollapseWordsGlyph(s);
      }
    }
  }

  lemma CollapseWordsGlyph(s: string)
    requires s != [] && !IsWhitespace(s[0])
    ensures Trim(Collapse(s)) == JoinWords(Words(s), " ")
  {
    CollapseJoin(s);
    TrailingSpaceBlank(s);
    TrimJoined(Collapse(s), [], Words(s), TrailingSpace(s));
  }

  lemma CollapseWordsSpace(s: string)
    requires s != [] && IsWhitespace(s[0])
    ensures Trim(Collapse(s)) == JoinWords(Words(s), " ")
  {
    var t := TrimStart(s);
    WordsTrimStart(s);
    if t == [] {
      CollapseSpace(s);
      TrimOneSpace();
    } else {
      CollapseSpaceJoin(s);
      TrailingSpaceBlank(t);
      TrimJoined(Collapse(s), [' '], Words(t), TrailingSpace(t));
    }
  }

  lemma CollapseSpaceJoin(s: string)
    requires s != [] && IsWhitespace(s[0]) && TrimStart(s) != []
    ensures Words(TrimStart(s)) != []
    ensures Collapse(s) == [' '] + (JoinWords(Words(TrimStart(s)), " ") + TrailingSpace(TrimStart(s)))
  {
    CollapseSpace(s);
    CollapseJoin(TrimStart(s));
  }

  /** `trim` of words joined by spaces, with whitespace around them, is the joined words. */
  lemma TrimJoined(c: string, pre: string, ws: seq<string>, post: string)
    requires ws != [] && forall i :: 0 <= i < |ws| ==> IsWord(ws[i])
    requires forall k :: 0 <= k < |pre| ==> IsWhitespace(pre[k])
    requires forall k :: 0 <= k < |post| ==> IsWhitespace(post[k])
    requires c == pre + (JoinWords(ws, " ") + post)
    ensures Trim(c) == JoinWords(ws, " ")
  {
    var j := JoinWords(ws, " ");
    JoinWordsEnds(ws);
    assert c == pre + j + post;
    TrimPadded(pre, j, post);
  }

  lemma TrimOneSpace()
    ensures Trim([' '] + Collapse([])) == []
  {
    assert [' '][1..] == [];
  }

  lemma TrailingSpaceBlank(s: string)
    ensures forall k :: 0 <= k < |TrailingSpace(s)| ==> IsWhitespace(TrailingSpace(s)[k])
  {
  }

  /** The normalised title is the words of the stripped title, one space apart. */
  lemma NormalizedWords(title: string)
    ensures Normalized(title) == JoinWords(Words(StripInvalid(title)), " ")
  {
    CollapseWords(StripInvalid(title));
  }

  /** The name is the words of the stripped title, one space apart, cut to 200 characters. */
  lemma SanitizeWords(title: string)
    ensures SanitizeFilename(title) == Take(JoinWords(Words(StripInvalid(title)), " "), MaxLength)
  {
    NormalizedWords(title);
  }

  /** Whitespace after a trimmed end stays whitespace when the string is shifted back. */
  lemma TrailingWhitespace(s: string, t: string, r: string)
    requires |t| <= |s| && t == s[|s| - |t|..]
    requires |r| <= |t| && forall j :: |r| <= j < |t| ==> IsWhitespace(t[j])
    ensures forall j :: |s| - |t| + |r| <= j < |s| ==> IsWhitespace(s[j])
  {
    var i := |s| - |t|;
    forall j | i + |r| <= j < |s| ensures IsWhitespace(s[j]) {
      assert s[j] == t[j - i];
    }
  }

  /** `trim` cuts out a slice of `s` and drops only whitespace around it. */
  lemma TrimSlice(s: string)
    ensures TrimOffset(s) + |Trim(s)| <= |s|
    ensures Trim(s) == s[TrimOffset(s)..TrimOffset(s) + |Trim(s)|]
    ensures forall j :: 0 <= j < TrimOffset(s) ==> IsWhitespace(s[j])
    ensures forall j :: TrimOffset(s) + |Trim(s)| <= j < |s| ==> IsWhitespace(s[j])
  {
    var t := TrimStart(s);
    var r := TrimEnd(t);
    var i := |s| - |t|;
    TrailingWhitespace(s, t, r);
    SliceOfSuffix(s, i, |r|);
  }

  lemma SliceOfSuffix(s: string, i: nat, n: nat)
    requires i + n <= |s|
    ensures s[i..][..n] == s[i..i + n]
  {
  }

  /** Trimming keeps every glyph, in order. */
  lemma TrimGlyphs(s: string)
    ensures Glyphs(Trim(s)) == Glyphs(s)
  {
    var p, q := TrimParts(s);
    GlyphsFrame(p, Trim(s), q);
  }

  /** `s` is the trimmed text with whitespace before and after it. */
  lemma TrimParts(s: string) returns (p: string, q: string)
    ensures s == p + Trim(s) + q
    ensures forall k :: 0 <= k < |p| ==> IsWhitespace(p[k])
    ensures forall k :: 0 <= k < |q| ==> IsWhitespace(q[k])
  {
    var r := Trim(s);
    var i := TrimOffset(s);
    TrimSlice(s);
    p, q := s[..i], s[i + |r|..];
    SplitAt(s, i, i + |r|);
    WhitespaceSlice(s, 0, i);
    WhitespaceSlice(s, i + |r|, |s|);
  }

  lemma SplitAt(s: string, i: nat, j: nat)
    requires i <= j <= |s|
    ensures s == s[..i] + s[i..j] + s[j..]
  {
  }

  /** A slice of a whitespace run is whitespace. */
  lemma WhitespaceSlice(s: string, i: nat, j: nat)
    requires i <= j <= |s| && forall k :: i <= k < j ==> IsWhitespace(s[k])
    ensures forall k :: 0 <= k < |s[i..j]| ==> IsWhitespace(s[i..j][k])
  {
    forall k | 0 <= k < j - i ensures IsWhitespace(s[i..j][k]) {
      assert s[i..j][k] == s[i + k];
    }
  }

  /** Glyphs ignore whitespace on both sides. */
  lemma GlyphsFrame(p: string, r: string, q: string)
    requires forall k :: 0 <= k < |p| ==> IsWhitespace(p[k])
    requires forall k :: 0 <= k < |q| ==> IsWhitespace(q[k])
    ensures Glyphs(p + r + q) == Glyphs(r)
  {
    GlyphsAppend(p + r, q);
    GlyphsAppend(p, r);
    GlyphsOfWhitespace(p);
    GlyphsOfWhitespace(q);
  }

  /** Cutting a string keeps a prefix of its glyphs. */
  lemma TakeGlyphs(s: string, n: nat)
    ensures Glyphs(Take(s, n)) <= Glyphs(s)
  {
    var r := Take(s, n);
    assert s == r + s[|r|..];
    GlyphsAppend(r, s[|r|..]);
  }

  /** A slice of a single-spaced string is single-spaced. */
  lemma SliceSingleSpaced(s: string, i: nat, j: nat)
    requires SingleSpaced(s) && i <= j <= |s|
    ensures SingleSpaced(s[i..j])
  {
    var r := s[i..j];
    forall k | 0 <= k < |r| ensures r[k] == s[i + k] {
    }
  }

  /** Normalising keeps every glyph of the title, in order. */
  lemma NormalizedGlyphs(title: string)
    ensures Glyphs(Normalized(title)) == Glyphs(title)
  {
    var stripped := StripInvalid(title);
    StripInvalidGlyphs(title);
    CollapseGlyphs(stripped);
    TrimGlyphs(Collapse(stripped));
  }

  /** Collapsing introduces no invalid character. */
  lemma {:induction false} CollapseValid(s: string)
    requires forall i :: 0 <= i < |s| ==> !IsInvalid(s[i])
    ensures forall i :: 0 <= i < |Collapse(s)| ==> !IsInvalid(Collapse(s)[i])
    decreases |s|
  {
    if s != [] {
      if IsWhitespace(s[0]) {
        var t := TrimStart(s);
        forall i | 0 <= i < |t| ensures !IsInvalid(t[i]) {
          assert t[i] == s[|s| - |t| + i];
        }
        CollapseValid(t);
      } else {
        CollapseValid(s[1..]);
      }
    }
  }

  /** A normalised title is single-spaced. */
  lemma NormalizedSpaced(title: string)
    ensures SingleSpaced(Normalized(title))
  {
    var collapsed := Collapse(StripInvalid(title));
    assert SingleSpaced(collapsed);
    TrimSingleSpaced(collapsed);
  }

  /** Trimming a single-spaced string keeps it single-spaced. */
  lemma TrimSingleSpaced(s: string)
    requires SingleSpaced(s)
    ensures SingleSpaced(Trim(s))
  {
    TrimSlice(s);
    SliceSingleSpaced(s, TrimOffset(s), TrimOffset(s) + |Trim(s)|);
  }

  /** A normalised title holds no invalid character. */
  lemma NormalizedValid(title: string)
    ensures forall i :: 0 <= i < |Normalized(title)| ==> !IsInvalid(Normalized(title)[i])
  {
    var collapsed := Collapse(StripInvalid(title));
    var r := Trim(collapsed);
    CollapseValid(StripInvalid(title));
    TrimSlice(collapsed);
    var i := TrimOffset(collapsed);
    forall k | 0 <= k < |r| ensures !IsInvalid(r[k]) {
      assert r[k] == collapsed[i + k];
    }
  }

  /**
   * What `sanitizeFilename` promises: at most 200 characters, none of
   * `<>:"/\|?*`, whitespace only as lone spaces, no leading whitespace, the
   * title's glyphs in order (all of them when nothing was cut), and no
   * trailing whitespace when nothing was cut.
   */
  lemma SanitizeSpec(title: string)
    ensures |SanitizeFilename(title)| <= MaxLength
    ensures forall i :: 0 <= i < |SanitizeFilename(title)| ==> !IsInvalid(SanitizeFilename(title)[i])
    ensures SingleSpaced(SanitizeFilename(title))
    ensures SanitizeFilename(title) == [] || !IsWhitespace(SanitizeFilename(title)[0])
    ensures Glyphs(SanitizeFilename(title)) <= Glyphs(title)
    ensures |Normalized(title)| <= MaxLength ==>
      SanitizeFilename(title) == Normalized(title) && Glyphs(SanitizeFilename(title)) == Glyphs(title)
      && (SanitizeFilename(title) == [] || !IsWhitespace(SanitizeFilename(title)[|SanitizeFilename(title)| - 1]))
  {
    var n := Normalized(title);
    var r := SanitizeFilename(title);
    NormalizedSpaced(title);
    NormalizedValid(title);
    NormalizedGlyphs(title);
    TakeGlyphs(n, MaxLength);
    SliceSingleSpaced(n, 0, |r|);
    assert r == n[..|r|];
    forall i | 0 <= i < |r| ensures r[i] == n[i] {
    }
  }

  /** The name is empty exactly when the title has no glyph. */
  lemma SanitizeEmpty(title: string)
    ensures SanitizeFilename(title) == [] <==> Glyphs(title) == []
  {
    var n := Normalized(title);
    NormalizedValid(title);
    NormalizedGlyphs(title);
    if n != [] {
      assert !IsInvalid(n[0]) && !IsWhitespace(n[0]);
      assert Glyphs(n) == [n[0]] + Glyphs(n[1..]);
    }
  }

  lemma {:induction false} StripInvalidNoop(s: string)
    requires forall i :: 0 <= i < |s| ==> !IsInvalid(s[i])
    ensures StripInvalid(s) == s
  {
    if s != [] {
      StripInvalidNoop(s[1..]);
    }
  }

  lemma {:induction false} CollapseNoop(s: string)
    requires SingleSpaced(s)
    ensures Collapse(s) == s
    decreases |s|
  {
    if s != [] {
      if IsWhitespace(s[0]) {
        var t := TrimStart(s);
        assert |s| == 1 || !IsWhitespace(s[1]);
        assert t == s[1..];
        SliceSingleSpaced(s, 1, |s|);
        CollapseNoop(t);
      } else {
        SliceSingleSpaced(s, 1, |s|);
        CollapseNoop(s[1..]);
      }
    }
  }

  lemma TrimNoop(s: string)
    requires s == [] || (!IsWhitespace(s[0]) && !IsWhitespace(s[|s| - 1]))
    ensures Trim(s) == s
  {
  }

  /** A name without trailing whitespace is its own sanitised form. */
  lemma SanitizeIdempotent(title: string)
    requires SanitizeFilename(title) == [] || !IsWhitespace(SanitizeFilename(title)[|SanitizeFilename(title)| - 1])
    ensures SanitizeFilename(SanitizeFilename(title)) == SanitizeFilename(title)
  {
    var r := SanitizeFilename(title);
    SanitizeSpec(title);
    StripInvalidNoop(r);
    CollapseNoop(r);
    TrimNoop(r);
  }

  /**
   * A name the cut leaves with a trailing space is not its own sanitised
   * form: sanitising is not idempotent.
   */
  lemma SanitizeTrailingSpace(title: string)
    requires SanitizeFilename(title) != [] && IsWhitespace(SanitizeFilename(title)[|SanitizeFilename(title)| - 1])
    ensures SanitizeFilename(SanitizeFilename(title)) != SanitizeFilename(title)
  {
    var r := SanitizeFilename(title);
    SanitizeSpec(title);
    StripInvalidNoop(r);
    CollapseNoop(r);
    TrimSlice(r);
    assert |Trim(r)| < |r|;
  }

  /** 199 letters, a space and one more letter: the cut lands on the space. */
  lemma TrailingSpaceWitness()
    ensures var title := seq(199, _ => 'a') + " b";
      SanitizeFilename(title) == seq(199, _ => 'a') + " "
  {
    var title := seq(199, _ => 'a') + " b";
    assert forall i :: 0 <= i < |title| ==> title[i] == (if i < 199 then 'a' else if i == 199 then ' ' else 'b');
    WitnessNormal(title);
    assert title[..200] == seq(199, _ => 'a') + " ";
  }

  lemma WitnessNormal(title: string)
    requires |title| == 201
    requires forall i :: 0 <= i < |title| ==> title[i] == (if i < 199 then 'a' else if i == 199 then ' ' else 'b')
    ensures Normalized(title) == title
  {
    assert StripInvalid(title) == title by {
      StripInvalidNoop(title);
    }
    assert Collapse(title) == title by {
      CollapseNoop(title);
    }
    TrimNoop(title);
  }

  /** A string of glyphs is its own glyph sequence. */
  lemma {:induction false} GlyphsNoop(s: string)
    requires forall i :: 0 <= i < |s| ==> !IsInvalid(s[i]) && !IsWhitespace(s[i])
    ensures Glyphs(s) == s
  {
    if s != [] {
      GlyphsNoop(s[1..]);
    }
  }

  /** Stripping introduces no whitespace. */
  lemma {:induction false} StripInvalidNoWhitespace(s: string)
    requires forall i :: 0 <= i < |s| ==> !IsWhitespace(s[i])
    ensures forall i :: 0 <= i < |StripInvalid(s)| ==> !IsWhitespace(StripInvalid(s)[i])
  {
    if s != [] {
      StripInvalidNoWhitespace(s[1..]);
    }
  }

  /**
   * A title without whitespace whose glyphs fit the limit becomes exactly
   * its glyphs: invalid characters vanish and no space appears.
   */
  lemma SanitizeWithoutWhitespace(title: string)
    requires forall i :: 0 <= i < |title| ==> !IsWhitespace(title[i])
    requires |Glyphs(title)| <= MaxLength
    ensures SanitizeFilename(title) == Glyphs(title)
  {
    var stripped := StripInvalid(title);
    StripToGlyphs(title);
    WhitespaceFreeNormal(stripped);
  }

  /** Without whitespace, stripping leaves exactly the glyphs. */
  lemma StripToGlyphs(title: string)
    requires forall i :: 0 <= i < |title| ==> !IsWhitespace(title[i])
    ensures StripInvalid(title) == Glyphs(title)
    ensures forall i :: 0 <= i < |StripInvalid(title)| ==> !IsWhitespace(StripInvalid(title)[i])
  {
    StripInvalidNoWhitespace(title);
    StripInvalidGlyphs(title);
    GlyphsNoop(StripInvalid(title));
  }

  /** A string without whitespace is left alone by collapsing and trimming. */
  lemma WhitespaceFreeNormal(s: string)
    requires forall i :: 0 <= i < |s| ==> !IsWhitespace(s[i])
    ensures Trim(Collapse(s)) == s
  {
    CollapseNoop(s);
    TrimNoop(s);
  }

  // The example title in four-character pieces, each small enough to evaluate.
  lemma ExamplePiece1() ensures Glyphs("My:V") == "MyV" {}
  lemma ExamplePiece2() ensures Glyphs("ideo") == "ideo" {}
  lemma ExamplePiece3() ensures Glyphs("/Tit") == "Tit" {}
  lemma ExamplePiece4() ensures Glyphs("le*?") == "le" {}

  lemma ExampleJoin(title: string)
    requires title == "My:Video/Title*?"
    ensures title == "My:V" + "ideo" + "/Tit" + "le*?"
    ensures "MyV" + "ideo" + "Tit" + "le" == "MyVideoTitle"
  {
  }

  lemma ExampleGlyphs(title: string)
    requires title == "My:Video/Title*?"
    ensures Glyphs(title) == "MyVideoTitle"
  {
    ExampleJoin(title);
    GlyphsAppend("My:V" + "ideo" + "/Tit", "le*?");
    GlyphsAppend("My:V" + "ideo", "/Tit");
    GlyphsAppend("My:V", "ideo");
    ExamplePiece1();
    ExamplePiece2();
    ExamplePiece3();
    ExamplePiece4();
  }

  /** The title `My:Video/Title*?` becomes `MyVideoTitle`. */
  lemma SanitizeExample(title: string)
    requires title == "My:Video/Title*?"
    ensures SanitizeFilename(title) == "MyVideoTitle"
  {
    ExampleGlyphs(title);
    assert forall i :: 0 <= i < |title| ==> !IsWhitespace(title[i]);
    SanitizeWithoutWhitespace(title);
  }
}
