/// A model of `textwrap.shorten(text, width, placeholder="…")` from Python's
/// standard library as of Python 3.10, the call that `tools/nlp.py` delegates
/// its summary to.
/// Every other `TextWrapper` option keeps its default: long words are broken,
/// words are broken on hyphens, whitespace is dropped at line ends, there is
/// no indent, and `shorten` asks for at most one line.
///
/// `shorten` works in three steps, each a function here:
///   1. `Collapse`: `' '.join(text.strip().split())`;
///   2. `Split`: textwrap's chunker cuts the collapsed text into whitespace
///      runs and words, and cuts words again just after certain hyphens;
///   3. `ShortenChunks`: the one-line case of textwrap's line filler. It takes
///      chunks greedily, puts the head of an over-long chunk on the line, then
///      drops chunks from the end until the line ends in a non-blank chunk
///      and still fits with the placeholder.
module TextWrap {
  import opened Wrappers

  /** The placeholder `tools/nlp.py` passes to `shorten`. */
  const Placeholder: string := "…"

  /** The `ValueError` that textwrap raises for a width below one. */
  datatype ShortenError = InvalidWidth(width: int)

  // ------------------------------------------------------------ whitespace

  /** The characters Python's `str.split()` and `str.strip()` treat as whitespace. */
  predicate IsSpace(c: char) {
    c == ' ' || '\t' <= c <= '\r' || '\U{1c}' <= c <= '\U{1f}' || c == '\U{85}' || c == '\U{a0}'
    || c == '\U{1680}' || '\U{2000}' <= c <= '\U{200a}' || c == '\U{2028}' || c == '\U{2029}'
    || c == '\U{202f}' || c == '\U{205f}' || c == '\U{3000}'
  }

  predicate NoSpace(s: string) {
    forall i | 0 <= i < |s| :: !IsSpace(s[i])
  }

  /** `s.strip() == ''`: the string holds whitespace only, or nothing. */
  predicate Blank(s: string) {
    forall i | 0 <= i < |s| :: IsSpace(s[i])
  }

  // ------------------------------------------------------ 1. collapsing

  /** Length of the run of non-whitespace characters that starts `s`. */
  function WordLen(s: string): (n: nat)
    ensures n <= |s| && NoSpace(s[..n])
    ensures n < |s| ==> IsSpace(s[n])
  {
    if s == [] || IsSpace(s[0]) then 0 else 1 + WordLen(s[1..])
  }

  /** Length of the run of whitespace characters that starts `s`. */
  function SpaceLen(s: string): (n: nat)
    ensures n <= |s| && Blank(s[..n])
    ensures n < |s| ==> !IsSpace(s[n])
  {
    if s == [] || !IsSpace(s[0]) then 0 else 1 + SpaceLen(s[1..])
  }

  /** Words that `' '.join` can glue back unambiguously: non-empty, without whitespace. */
  predicate ProperWords(ws: seq<string>) {
    forall j | 0 <= j < |ws| :: ws[j] != [] && NoSpace(ws[j])
  }

  /** `s.split()`: the maximal runs of non-whitespace characters, in order. */
  function Words(s: string): (ws: seq<string>)
    ensures ProperWords(ws)
    decreases |s|
  {
    if s == [] then []
    else if IsSpace(s[0]) then Words(s[1..])
    else
      var n := WordLen(s);
      [s[..n]] + Words(s[n..])
  }

  /** `' '.join(ws)`: it starts with the first word. */
  function Join(ws: seq<string>): (t: string)
    ensures ws != [] ==> ws[0] <= t
  {
    if ws == [] then ""
    else if |ws| == 1 then ws[0]
    else ws[0] + " " + Join(ws[1..])
  }

  /** `' '.join(text.strip().split())`, the first step of `shorten`. */
  function Collapse(text: string): (t: string)
    ensures Collapsed(t)
  {
    JoinCollapsed(Words(text));
    Join(Words(text))
  }

  /** A collapsed text: its only whitespace is single spaces between non-whitespace characters. */
  predicate Collapsed(t: string) {
    forall i | 0 <= i < |t| && IsSpace(t[i]) :: t[i] == ' ' && 0 < i < |t| - 1 && !IsSpace(t[i + 1])
  }

  /** A word followed by whitespace (or by nothing) is the first word. */
  lemma {:induction false} WordsCons(w: string, rest: string)
    requires w != [] && NoSpace(w)
    requires rest == [] || IsSpace(rest[0])
    ensures Words(w + rest) == [w] + Words(rest)
  {
    var t := w + rest;
    var n := WordLen(t);
    assert forall i | 0 <= i < n :: !IsSpace(t[i]) by {
      forall i | 0 <= i < n ensures !IsSpace(t[i]) { assert t[..n][i] == t[i]; }
    }
    assert |w| < |t| ==> IsSpace(t[|w|]);
    if n < |w| {
      assert false;
    } else if n > |w| {
      assert false;
    }
    assert t[..n] == w && t[n..] == rest;
  }

  /** Words that start with whitespace are the words after it. */
  lemma WordsSkip(t: string)
    requires t != [] && IsSpace(t[0])
    ensures Words(t) == Words(t[1..])
  {
  }

  /** `split` undoes `' '.join`. */
  lemma {:induction false} WordsOfJoin(ws: seq<string>)
    requires ProperWords(ws)
    ensures Words(Join(ws)) == ws
  {
    if ws == [] {
    } else if |ws| == 1 {
      WordsCons(ws[0], "");
      assert ws[0] + "" == ws[0];
    } else {
      assert ProperWords(ws[1..]);
      WordsOfJoin(ws[1..]);
      var rest := " " + Join(ws[1..]);
      WordsCons(ws[0], rest);
      assert ws[0] + " " + Join(ws[1..]) == ws[0] + rest;
      WordsSkip(rest);
      assert rest[1..] == Join(ws[1..]);
    }
  }

  /** `' '.join` of proper words is collapsed, and empty exactly when there are no words. */
  lemma {:induction false} JoinCollapsed(ws: seq<string>)
    requires ProperWords(ws)
    ensures Collapsed(Join(ws))
    ensures Join(ws) == [] <==> ws == []
  {
    if |ws| > 1 {
      assert ProperWords(ws[1..]);
      JoinCollapsed(ws[1..]);
      var w, j := ws[0], Join(ws[1..]);
      var t := w + " " + j;
      assert j != [] && !IsSpace(j[0]);
      forall i | 0 <= i < |t| && IsSpace(t[i])
        ensures t[i] == ' ' && 0 < i < |t| - 1 && !IsSpace(t[i + 1])
      {
        if i < |w| {
          assert false;
        } else if i > |w| {
          assert t[i] == j[i - |w| - 1];
          if i + 1 < |t| {
            assert t[i + 1] == j[i - |w|];
          }
        }
      }
    }
  }

  /** The join of a word and further words puts one space between them. */
  lemma JoinCons(w: string, ws: seq<string>)
    requires ws != []
    ensures Join([w] + ws) == w + " " + Join(ws)
  {
    assert ([w] + ws)[1..] == ws;
  }

  /** In a collapsed text, the whitespace after the first word is one space followed by a
      collapsed rest. */
  lemma CollapsedTail(t: string, n: nat)
    requires Collapsed(t) && n < |t| && IsSpace(t[n])
    ensures n + 1 < |t| && t[n] == ' ' && !IsSpace(t[n + 1])
    ensures Collapsed(t[n + 1..])
  {
    var u := t[n + 1..];
    forall i | 0 <= i < |u| && IsSpace(u[i])
      ensures u[i] == ' ' && 0 < i < |u| - 1 && !IsSpace(u[i + 1])
    {
      assert u[i] == t[n + 1 + i];
    }
  }

  /** A text that is one word is the join of its words. */
  lemma JoinOfOneWord(t: string)
    requires t != [] && !IsSpace(t[0]) && WordLen(t) == |t|
    ensures Join(Words(t)) == t
  {
    assert t[..|t|] == t;
  }

  /** The words of a text that starts with a word: that word, then the words after it. */
  lemma WordsFirst(t: string)
    requires t != [] && !IsSpace(t[0])
    ensures Words(t) == [t[..WordLen(t)]] + Words(t[WordLen(t)..])
  {
  }

  /** The words of a text that starts with a word and one space: that word, then the words
      after the space. */
  lemma WordsAfterWord(t: string, n: nat)
    requires t != [] && !IsSpace(t[0]) && n == WordLen(t) && n < |t| && t[n] == ' '
    ensures Words(t) == [t[..n]] + Words(t[n + 1..])
  {
    WordsFirst(t);
    WordsSkip(t[n..]);
    assert t[n..][1..] == t[n + 1..];
  }

  /** A word, one space and a text that is the join of its words is the join of its words. */
  lemma JoinOfWordThenRest(t: string, n: nat)
    requires t != [] && !IsSpace(t[0]) && n == WordLen(t) && n + 1 < |t| && t[n] == ' '
    requires Join(Words(t[n + 1..])) == t[n + 1..]
    ensures Join(Words(t)) == t
  {
    WordsAfterWord(t, n);
    SplitAtSpace(t, n);
    JoinConsJoined(t[..n], Words(t[n + 1..]), t[n + 1..], t);
  }

  lemma SplitAtSpace(t: string, n: nat)
    requires n < |t| && t[n] == ' '
    ensures t == t[..n] + " " + t[n + 1..]
  {
  }

  lemma JoinConsJoined(w: string, ws: seq<string>, u: string, t: string)
    requires Join(ws) == u && u != [] && t == w + " " + u
    ensures Join([w] + ws) == t
  {
    JoinCons(w, ws);
  }

  /** A collapsed text is the join of its own words. */
  lemma {:induction false} JoinOfWords(t: string)
    requires Collapsed(t)
    ensures Join(Words(t)) == t
    decreases |t|
  {
    if t != [] {
      assert !IsSpace(t[0]);
      var n := WordLen(t);
      if n == |t| {
        JoinOfOneWord(t);
      } else {
        CollapsedTail(t, n);
        var u := t[n + 1..];
        JoinOfWords(u);
        JoinOfWordThenRest(t, n);
      }
    }
  }

  /** Collapsing keeps the words, and the collapsed text is in collapsed form. */
  lemma CollapseKeepsWords(text: string)
    ensures Collapsed(Collapse(text))
    ensures Words(Collapse(text)) == Words(text)
  {
    JoinCollapsed(Words(text));
    WordsOfJoin(Words(text));
  }

  /** Collapse is the only collapsed text with the same words as the input. */
  lemma CollapseUnique(text: string, t: string)
    requires Collapsed(t) && Words(t) == Words(text)
    ensures t == Collapse(text)
  {
    JoinOfWords(t);
  }

  /** Collapsing twice is collapsing once. */
  lemma CollapseIdempotent(text: string)
    ensures Collapse(Collapse(text)) == Collapse(text)
  {
    WordsOfJoin(Words(text));
  }

  /** A text has no words exactly when it is blank. */
  lemma {:induction false} WordsEmpty(s: string)
    ensures Words(s) == [] <==> Blank(s)
    decreases |s|
  {
    if s != [] {
      if IsSpace(s[0]) {
        WordsEmpty(s[1..]);
        if Blank(s[1..]) {
          forall i | 0 <= i < |s| ensures IsSpace(s[i]) {
            if i > 0 { assert s[i] == s[1..][i - 1]; }
          }
        }
      }
    }
  }

  /** The collapsed text is empty exactly when the input is blank. */
  lemma CollapseEmpty(text: string)
    ensures Collapse(text) == [] <==> Blank(text)
  {
    WordsEmpty(text);
    JoinCollapsed(Words(text));
  }

  /** Two texts with whitespace at the same places have first words of the same length. */
  lemma {:induction false} SameWordLen(s: string, t: string)
    requires |s| == |t|
    requires forall i | 0 <= i < |s| :: IsSpace(s[i]) == IsSpace(t[i])
    ensures WordLen(s) == WordLen(t)
    decreases |s|
  {
    if s != [] && !IsSpace(s[0]) {
      SameWordLen(s[1..], t[1..]);
    }
  }

  /** Two texts with whitespace at the same places and equal elsewhere have the same words. */
  lemma {:induction false} SameWords(s: string, t: string)
    requires |s| == |t|
    requires forall i | 0 <= i < |s| :: IsSpace(s[i]) == IsSpace(t[i])
    requires forall i | 0 <= i < |s| && !IsSpace(s[i]) :: s[i] == t[i]
    ensures Words(s) == Words(t)
    decreases |s|
  {
    if s != [] {
      if IsSpace(s[0]) {
        SameWords(s[1..], t[1..]);
      } else {
        var n := WordLen(s);
        SameWordLen(s, t);
        assert s[..n] == t[..n];
        SameWords(s[n..], t[n..]);
      }
    }
  }

  // -------------------------------------------------------- 2. chunking

  /** A letter as textwrap's chunking pattern reads `[^\d\W]`: here the ASCII letters and `_`. */
  predicate IsLetter(c: char) {
    'a' <= c <= 'z' || 'A' <= c <= 'Z' || c == '_'
  }

  /** textwrap cuts a word just after the hyphen at `i` when two letters, or a letter, a hyphen
      and a letter, come before it, and a letter, an optional hyphen and a letter come after it. */
  predicate BreaksAfter(w: string, i: nat): (b: bool)
    requires i < |w|
    ensures b ==> 0 < i < |w| - 1 && IsLetter(w[i - 1]) && IsLetter(w[i + 1])
  {
    w[i] == '-'
    && ((2 <= i && IsLetter(w[i - 2]) && IsLetter(w[i - 1]))
        || (3 <= i && IsLetter(w[i - 3]) && w[i - 2] == '-' && IsLetter(w[i - 1])))
    && ((i + 2 < |w| && IsLetter(w[i + 1]) && IsLetter(w[i + 2]))
        || (i + 3 < |w| && IsLetter(w[i + 1]) && w[i + 2] == '-' && IsLetter(w[i + 3])))
  }

  /** The chunks of `w[start..]`: the pending chunk began at `start`, and `i` is the next
      position to look at for a hyphen break. */
  function Pieces(w: string, start: nat, i: nat): (ps: seq<string>)
    requires start <= i <= |w|
    ensures forall j | 0 <= j < |ps| :: ps[j] != []
    decreases |w| - i
  {
    if i == |w| then (if start < |w| then [w[start..]] else [])
    else if BreaksAfter(w, i) then [w[start..i + 1]] + Pieces(w, i + 1, i + 1)
    else Pieces(w, start, i + 1)
  }

  /** textwrap's `_split`: whitespace runs, and words cut at their hyphen breaks, in order.
      Whitespace here is `str.split()`'s set, while textwrap's chunking pattern knows only
      the ASCII whitespace characters. `Split` is only applied to collapsed text, whose one
      whitespace character is the plain space, so the two agree there. */
  function Split(t: string): (cs: seq<string>)
    ensures forall j | 0 <= j < |cs| :: cs[j] != []
    decreases |t|
  {
    if t == [] then []
    else if IsSpace(t[0]) then
      var n := SpaceLen(t);
      [t[..n]] + Split(t[n..])
    else
      var n := WordLen(t);
      Pieces(t[..n], 0, 0) + Split(t[n..])
  }

  /** The text the chunks stand for. */
  function Concat(cs: seq<string>): string {
    if cs == [] then "" else cs[0] + Concat(cs[1..])
  }

  /** Chunks as `_split` makes them: each is a whitespace run or has no whitespace at all. */
  predicate WellFormed(cs: seq<string>) {
    forall j | 0 <= j < |cs| :: Blank(cs[j]) || NoSpace(cs[j])
  }

  lemma {:induction false} ConcatAppend(a: seq<string>, b: seq<string>)
    ensures Concat(a + b) == Concat(a) + Concat(b)
  {
    if a == [] {
      assert a + b == b;
    } else {
      assert (a + b)[1..] == a[1..] + b;
      ConcatAppend(a[1..], b);
      assert Concat(a + b) == a[0] + (Concat(a[1..]) + Concat(b));
    }
  }

  /** The text of the first `m` chunks is a prefix of the text of the first `n`. */
  lemma ConcatPrefix(cs: seq<string>, m: nat, n: nat)
    requires m <= n <= |cs|
    ensures Concat(cs[..m]) <= Concat(cs[..n])
  {
    assert cs[..n] == cs[..m] + cs[m..n];
    ConcatAppend(cs[..m], cs[m..n]);
  }

  /** The text of the first `k + 1` chunks is that of the first `k`, then chunk `k`. */
  lemma ConcatTakeNext(cs: seq<string>, k: nat)
    requires k < |cs|
    ensures Concat(cs[..k + 1]) == Concat(cs[..k]) + cs[k]
  {
    assert cs[..k + 1] == cs[..k] + [cs[k]];
    ConcatAppend(cs[..k], [cs[k]]);
    assert Concat([cs[k]]) == cs[k] + Concat([]);
  }

  /** The pieces of a word put back together give the word, and keep its lack of whitespace. */
  lemma {:induction false} PiecesSpec(w: string, start: nat, i: nat)
    requires start <= i <= |w|
    ensures Concat(Pieces(w, start, i)) == w[start..]
    ensures NoSpace(w) ==> WellFormed(Pieces(w, start, i))
    decreases |w| - i
  {
    if i == |w| {
      if start < |w| {
        assert Concat([w[start..]]) == w[start..] + Concat([]);
      }
    } else if BreaksAfter(w, i) {
      PiecesSpec(w, i + 1, i + 1);
      ConcatAppend([w[start..i + 1]], Pieces(w, i + 1, i + 1));
      assert Concat([w[start..i + 1]]) == w[start..i + 1] + Concat([]);
      assert w[start..] == w[start..i + 1] + w[i + 1..];
    } else {
      PiecesSpec(w, start, i + 1);
    }
  }

  lemma WellFormedAppend(a: seq<string>, b: seq<string>)
    requires WellFormed(a) && WellFormed(b)
    ensures WellFormed(a + b)
  {
    forall j | 0 <= j < |a + b| ensures Blank((a + b)[j]) || NoSpace((a + b)[j]) {
      if j >= |a| {
        assert (a + b)[j] == b[j - |a|];
      }
    }
  }

  /** The chunks of a text are those of its first run followed by those of the rest. */
  lemma SplitStep(t: string, n: nat, head: seq<string>)
    requires n <= |t| && Split(t) == head + Split(t[n..])
    requires Concat(head) == t[..n] && WellFormed(head)
    requires Concat(Split(t[n..])) == t[n..] && WellFormed(Split(t[n..]))
    ensures Concat(Split(t)) == t
    ensures WellFormed(Split(t))
  {
    ConcatAppend(head, Split(t[n..]));
    WellFormedAppend(head, Split(t[n..]));
    assert t == t[..n] + t[n..];
  }

  /** `_split` loses nothing: its chunks put back together give the text, and every chunk is a
      whitespace run or has no whitespace. */
  lemma {:induction false} SplitSpec(t: string)
    ensures Concat(Split(t)) == t
    ensures WellFormed(Split(t))
    decreases |t|
  {
    if t != [] {
      if IsSpace(t[0]) {
        var n := SpaceLen(t);
        assert Concat([t[..n]]) == t[..n] + Concat([]);
        SplitSpec(t[n..]);
        SplitStep(t, n, [t[..n]]);
      } else {
        var n := WordLen(t);
        PiecesSpec(t[..n], 0, 0);
        assert t[..n][0..] == t[..n];
        SplitSpec(t[n..]);
        SplitStep(t, n, Pieces(t[..n], 0, 0));
      }
    }
  }

  // ----------------------------------------------------- 3. filling the line

  /** How many leading chunks textwrap's greedy loop puts on a line of `room` columns. */
  function Fit(cs: seq<string>, room: int): (k: nat)
    requires 0 <= room
    ensures k <= |cs|
    ensures |Concat(cs[..k])| <= room
    ensures k < |cs| ==> room < |Concat(cs[..k])| + |cs[k]|
  {
    if cs == [] || room < |cs[0]| then 0
    else
      var k := 1 + Fit(cs[1..], room - |cs[0]|);
      assert cs[..k][1..] == cs[1..][..k - 1];
      k
  }

  /** `s.rfind(c, 0, end)`: the last index before `end` holding `c`, or -1. */
  function LastIndexBefore(s: string, c: char, end: nat): (h: int)
    requires end <= |s|
    ensures -1 <= h < end
    ensures 0 <= h ==> s[h] == c
    ensures forall i | h < i < end :: s[i] != c
  {
    if end == 0 then -1
    else if s[end - 1] == c then end - 1
    else LastIndexBefore(s, c, end - 1)
  }

  /** The head of an over-long chunk that textwrap's `_handle_long_word` puts on the line when
      `spaceLeft` columns remain: up to and including the last hyphen before the limit when
      something other than hyphens precedes it, and otherwise exactly `spaceLeft` characters.
      The hyphen search dates from Python 3.10; earlier versions always cut `spaceLeft`
      characters. */
  function LongWordHead(chunk: string, spaceLeft: nat): (head: string)
    requires spaceLeft < |chunk|
    ensures head <= chunk && |head| <= spaceLeft
    ensures head == chunk[..spaceLeft] || (head != [] && head[|head| - 1] == '-')
  {
    var h := LastIndexBefore(chunk, '-', spaceLeft);
    var end := if 0 < h && exists i | 0 <= i < h :: chunk[i] != '-' then h + 1 else spaceLeft;
    chunk[..end]
  }

  /** How many leading chunks of `line` survive the placeholder loop: it drops the last chunk
      until the line ends in a non-blank chunk and fits in `width` with the placeholder. */
  function Kept(line: seq<string>, width: int): (j: nat)
    ensures j <= |line|
    ensures 0 < j ==> !Blank(line[j - 1]) && |Concat(line[..j])| + |Placeholder| <= width
    ensures forall m | j < m <= |line| :: Blank(line[m - 1]) || width < |Concat(line[..m])| + |Placeholder|
    decreases |line|
  {
    if line == [] then 0
    else if !Blank(line[|line| - 1]) && |Concat(line)| + |Placeholder| <= width then
      assert line[..|line|] == line;
      |line|
    else
      var j := Kept(line[..|line| - 1], width);
      assert forall m | 0 <= m < |line| :: line[..|line| - 1][..m] == line[..m];
      assert line[..|line|] == line;
      j
  }

  /** The line textwrap has built when not every chunk fits and the placeholder loop starts:
      the chunks that fit greedily, then, when the next chunk is wider than the whole line,
      the head of that chunk. */
  function Line(cs: seq<string>, width: int): seq<string>
    requires 1 <= width < |Concat(cs)|
  {
    var k := Fit(cs, width);
    assert k < |cs| by {
      assert cs[..|cs|] == cs;
    }
    var taken := cs[..k];
    if width < |cs[k]| then taken + [LongWordHead(cs[k], width - |Concat(taken)|)] else taken
  }

  /** The one line `shorten` returns for the chunks `cs`. When everything fits, the chunks are
      returned whole. textwrap's step that drops one trailing blank chunk before the
      placeholder loop is left to that loop, which drops such a chunk anyway. */
  function ShortenChunks(cs: seq<string>, width: int): (line: string)
    requires 1 <= width
    ensures |line| <= width
  {
    if |Concat(cs)| <= width then Concat(cs)
    else
      var line := Line(cs, width);
      Concat(line[..Kept(line, width)]) + Placeholder
  }

  /** `r` is `t` cut short: some prefix of `t` that does not end in whitespace, followed by
      the placeholder. */
  predicate CutShort(r: string, t: string) {
    |Placeholder| <= |r| && r[|r| - |Placeholder|..] == Placeholder
    && var p := r[..|r| - |Placeholder|];
    p <= t && (p == [] || !IsSpace(p[|p| - 1]))
  }

  /** `r` ends where textwrap may end a shortened line: after the first `m` chunks, or after
      a hyphen inside the head of chunk `m`, and then the placeholder. */
  ghost predicate CutAtBreak(r: string, cs: seq<string>) {
    exists m: nat, h: string :: BreakAt(r, cs, m, h)
  }

  /** `r` is the first `m` chunks, then `h`, then the placeholder, where `h` is empty or a
      head of chunk `m` that ends in a hyphen. */
  predicate BreakAt(r: string, cs: seq<string>, m: nat, h: string) {
    m <= |cs| && r == Concat(cs[..m]) + h + Placeholder
    && (h == [] || (m < |cs| && h <= cs[m] && h[|h| - 1] == '-'))
  }

  /** The line starts with the chunks that fit, its text is a prefix of the chunks' text
      that fits in the width, and its chunks are shaped like `_split`'s. */
  lemma LineSpec(cs: seq<string>, width: int)
    requires 1 <= width < |Concat(cs)|
    ensures Fit(cs, width) <= |Line(cs, width)|
    ensures Line(cs, width)[..Fit(cs, width)] == cs[..Fit(cs, width)]
    ensures Concat(Line(cs, width)) <= Concat(cs)
    ensures |Concat(Line(cs, width))| <= width
    ensures WellFormed(cs) ==> WellFormed(Line(cs, width))
  {
    var k := Fit(cs, width);
    assert cs[..|cs|] == cs;
    var taken := cs[..k];
    if width < |cs[k]| {
      var head := LongWordHead(cs[k], width - |Concat(taken)|);
      assert Line(cs, width) == taken + [head];
      LineHeadSpec(cs, k, head);
      if WellFormed(cs) {
        LineHeadShape(cs, k, head);
      }
    } else {
      ConcatPrefix(cs, k, |cs|);
    }
  }

  /** A common start followed by a prefix of `c` is a prefix of the start followed by `c`. */
  lemma PrefixAppend(a: string, h: string, c: string)
    requires h <= c
    ensures a + h <= a + c
  {
    assert (a + c)[..|a| + |h|] == a + h;
  }

  lemma PrefixTrans(a: string, b: string, c: string)
    requires a <= b && b <= c
    ensures a <= c
  {
    assert c[..|a|] == c[..|b|][..|a|];
  }

  lemma ConcatSingle(c: string)
    ensures Concat([c]) == c
  {
    assert Concat([c]) == c + Concat([]);
  }

  /** The chunks that fit followed by a prefix of the next chunk. */
  lemma LineHeadSpec(cs: seq<string>, k: nat, head: string)
    requires k < |cs| && head <= cs[k]
    ensures Concat(cs[..k] + [head]) == Concat(cs[..k]) + head
    ensures Concat(cs[..k] + [head]) <= Concat(cs)
    ensures (cs[..k] + [head])[..k] == cs[..k]
  {
    var done := cs[..k];
    var line := done + [head];
    assert line[..k] == done;
    ConcatAppend(done, [head]);
    ConcatSingle(head);
    var whole := Concat(cs);
    ConcatTakeNext(cs, k);
    PrefixAppend(Concat(done), head, cs[k]);
    ConcatPrefix(cs, k + 1, |cs|);
    assert cs[..|cs|] == cs;
    PrefixTrans(Concat(done) + head, Concat(cs[..k + 1]), whole);
  }

  /** The chunks that fit followed by a prefix of the next chunk are shaped like `_split`'s
      chunks when those are. */
  lemma LineHeadShape(cs: seq<string>, k: nat, head: string)
    requires k < |cs| && head <= cs[k]
    requires WellFormed(cs)
    ensures WellFormed(cs[..k] + [head])
  {
    HeadShape(cs[k], head);
    var line := cs[..k] + [head];
    forall j | 0 <= j < |line| ensures Blank(line[j]) || NoSpace(line[j]) {
      if j < k { assert line[j] == cs[j]; }
    }
  }

  /** A prefix of a whitespace run is one, and a prefix of a chunk without whitespace has none. */
  lemma HeadShape(chunk: string, head: string)
    requires head <= chunk
    ensures Blank(chunk) ==> Blank(head)
    ensures NoSpace(chunk) ==> NoSpace(head)
  {
    assert forall i | 0 <= i < |head| :: head[i] == chunk[i];
  }

  /** The text of the kept chunks of a well-formed line: a prefix of the line's text, and
      either empty or ending in a character other than whitespace. */
  lemma KeptSpec(line: seq<string>, width: int)
    requires WellFormed(line)
    ensures Concat(line[..Kept(line, width)]) <= Concat(line)
    ensures var p := Concat(line[..Kept(line, width)]); p == [] || !IsSpace(p[|p| - 1])
  {
    var j := Kept(line, width);
    ConcatPrefix(line, j, |line|);
    assert line[..|line|] == line;
    if 0 < j {
      ConcatTakeNext(line, j - 1);
      assert line[..j - 1 + 1] == line[..j];
      assert NoSpace(line[j - 1]);
    }
  }

  /** What `shorten` promises of its line: it fits the width; when the whole text fits, the
      line is the text; otherwise the line is the text cut short. */
  lemma ShortenChunksSpec(cs: seq<string>, width: int)
    requires 1 <= width
    requires WellFormed(cs)
    ensures |ShortenChunks(cs, width)| <= width
    ensures |Concat(cs)| <= width ==> ShortenChunks(cs, width) == Concat(cs)
    ensures width < |Concat(cs)| ==> CutShort(ShortenChunks(cs, width), Concat(cs))
    ensures width < |Concat(cs)| ==> CutAtBreak(ShortenChunks(cs, width), cs)
  {
    if width < |Concat(cs)| {
      ShortenChunksCut(cs, width);
      var line := Line(cs, width);
      var j := Kept(line, width);
      var p := Concat(line[..j]);
      assert ShortenChunks(cs, width) == p + Placeholder;
      LineSpec(cs, width);
      KeptSpec(line, width);
      PrefixTrans(p, Concat(line), Concat(cs));
      CutShortOf(p, Concat(cs));
    }
  }

  /** A prefix that does not end in whitespace, followed by the placeholder, is the text cut
      short. */
  lemma CutShortOf(p: string, t: string)
    requires p <= t && (p == [] || !IsSpace(p[|p| - 1]))
    ensures CutShort(p + Placeholder, t)
  {
    var r := p + Placeholder;
    assert r[..|r| - |Placeholder|] == p && r[|r| - |Placeholder|..] == Placeholder;
  }

  lemma CutAtBreakOf(r: string, cs: seq<string>, m: nat, h: string)
    requires m <= |cs| && r == Concat(cs[..m]) + h + Placeholder
    requires h == [] || (m < |cs| && h <= cs[m] && h[|h| - 1] == '-')
    ensures CutAtBreak(r, cs)
  {
    assert BreakAt(r, cs, m, h);
  }

  /** Keeping no more than the chunks that fit cuts at a chunk boundary. */
  lemma CutWithinFit(cs: seq<string>, line: seq<string>, k: nat, j: nat)
    requires j <= k <= |cs| && k <= |line| && line[..k] == cs[..k]
    ensures CutAtBreak(Concat(line[..j]) + Placeholder, cs)
  {
    assert line[..j] == line[..k][..j];
    assert cs[..j] == cs[..k][..j];
    CutAtBreakOf(Concat(line[..j]) + Placeholder, cs, j, []);
  }

  /** A long-chunk head that is shorter than the space left was cut after a hyphen. */
  lemma ShortHeadEndsInHyphen(chunk: string, spaceLeft: nat)
    requires spaceLeft < |chunk|
    requires |LongWordHead(chunk, spaceLeft)| < spaceLeft
    ensures var head := LongWordHead(chunk, spaceLeft); head != [] && head[|head| - 1] == '-'
  {
  }

  /** Keeping the head of the next chunk as well cuts just after a hyphen in it. */
  lemma CutInHead(cs: seq<string>, k: nat, spaceLeft: nat, width: int)
    requires k < |cs| && spaceLeft < |cs[k]|
    requires spaceLeft == width - |Concat(cs[..k])|
    requires |Concat(cs[..k] + [LongWordHead(cs[k], spaceLeft)])| + |Placeholder| <= width
    ensures CutAtBreak(Concat(cs[..k] + [LongWordHead(cs[k], spaceLeft)]) + Placeholder, cs)
  {
    var head := LongWordHead(cs[k], spaceLeft);
    LineHeadSpec(cs, k, head);
    ShortHeadEndsInHyphen(cs[k], spaceLeft);
    CutAtBreakOf(Concat(cs[..k] + [head]) + Placeholder, cs, k, head);
  }

  /** `shorten` cuts only at a break: a chunk boundary, or just after a hyphen in the head of
      an over-long chunk. A head cut at the width itself never survives the placeholder loop,
      because with the placeholder it no longer fits. */
  lemma ShortenChunksCut(cs: seq<string>, width: int)
    requires 1 <= width < |Concat(cs)|
    ensures CutAtBreak(ShortenChunks(cs, width), cs)
  {
    var k := Fit(cs, width);
    var line := Line(cs, width);
    var j := Kept(line, width);
    LineSpec(cs, width);
    if j <= k {
      CutWithinFit(cs, line, k, j);
    } else {
      assert cs[..|cs|] == cs;
      assert k < |cs| && width < |cs[k]|;
      var spaceLeft := width - |Concat(cs[..k])|;
      assert line == cs[..k] + [LongWordHead(cs[k], spaceLeft)];
      assert line[..j] == line;
      CutInHead(cs, k, spaceLeft, width);
    }
  }

  /** When the first chunk has no hyphen and does not fit together with the placeholder,
      nothing is kept and the line is the placeholder alone. */
  lemma ShortenChunksNothingFits(cs: seq<string>, width: int)
    requires 1 <= width < |Concat(cs)|
    requires cs != [] && width < |cs[0]| + |Placeholder| && '-' !in cs[0]
    ensures ShortenChunks(cs, width) == Placeholder
  {
    var r := ShortenChunks(cs, width);
    ShortenChunksCut(cs, width);
    var m: nat, h: string :| BreakAt(r, cs, m, h);
    NothingBeforePlaceholder(r, cs, width, m, h);
  }

  /** A cut line within the width that cannot hold the first chunk, nor a hyphen head of it,
      is the placeholder alone. */
  lemma NothingBeforePlaceholder(r: string, cs: seq<string>, width: int, m: nat, h: string)
    requires cs != [] && width < |cs[0]| + |Placeholder| && '-' !in cs[0]
    requires BreakAt(r, cs, m, h) && |r| <= width
    ensures r == Placeholder
  {
    if 0 < m {
      assert false;
    }
    if h != [] {
      assert false;
    }
    assert cs[..0] == [];
  }

  /** The greedy fill never gives up a chunk it could keep: every run of leading chunks that
      ends in a non-blank chunk and fits with the placeholder is part of the line. */
  lemma ShortenChunksKeepsWhatFits(cs: seq<string>, width: int, m: nat)
    requires 1 <= width < |Concat(cs)|
    requires 0 < m <= |cs| && !Blank(cs[m - 1])
    requires |Concat(cs[..m])| + |Placeholder| <= width
    ensures Concat(cs[..m]) <= ShortenChunks(cs, width)
  {
    var k := Fit(cs, width);
    var line := Line(cs, width);
    LineSpec(cs, width);
    assert cs[..|cs|] == cs;
    ConcatTakeNext(cs, k);
    if k < m {
      ConcatPrefix(cs, k + 1, m);
      assert false;
    }
    assert line[..m] == cs[..m];
    assert line[m - 1] == cs[m - 1];
    var j := Kept(line, width);
    if j < m {
      assert false;
    }
    ConcatPrefix(line, m, j);
  }

  /** A word without hyphens is one chunk. */
  lemma {:induction false} PiecesNoHyphen(w: string, start: nat, i: nat)
    requires '-' !in w && start <= i <= |w| && start < |w|
    ensures Pieces(w, start, i) == [w[start..]]
    decreases |w| - i
  {
    if i < |w| {
      assert w[i] in w;
      PiecesNoHyphen(w, start, i + 1);
    }
  }

  /** The first chunk of a collapsed text is its first word when that word has no hyphen. */
  lemma FirstChunk(text: string)
    requires Words(text) != [] && '-' !in Words(text)[0]
    ensures Split(Collapse(text)) != [] && Split(Collapse(text))[0] == Words(text)[0]
  {
    var t := Collapse(text);
    CollapseKeepsWords(text);
    assert t != [];
    assert !IsSpace(t[0]);
    WordsFirst(t);
    var n := WordLen(t);
    assert t[..n] == Words(text)[0];
    PiecesNoHyphen(t[..n], 0, 0);
    assert t[..n][0..] == t[..n];
  }

  /** `textwrap.shorten(text, width, placeholder="…")`. */
  function Shorten(text: string, width: int): (r: Result<string, ShortenError>)
    ensures r.Failure? <==> width < 1
    ensures r.Failure? ==> r.error == InvalidWidth(width)
    ensures r.Success? ==> |r.value| <= width
  {
    if width < 1 then Failure(InvalidWidth(width))
    else Success(ShortenChunks(Split(Collapse(text)), width))
  }
}
