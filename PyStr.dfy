/**
  The few Python `str` operations the astronaut scripts rely on, over Dafny strings:
  `isspace`, `strip()`, `split()`, `split(sep)`, `lower()`, `upper()`, the `in`
  substring test and `str(int)`.
*/
module PyStr {

  // ---------------------------------------------------------------------------
  // Whitespace
  // ---------------------------------------------------------------------------

  /** Python's `str.isspace()` on one character: the set that `split()` and `strip()`
      with no argument treat as whitespace (and that the regular expression `\s` matches). */
  predicate IsSpace(c: char) {
    || ('\t' <= c <= '\r')
    || ('\U{1C}' <= c <= ' ')
    || c == '\U{85}' || c == '\U{A0}' || c == '\U{1680}'
    || ('\U{2000}' <= c <= '\U{200A}')
    || c == '\U{2028}' || c == '\U{2029}' || c == '\U{202F}' || c == '\U{205F}' || c == '\U{3000}'
  }

  predicate AllSpace(s: string) {
    forall i :: 0 <= i < |s| ==> IsSpace(s[i])
  }

  predicate NoSpace(s: string) {
    forall i :: 0 <= i < |s| ==> !IsSpace(s[i])
  }

  /** Length of the leading whitespace run of `s`. */
  function LeadingSpace(s: string): (n: nat)
    ensures n <= |s| && AllSpace(s[..n])
    ensures n < |s| ==> !IsSpace(s[n])
  {
    if s == [] || !IsSpace(s[0]) then 0
    else
      var m := LeadingSpace(s[1..]);
      assert s[..1 + m] == [s[0]] + s[1..][..m];
      1 + m
  }

  /** Length of the leading run of non-whitespace characters of `s`. */
  function LeadingWord(s: string): (n: nat)
    ensures n <= |s| && NoSpace(s[..n])
    ensures n < |s| ==> IsSpace(s[n])
  {
    if s == [] || IsSpace(s[0]) then 0
    else
      var m := LeadingWord(s[1..]);
      assert s[..1 + m] == [s[0]] + s[1..][..m];
      1 + m
  }

  // ---------------------------------------------------------------------------
  // strip()
  // ---------------------------------------------------------------------------

  /** Python's `s.lstrip()`: `s` without its leading whitespace. */
  function StripLeft(s: string): (r: string)
    ensures |r| <= |s|
  {
    if s != [] && IsSpace(s[0]) then StripLeft(s[1..]) else s
  }

  /** Python's `s.rstrip()`: `s` without its trailing whitespace. */
  function StripRight(s: string): (r: string)
    ensures |r| <= |s|
  {
    if s != [] && IsSpace(s[|s| - 1]) then StripRight(s[..|s| - 1]) else s
  }

  /** Python's `s.strip()`: `s` without its leading and trailing whitespace. */
  function Strip(s: string): (r: string)
    ensures |r| <= |s|
  {
    StripRight(StripLeft(s))
  }

  /** `s` neither starts nor ends with whitespace. */
  predicate Trimmed(s: string) {
    s == [] || (!IsSpace(s[0]) && !IsSpace(s[|s| - 1]))
  }

  /** `lstrip()` removes a prefix made only of whitespace, and what it leaves does not start
      with whitespace. */
  lemma {:induction false} StripLeftSuffix(s: string)
    ensures var r := StripLeft(s);
      && r == s[|s| - |r|..]
      && AllSpace(s[..|s| - |r|])
      && (r != [] ==> !IsSpace(r[0]))
    decreases |s|
  {
    if s != [] && IsSpace(s[0]) {
      StripLeftSuffix(s[1..]);
      var r := StripLeft(s[1..]);
      assert s[1..][..|s| - 1 - |r|] == s[1..|s| - |r|];
      assert s[..|s| - |r|] == [s[0]] + s[1..|s| - |r|];
    }
  }

  /** `rstrip()` removes a suffix made only of whitespace, and what it leaves does not end
      with whitespace. */
  lemma {:induction false} StripRightPrefix(s: string)
    ensures var r := StripRight(s);
      && r == s[..|r|]
      && AllSpace(s[|r|..])
      && (r != [] ==> !IsSpace(r[|r| - 1]))
    decreases |s|
  {
    if s != [] && IsSpace(s[|s| - 1]) {
      var t := s[..|s| - 1];
      StripRightPrefix(t);
      var r := StripRight(t);
      assert t[|r|..] == s[|r|..|s| - 1];
      assert s[|r|..] == s[|r|..|s| - 1] + [s[|s| - 1]];
    }
  }

  /** The strip of `s` is the slice of `s` left between a whitespace prefix and a
      whitespace suffix, and it neither starts nor ends with whitespace. */
  lemma StripSlice(s: string)
    ensures var r := Strip(s); var n := |s| - |StripLeft(s)|;
      && n + |r| <= |s|
      && r == s[n..n + |r|]
      && AllSpace(s[..n])
      && AllSpace(s[n + |r|..])
      && Trimmed(r)
  {
    var l := StripLeft(s);
    StripLeftSuffix(s);
    StripRightPrefix(l);
    var r := StripRight(l);
    var n := |s| - |l|;
    assert r == s[n..n + |r|] by {
      assert l == s[n..];
    }
    assert AllSpace(s[n + |r|..]) by {
      assert s[n + |r|..] == l[|r|..];
    }
    assert Trimmed(r) by {
      if r != [] {
        assert r[0] == l[0];
      }
    }
  }

  /** The strip is empty exactly when `s` is all whitespace. */
  lemma StripEmpty(s: string)
    ensures Strip(s) == [] <==> AllSpace(s)
  {
    var l := StripLeft(s);
    StripLeftSuffix(s);
    StripRightPrefix(l);
    if AllSpace(s) && l != [] {
      assert false;
    }
    if Strip(s) == [] {
      assert AllSpace(l) by { assert l[0..] == l; }
      assert s == s[..|s| - |l|] + l;
    }
  }

  /** `lstrip()` removes exactly a whitespace prefix in front of text that does not start
      with whitespace. */
  lemma {:induction false} StripLeftPadded(pad: string, t: string)
    requires AllSpace(pad) && (t == [] || !IsSpace(t[0]))
    ensures StripLeft(pad + t) == t
    decreases |pad|
  {
    if pad != [] {
      assert (pad + t)[1..] == pad[1..] + t;
      StripLeftPadded(pad[1..], t);
    }
  }

  /** `rstrip()` removes exactly a whitespace suffix behind text that does not end with
      whitespace. */
  lemma {:induction false} StripRightPadded(t: string, pad: string)
    requires AllSpace(pad) && (t == [] || !IsSpace(t[|t| - 1]))
    ensures StripRight(t + pad) == t
    decreases |pad|
  {
    if pad != [] {
      assert (t + pad)[..|t + pad| - 1] == t + pad[..|pad| - 1];
      StripRightPadded(t, pad[..|pad| - 1]);
    }
  }

  /** Stripping whitespace padding from both ends of a trimmed, non-empty text gives the
      text back. */
  lemma StripPadded(before: string, w: string, after: string)
    requires AllSpace(before) && AllSpace(after) && w != [] && Trimmed(w)
    ensures Strip(before + w + after) == w
  {
    assert before + w + after == before + (w + after);
    StripLeftPadded(before, w + after);
    StripRightPadded(w, after);
  }

  /** A string that neither starts nor ends with whitespace is its own strip. */
  lemma StripTrimmed(s: string)
    requires Trimmed(s)
    ensures Strip(s) == s
  {
  }

  /** Stripping twice is stripping once (the birthplace rewrite strips the last segment
      twice). */
  lemma StripIdempotent(s: string)
    ensures Strip(Strip(s)) == Strip(s)
  {
    StripSlice(s);
    StripTrimmed(Strip(s));
  }

  // ---------------------------------------------------------------------------
  // split() with no argument
  // ---------------------------------------------------------------------------

  /** Words as `split()` returns them: non-empty and free of whitespace. */
  predicate Words(words: seq<string>) {
    forall k :: 0 <= k < |words| ==> words[k] != [] && NoSpace(words[k])
  }

  /** A word in front of words gives words. */
  lemma WordsCons(w: string, ws: seq<string>)
    requires w != [] && NoSpace(w) && Words(ws)
    ensures Words([w] + ws)
  {
    forall k | 0 <= k < |[w] + ws|
      ensures ([w] + ws)[k] != [] && NoSpace(([w] + ws)[k])
    {
      if k > 0 {
        assert ([w] + ws)[k] == ws[k - 1];
      }
    }
  }

  /** Python's `s.split()`: the words of `s`, i.e. its maximal runs of non-whitespace
      characters, in order. Every word is non-empty and holds no whitespace, and there are
      none exactly when `s` is all whitespace. `SplitDecomposition` and `SplitWeave` below
      characterize the result completely. */
  function Split(s: string): (words: seq<string>)
    ensures Words(words)
    ensures words == [] <==> AllSpace(s)
    decreases |s|
  {
    var t := s[LeadingSpace(s)..];
    if t == [] then
      assert AllSpace(s) by { assert s == s[..LeadingSpace(s)]; }
      []
    else
      assert !AllSpace(s) by { assert !IsSpace(s[LeadingSpace(s)]); }
      var n := LeadingWord(t);
      WordsCons(t[..n], Split(t[n..]));
      [t[..n]] + Split(t[n..])
  }

  /** Interleaves whitespace gaps with words: gaps[0] + words[0] + gaps[1] + ... + gaps[n]. */
  function Weave(gaps: seq<string>, words: seq<string>): string
    requires |gaps| == |words| + 1
    decreases |words|
  {
    if words == [] then gaps[0] else gaps[0] + words[0] + Weave(gaps[1..], words[1..])
  }

  /** Gaps that may separate words: all whitespace, and non-empty between two words. */
  predicate Separators(gaps: seq<string>) {
    && (forall k :: 0 <= k < |gaps| ==> AllSpace(gaps[k]))
    && (forall k :: 0 < k < |gaps| - 1 ==> gaps[k] != [])
  }

  /** The whitespace gaps around and between the words of `s`. */
  ghost function Gaps(s: string): (gaps: seq<string>)
    ensures |gaps| == |Split(s)| + 1
    decreases |s|
  {
    var k := LeadingSpace(s);
    var t := s[k..];
    if t == [] then [s]
    else [s[..k]] + Gaps(t[LeadingWord(t)..])
  }

  /** Every string is its words woven with its gaps: the words of `s` are exactly the
      non-empty whitespace-free pieces that whitespace separates. */
  lemma {:induction false} SplitDecomposition(s: string)
    ensures Separators(Gaps(s))
    ensures s == Weave(Gaps(s), Split(s))
    decreases |s|
  {
    var k := LeadingSpace(s);
    var t := s[k..];
    if t == [] {
      assert Gaps(s) == [s];
      assert Split(s) == [];
    } else {
      var n := LeadingWord(t);
      SplitDecomposition(t[n..]);
      DecompositionStep(s);
    }
  }

  lemma SliceThree(s: string, k: nat, n: nat)
    requires k + n <= |s|
    ensures s == s[..k] + s[k..][..n] + s[k..][n..]
  {
    assert s[k..] == s[k..][..n] + s[k..][n..];
    assert s == s[..k] + s[k..];
  }

  /** One step of `SplitDecomposition`: from the words and gaps after the first word to
      those of the whole string. */
  lemma DecompositionStep(s: string)
    requires s[LeadingSpace(s)..] != []
    requires var t := s[LeadingSpace(s)..]; var rest := t[LeadingWord(t)..];
      Separators(Gaps(rest)) && rest == Weave(Gaps(rest), Split(rest))
    ensures Separators(Gaps(s))
    ensures s == Weave(Gaps(s), Split(s))
  {
    var k := LeadingSpace(s);
    var t := s[k..];
    var n := LeadingWord(t);
    var rest := t[n..];
    var g := Gaps(s);
    var gr := Gaps(rest);
    var words := Split(s);
    assert g == [s[..k]] + gr;
    assert words == [t[..n]] + Split(rest);
    assert s == Weave(g, words) by {
      assert g[1..] == gr;
      assert words[1..] == Split(rest);
      SliceThree(s, k, n);
      assert Weave(g, words) == g[0] + words[0] + Weave(gr, Split(rest));
    }
    assert Separators(g) by {
      if |gr| > 1 {
        assert rest != [] && IsSpace(rest[0]);
        assert gr[0] == rest[..LeadingSpace(rest)];
      }
      forall j | 0 < j < |g| ensures AllSpace(g[j]) && (j < |g| - 1 ==> g[j] != []) {
        assert g[j] == gr[j - 1];
      }
      assert AllSpace(g[0]);
    }
  }

  /** The words of a string depend only on what follows its leading whitespace. */
  lemma SplitAfterSpace(x: string, y: string)
    requires x[LeadingSpace(x)..] == y[LeadingSpace(y)..]
    ensures Split(x) == Split(y)
  {
  }

  /** One whitespace character in front of a string does not change its words. */
  lemma SplitSkipsOne(c: char, s: string)
    requires IsSpace(c)
    ensures Split([c] + s) == Split(s)
  {
    var x := [c] + s;
    assert x[1..] == s;
    assert LeadingSpace(x) == 1 + LeadingSpace(s);
    assert x[LeadingSpace(x)..] == s[LeadingSpace(s)..];
    SplitAfterSpace(x, s);
  }

  /** Whitespace in front of a string does not change its words. */
  lemma {:induction false} SplitSkipsSpace(gap: string, s: string)
    requires AllSpace(gap)
    ensures Split(gap + s) == Split(s)
    decreases |gap|
  {
    if gap == [] {
      assert gap + s == s;
    } else {
      var u := gap[1..] + s;
      assert gap + s == [gap[0]] + u;
      SplitSkipsOne(gap[0], u);
      SplitSkipsSpace(gap[1..], s);
    }
  }

  /** The leading word of `w + rest` is `w` when `rest` starts with whitespace. */
  lemma {:induction false} LeadingWordOf(w: string, rest: string)
    requires NoSpace(w)
    requires rest == [] || IsSpace(rest[0])
    ensures LeadingWord(w + rest) == |w|
    decreases |w|
  {
    if w != [] {
      assert (w + rest)[1..] == w[1..] + rest;
      LeadingWordOf(w[1..], rest);
    }
  }

  /** A word followed by whitespace (or nothing) is the first word. */
  lemma SplitWordFirst(w: string, rest: string)
    requires w != [] && NoSpace(w)
    requires rest == [] || IsSpace(rest[0])
    ensures Split(w + rest) == [w] + Split(rest)
  {
    var s := w + rest;
    assert LeadingSpace(s) == 0 by { assert !IsSpace(s[0]); }
    LeadingWordOf(w, rest);
    assert s[..|w|] == w;
    assert s[|w|..] == rest;
  }

  /** Conversely, weaving words with separating whitespace gives back exactly those words. */
  lemma {:induction false} SplitWeave(gaps: seq<string>, words: seq<string>)
    requires |gaps| == |words| + 1
    requires Separators(gaps) && Words(words)
    ensures Split(Weave(gaps, words)) == words
    decreases |words|
  {
    if words != [] {
      SeparatorsTail(gaps);
      SplitWeave(gaps[1..], words[1..]);
      WeaveStep(gaps, words);
    }
  }

  /** The gaps after the first one still separate the remaining words. */
  lemma SeparatorsTail(gaps: seq<string>)
    requires |gaps| >= 2 && Separators(gaps)
    ensures Separators(gaps[1..])
  {
    forall j | 0 <= j < |gaps| - 1 ensures AllSpace(gaps[1..][j]) && (0 < j < |gaps| - 2 ==> gaps[1..][j] != []) {
      assert gaps[1..][j] == gaps[j + 1];
    }
  }

  /** What follows the first word of a weave is empty or starts with whitespace. */
  lemma WeaveTailStart(gaps: seq<string>, words: seq<string>)
    requires |gaps| == |words| + 1 && words != []
    requires Separators(gaps)
    ensures var rest := Weave(gaps[1..], words[1..]); rest == [] || IsSpace(rest[0])
  {
    var rest := Weave(gaps[1..], words[1..]);
    if words[1..] != [] {
      assert gaps[1] != [];
      assert rest == gaps[1..][0] + words[1..][0] + Weave(gaps[1..][1..], words[1..][1..]);
      assert rest[0] == gaps[1][0];
    } else {
      assert rest == gaps[1];
    }
  }

  /** A weave is its first gap, then its first word, then the weave of the rest. */
  lemma WeaveFront(gaps: seq<string>, words: seq<string>)
    requires |gaps| == |words| + 1 && words != []
    ensures Weave(gaps, words) == gaps[0] + (words[0] + Weave(gaps[1..], words[1..]))
  {
  }

  /** One step of `SplitWeave`: the first gap is skipped and the first word is split off. */
  lemma WeaveStep(gaps: seq<string>, words: seq<string>)
    requires |gaps| == |words| + 1 && words != []
    requires Separators(gaps) && Words(words)
    requires Split(Weave(gaps[1..], words[1..])) == words[1..]
    ensures Split(Weave(gaps, words)) == words
  {
    var rest := Weave(gaps[1..], words[1..]);
    var w := words[0];
    WeaveTailStart(gaps, words);
    WeaveFront(gaps, words);
    SplitSkipsSpace(gaps[0], w + rest);
    SplitWordFirst(w, rest);
    assert [w] + words[1..] == words;
  }

  // ---------------------------------------------------------------------------
  // split(sep) for a one-character separator
  // ---------------------------------------------------------------------------

  /** Python's `s.split(sep)` for a one-character separator: the pieces between separators,
      empty pieces included. Read from the left, a separator opens a new piece and any other
      character belongs to the first piece of what follows it. */
  function SplitOn(s: string, sep: char): (parts: seq<string>)
    ensures |parts| >= 1
    decreases |s|
  {
    if s == [] then [[]]
    else
      var rest := SplitOn(s[1..], sep);
      if s[0] == sep then [[]] + rest else [[s[0]] + rest[0]] + rest[1..]
  }

  /** Python's `sep.join(parts)` for a one-character separator. */
  function JoinOn(parts: seq<string>, sep: char): string
    requires |parts| >= 1
  {
    if |parts| == 1 then parts[0] else parts[0] + [sep] + JoinOn(parts[1..], sep)
  }

  /** No piece holds the separator. */
  predicate SeparatorFree(parts: seq<string>, sep: char) {
    forall k :: 0 <= k < |parts| ==> sep !in parts[k]
  }

  /** There is one piece more than there are separators in `s` (so there is a single piece
      exactly when `s` holds no separator), and no piece holds the separator. */
  lemma {:induction false} SplitOnPieces(s: string, sep: char)
    ensures |SplitOn(s, sep)| == multiset(s)[sep] + 1
    ensures |SplitOn(s, sep)| == 1 <==> sep !in s
    ensures SeparatorFree(SplitOn(s, sep), sep)
    decreases |s|
  {
    if s != [] {
      var rest := SplitOn(s[1..], sep);
      SplitOnPieces(s[1..], sep);
      assert s == [s[0]] + s[1..];
      assert multiset(s) == multiset([s[0]]) + multiset(s[1..]);
      if s[0] != sep {
        var parts := SplitOn(s, sep);
        forall k | 0 <= k < |parts| ensures sep !in parts[k] {
          if k > 0 {
            assert parts[k] == rest[k];
          }
        }
      }
    }
  }

  /** Joining the pieces of `s.split(sep)` with `sep` gives back `s`. */
  lemma {:induction false} JoinSplitOn(s: string, sep: char)
    ensures JoinOn(SplitOn(s, sep), sep) == s
    decreases |s|
  {
    if s != [] {
      var rest := SplitOn(s[1..], sep);
      JoinSplitOn(s[1..], sep);
      assert s == [s[0]] + s[1..];
      if s[0] != sep && |rest| > 1 {
        assert ([s[0]] + rest[0]) + [sep] + JoinOn(rest[1..], sep) == [s[0]] + JoinOn(rest, sep);
      }
    }
  }

  /** Text without the separator is a single piece. */
  lemma {:induction false} SplitOnFree(p: string, sep: char)
    requires sep !in p
    ensures SplitOn(p, sep) == [p]
    decreases |p|
  {
    if p != [] {
      SplitOnFree(p[1..], sep);
      assert p == [p[0]] + p[1..];
    }
  }

  /** A separator-free first piece followed by the separator is split off as the first
      piece. */
  lemma {:induction false} SplitOnFirst(p: string, sep: char, rest: string)
    requires sep !in p
    ensures SplitOn(p + [sep] + rest, sep) == [p] + SplitOn(rest, sep)
    decreases |p|
  {
    var s := p + [sep] + rest;
    if p == [] {
      assert s[1..] == rest;
    } else {
      assert s[1..] == p[1..] + [sep] + rest;
      SplitOnFirst(p[1..], sep, rest);
      assert p == [p[0]] + p[1..];
    }
  }

  /** Splitting a join of separator-free pieces gives back the pieces. */
  lemma {:induction false} SplitOnJoin(parts: seq<string>, sep: char)
    requires |parts| >= 1 && SeparatorFree(parts, sep)
    ensures SplitOn(JoinOn(parts, sep), sep) == parts
    decreases |parts|
  {
    if |parts| == 1 {
      SplitOnFree(parts[0], sep);
    } else {
      assert SeparatorFree(parts[1..], sep) by {
        forall k | 0 <= k < |parts| - 1 ensures sep !in parts[1..][k] {
          assert parts[1..][k] == parts[k + 1];
        }
      }
      SplitOnJoin(parts[1..], sep);
      SplitOnFirst(parts[0], sep, JoinOn(parts[1..], sep));
    }
  }

  /** A join of two or more pieces ends with a separator followed by the last piece. */
  lemma {:induction false} JoinOnLast(parts: seq<string>, sep: char)
    requires |parts| >= 2
    ensures JoinOn(parts, sep) == JoinOn(parts[..|parts| - 1], sep) + [sep] + parts[|parts| - 1]
    decreases |parts|
  {
    if |parts| > 2 {
      JoinOnLast(parts[1..], sep);
      assert parts[1..][..|parts| - 2] == parts[..|parts| - 1][1..];
    }
  }

  /** The text after the last `sep` in `s`, or all of `s` when it holds none (the last
      element of Python's `s.rpartition(sep)`). */
  function AfterLast(s: string, sep: char): (r: string)
    ensures |r| <= |s|
  {
    if s == [] || s[|s| - 1] == sep then [] else AfterLast(s[..|s| - 1], sep) + [s[|s| - 1]]
  }

  /** `t` is a suffix of `s` without the separator that is all of `s` or follows a
      separator. */
  predicate LastPieceOf(s: string, t: string, sep: char) {
    && |t| <= |s| && t == s[|s| - |t|..] && sep !in t
    && (|t| < |s| ==> s[|s| - |t| - 1] == sep)
  }

  /** Text after the last separator: a separator-free suffix that follows a separator,
      and all of `s` exactly when `s` holds no separator. */
  lemma {:induction false} AfterLastSuffix(s: string, sep: char)
    ensures LastPieceOf(s, AfterLast(s, sep), sep)
    ensures |AfterLast(s, sep)| == |s| <==> sep !in s
    decreases |s|
  {
    if s != [] && s[|s| - 1] != sep {
      var t := s[..|s| - 1];
      AfterLastSuffix(t, sep);
      var r := AfterLast(t, sep);
      assert s[|s| - |r| - 1..] == t[|t| - |r|..] + [s[|s| - 1]];
      assert s == t + [s[|s| - 1]];
    }
  }

  /** There is only one suffix of `s` that is its last piece. */
  lemma LastPieceUnique(s: string, a: string, b: string, sep: char)
    requires LastPieceOf(s, a, sep) && LastPieceOf(s, b, sep)
    ensures a == b
  {
    if |a| != |b| {
      assert false;
    }
  }

  /** The last piece of `s.split(sep)` is the text after the last separator. */
  lemma SplitOnLast(s: string, sep: char)
    ensures var parts := SplitOn(s, sep); parts[|parts| - 1] == AfterLast(s, sep)
  {
    var parts := SplitOn(s, sep);
    var last := parts[|parts| - 1];
    AfterLastSuffix(s, sep);
    if |parts| >= 2 {
      assert LastPieceOf(s, last, sep) by {
        SplitOnPieces(s, sep);
        JoinSplitOn(s, sep);
        JoinOnLast(parts, sep);
        var front := JoinOn(parts[..|parts| - 1], sep);
        assert s == front + [sep] + last;
        assert s[|s| - |last|..] == last;
      }
      LastPieceUnique(s, last, AfterLast(s, sep), sep);
    } else {
      assert sep !in s by {
        SplitOnPieces(s, sep);
      }
      JoinSplitOn(s, sep);
    }
  }

  /** The text after the last separator of `front + [sep] + last`, when `last` holds none,
      is `last`. */
  lemma AfterLastJoin(front: string, sep: char, last: string)
    requires sep !in last
    ensures AfterLast(front + [sep] + last, sep) == last
  {
    var s := front + [sep] + last;
    assert s[|s| - |last|..] == last;
    assert s[|s| - |last| - 1] == sep;
    AfterLastSuffix(s, sep);
    LastPieceUnique(s, last, AfterLast(s, sep), sep);
  }

  // ---------------------------------------------------------------------------
  // Case mapping
  // ---------------------------------------------------------------------------

  /** Python's `lower()` on one character, for ASCII: 'A'..'Z' become 'a'..'z'; every other
      character is left as it is. */
  function LowerChar(c: char): char {
    if 'A' <= c <= 'Z' then (c as int + 32) as char else c
  }

  /** `s.lower()` as far as the classifiers can observe it (see the comment on
      `Categories`). */
  function AsciiLower(s: string): string {
    seq(|s|, i requires 0 <= i < |s| => LowerChar(s[i]))
  }

  /** Python's `upper()` on one character: 'a'..'z' become 'A'..'Z', and the non-ASCII
      characters whose Python uppercase form is all ASCII get that form (dotless i, long s,
      sharp s and the Latin ligatures U+FB00..U+FB06). Every other character is left as it
      is; for those Python may return another non-ASCII form, which makes no difference to
      a lookup among ASCII keys. */
  function UpperChar(c: char): string {
    if 'a' <= c <= 'z' then [(c as int - 32) as char]
    else if c == '\U{131}' then "I"
    else if c == '\U{17F}' then "S"
    else if c == '\U{DF}' then "SS"
    else if c == '\U{FB00}' then "FF"
    else if c == '\U{FB01}' then "FI"
    else if c == '\U{FB02}' then "FL"
    else if c == '\U{FB03}' then "FFI"
    else if c == '\U{FB04}' then "FFL"
    else if c == '\U{FB05}' || c == '\U{FB06}' then "ST"
    else [c]
  }

  /** `s.upper()`: a character may grow into several ("ß" gives "SS"), never into none. */
  function Upper(s: string): (r: string)
    ensures |r| >= |s|
  {
    if s == [] then [] else UpperChar(s[0]) + Upper(s[1..])
  }

  /** Upper-casing is insensitive to the ASCII case of its input. */
  lemma {:induction false} UpperOfLower(s: string)
    ensures Upper(AsciiLower(s)) == Upper(s)
    decreases |s|
  {
    if s != [] {
      assert AsciiLower(s) == [LowerChar(s[0])] + AsciiLower(s[1..]);
      UpperOfLower(s[1..]);
    }
  }

  /** A character that `upper()` leaves alone. */
  predicate UpperFixed(c: char) {
    UpperChar(c) == [c]
  }

  /** Upper-casing twice is upper-casing once. */
  lemma {:induction false} UpperIdempotent(s: string)
    ensures Upper(Upper(s)) == Upper(s)
    decreases |s|
  {
    if s != [] {
      UpperCharFixed(s[0]);
      UpperConcat(UpperChar(s[0]), Upper(s[1..]));
      UpperIdempotent(s[1..]);
    }
  }

  lemma {:induction false} UpperConcat(a: string, b: string)
    ensures Upper(a + b) == Upper(a) + Upper(b)
    decreases |a|
  {
    if a == [] {
      assert a + b == b;
    } else {
      assert (a + b)[1..] == a[1..] + b;
      UpperConcat(a[1..], b);
    }
  }

  /** A string of characters that `upper()` leaves alone is its own upper case. */
  lemma {:induction false} UpperOfFixed(u: string)
    requires forall i :: 0 <= i < |u| ==> UpperChar(u[i]) == [u[i]]
    ensures Upper(u) == u
    decreases |u|
  {
    if u != [] {
      UpperOfFixed(u[1..]);
    }
  }

  /** What `upper()` makes of a character, it leaves alone. */
  lemma UpperCharFixed(c: char)
    ensures Upper(UpperChar(c)) == UpperChar(c)
  {
    UpperOfFixed(UpperChar(c));
  }

  // ---------------------------------------------------------------------------
  // Substring test
  // ---------------------------------------------------------------------------

  predicate StartsWith(s: string, p: string) {
    |p| <= |s| && s[..|p|] == p
  }

  /** Python's `p in s` for strings: `p` occurs in `s` at some position. */
  predicate Contains(s: string, p: string)
    decreases |s|
  {
    StartsWith(s, p) || (s != [] && Contains(s[1..], p))
  }

  /** `p` is the slice of `s` that starts at `i`. */
  predicate OccursAt(s: string, p: string, i: nat) {
    i + |p| <= |s| && s[i..i + |p|] == p
  }

  /** `Contains` is the substring relation: `p` is a slice of `s`. */
  lemma {:induction false} ContainsIsSubstring(s: string, p: string)
    ensures Contains(s, p) <==> exists i: nat :: OccursAt(s, p, i)
    decreases |s|
  {
    if Contains(s, p) {
      if StartsWith(s, p) {
        assert OccursAt(s, p, 0);
      } else {
        ContainsIsSubstring(s[1..], p);
        var i: nat :| OccursAt(s[1..], p, i);
        assert s[i + 1..i + 1 + |p|] == s[1..][i..i + |p|];
        assert OccursAt(s, p, i + 1);
      }
    }
    if exists i: nat :: OccursAt(s, p, i) {
      var i: nat :| OccursAt(s, p, i);
      if i > 0 {
        assert s[1..][i - 1..i - 1 + |p|] == s[i..i + |p|];
        assert OccursAt(s[1..], p, i - 1);
        ContainsIsSubstring(s[1..], p);
      } else {
        assert StartsWith(s, p);
      }
    }
  }

  /** A string cannot contain a piece holding a character it lacks. */
  lemma {:induction false} MissingChar(s: string, p: string, c: char)
    requires c in p && c !in s
    ensures !Contains(s, p)
    decreases |s|
  {
    if s != [] {
      MissingChar(s[1..], p, c);
    }
  }

  // ---------------------------------------------------------------------------
  // str(int)
  // ---------------------------------------------------------------------------

  function DigitChar(d: nat): char
    requires d < 10
  {
    ('0' as int + d) as char
  }

  function NatToString(n: nat): (r: string)
    ensures r != [] && forall i :: 0 <= i < |r| ==> '0' <= r[i] <= '9'
    decreases n
  {
    if n < 10 then [DigitChar(n)] else NatToString(n / 10) + [DigitChar(n % 10)]
  }

  /** Python's `str(n)` for an integer: decimal digits after an optional minus sign. */
  function IntToString(n: int): (r: string)
    ensures forall i :: 0 <= i < |r| ==> r[i] == '-' || '0' <= r[i] <= '9'
  {
    if n < 0 then "-" + NatToString(-n) else NatToString(n)
  }
}
