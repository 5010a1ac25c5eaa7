/**
 * The parts of Python's `str` that the filters rely on: character classes,
 * `lower()`, `strip()`, `split()` and `' '.join(...)`.
 *
 * Character classes follow Python's tables exactly for code points below
 * U+0100. Above U+00FF only `isspace()` is exact; letters and digits there
 * need the Unicode database and are not modelled.
 */
module Strings {

  /** `c.isspace()`: the code points Python treats as whitespace. */
  predicate IsSpace(c: char) {
    var n := c as int;
    (0x09 <= n <= 0x0D) || (0x1C <= n <= 0x20) || n == 0x85 || n == 0xA0 || n == 0x1680
    || (0x2000 <= n <= 0x200A) || n == 0x2028 || n == 0x2029 || n == 0x202F
    || n == 0x205F || n == 0x3000
  }

  /** `c.isalpha()` for ASCII and Latin-1. */
  predicate IsAlpha(c: char) {
    var n := c as int;
    (0x41 <= n <= 0x5A) || (0x61 <= n <= 0x7A) || n == 0xAA || n == 0xB5 || n == 0xBA
    || (0xC0 <= n <= 0xD6) || (0xD8 <= n <= 0xF6) || (0xF8 <= n <= 0xFF)
  }

  /** `c.isalnum()` for ASCII and Latin-1: letters, digits and the numeric signs ² ³ ¹ ¼ ½ ¾. */
  predicate IsAlnum(c: char) {
    var n := c as int;
    IsAlpha(c) || (0x30 <= n <= 0x39) || n == 0xB2 || n == 0xB3 || n == 0xB9
    || (0xBC <= n <= 0xBE)
  }

  /** `c.lower()` for ASCII and Latin-1 capitals (U+00D7, the multiplication sign, is not a letter). */
  function Lower(c: char): char {
    var n := c as int;
    if (0x41 <= n <= 0x5A) || (0xC0 <= n <= 0xDE && n != 0xD7) then (n + 32) as char else c
  }

  function LowerStr(s: string): (r: string)
    ensures |r| == |s|
    ensures forall i :: 0 <= i < |s| ==> r[i] == Lower(s[i])
  {
    seq(|s|, i requires 0 <= i < |s| => Lower(s[i]))
  }

  predicate IsBlank(s: string) {
    forall i :: 0 <= i < |s| ==> IsSpace(s[i])
  }

  predicate HasAlpha(s: string) {
    exists i :: 0 <= i < |s| && IsAlpha(s[i])
  }

  /** The number of whitespace characters `strip()` removes at the front. */
  function LeadSpan(s: string): (k: nat)
    ensures k <= |s|
    ensures forall i :: 0 <= i < k ==> IsSpace(s[i])
    ensures k == |s| || !IsSpace(s[k])
  {
    if s == [] || !IsSpace(s[0]) then 0 else 1 + LeadSpan(s[1..])
  }

  /** The number of whitespace characters `strip()` removes at the back. */
  function TrailSpan(s: string): (k: nat)
    ensures k <= |s|
    ensures forall i :: |s| - k <= i < |s| ==> IsSpace(s[i])
    ensures k == |s| || !IsSpace(s[|s| - 1 - k])
  {
    if s == [] || !IsSpace(s[|s| - 1]) then 0 else 1 + TrailSpan(s[..|s| - 1])
  }

  /** `s.strip()` with no argument. */
  function Strip(s: string): (r: string)
    ensures r == [] <==> IsBlank(s)
    ensures r != [] ==> !IsSpace(r[0]) && !IsSpace(r[|r| - 1])
    ensures |r| <= |s|
  {
    var a := LeadSpan(s);
    if a == |s| then [] else s[a..|s| - TrailSpan(s)]
  }

  /** A non-empty sequence is its front followed by its last element. */
  lemma InitLast<X>(s: seq<X>)
    requires s != []
    ensures s == s[..|s| - 1] + [s[|s| - 1]]
  {
    assert s == s[..|s| - 1] + [s[|s| - 1]];
  }

  /** `strip()` leaves a string alone that neither starts nor ends with whitespace. */
  lemma StripUnchanged(s: string)
    requires s != [] && !IsSpace(s[0]) && !IsSpace(s[|s| - 1])
    ensures Strip(s) == s
  {
    assert LeadSpan(s) == 0 && TrailSpan(s) == 0;
    assert s[0..|s|] == s;
  }

  /** The number of non-whitespace characters at the front: the first word of `s`. */
  function WordSpan(s: string): (k: nat)
    ensures k <= |s|
    ensures forall i :: 0 <= i < k ==> !IsSpace(s[i])
    ensures k == |s| || IsSpace(s[k])
  {
    if s == [] || IsSpace(s[0]) then 0 else 1 + WordSpan(s[1..])
  }

  /** `s.split()` with no argument: the maximal runs of non-whitespace, in order. */
  function SplitWords(s: string): (ws: seq<string>)
    ensures forall w :: w in ws ==> w != [] && !HasSpace(w)
    decreases |s|
  {
    var t := s[LeadSpan(s)..];
    if t == [] then [] else
      var k := WordSpan(t);
      [t[..k]] + SplitWords(t[k..])
  }

  predicate HasSpace(s: string) {
    exists i :: 0 <= i < |s| && IsSpace(s[i])
  }

  /** `' '.join(ws)`. */
  function Join(ws: seq<string>): string
  {
    if ws == [] then "" else if |ws| == 1 then ws[0] else ws[0] + " " + Join(ws[1..])
  }

  predicate SomeWordHasAlpha(ws: seq<string>) {
    exists j :: 0 <= j < |ws| && HasAlpha(ws[j])
  }

  lemma AlphaIsNotSpace(c: char)
    ensures IsAlpha(c) ==> !IsSpace(c)
  {
  }

  lemma HasAlphaAfterSpaces(s: string, a: nat)
    requires a <= |s|
    requires forall i :: 0 <= i < a ==> IsSpace(s[i])
    ensures HasAlpha(s) <==> HasAlpha(s[a..])
  {
    if HasAlpha(s) {
      var i :| 0 <= i < |s| && IsAlpha(s[i]);
      AlphaIsNotSpace(s[i]);
      assert s[a..][i - a] == s[i];
    }
    if HasAlpha(s[a..]) {
      var i :| 0 <= i < |s[a..]| && IsAlpha(s[a..][i]);
      assert s[a + i] == s[a..][i];
    }
  }

  lemma HasAlphaSplitAt(t: string, k: nat)
    requires k <= |t|
    ensures HasAlpha(t) <==> HasAlpha(t[..k]) || HasAlpha(t[k..])
  {
    if HasAlpha(t) {
      var i :| 0 <= i < |t| && IsAlpha(t[i]);
      if i < k { assert t[..k][i] == t[i]; } else { assert t[k..][i - k] == t[i]; }
    }
    if HasAlpha(t[..k]) {
      var i :| 0 <= i < k && IsAlpha(t[..k][i]);
      assert t[i] == t[..k][i];
    }
    if HasAlpha(t[k..]) {
      var i :| 0 <= i < |t| - k && IsAlpha(t[k..][i]);
      assert t[k + i] == t[k..][i];
    }
  }

  lemma SomeWordHasAlphaCons(w: string, ws: seq<string>)
    ensures SomeWordHasAlpha([w] + ws) <==> HasAlpha(w) || SomeWordHasAlpha(ws)
  {
    if SomeWordHasAlpha([w] + ws) && !HasAlpha(w) {
      var j :| 0 <= j < |[w] + ws| && HasAlpha(([w] + ws)[j]);
      assert HasAlpha(ws[j - 1]);
    }
    if SomeWordHasAlpha(ws) {
      var j :| 0 <= j < |ws| && HasAlpha(ws[j]);
      assert ([w] + ws)[j + 1] == ws[j];
    }
    assert ([w] + ws)[0] == w;
  }

  /** A letter is never whitespace, so some word of `s.split()` holds a letter exactly when `s` does. */
  lemma {:induction false} SplitWordsHasAlpha(s: string)
    ensures SomeWordHasAlpha(SplitWords(s)) <==> HasAlpha(s)
    decreases |s|
  {
    var a := LeadSpan(s);
    var t := s[a..];
    HasAlphaAfterSpaces(s, a);
    if t != [] {
      var k := WordSpan(t);
      var w, rest := t[..k], t[k..];
      var ws := SplitWords(rest);
      assert SplitWords(s) == [w] + ws;
      SplitWordsHasAlpha(rest);
      HasAlphaSplitAt(t, k);
      SomeWordHasAlphaCons(w, ws);
    }
  }

  // ---------------------------------------------------------------------
  // split() and ' '.join() are inverse on words
  // ---------------------------------------------------------------------

  /** A list of words as `split()` returns them: non-empty and free of whitespace. */
  predicate AreWords(ws: seq<string>) {
    forall j :: 0 <= j < |ws| ==> ws[j] != [] && !HasSpace(ws[j])
  }

  /** The whitespace of `s` is single spaces, each between two non-whitespace characters. */
  predicate SingleSpaced(s: string) {
    forall i :: 0 <= i < |s| && IsSpace(s[i]) ==>
      s[i] == ' ' && 0 < i < |s| - 1 && !IsSpace(s[i - 1]) && !IsSpace(s[i + 1])
  }

  lemma SplitWordsAreWords(s: string)
    ensures AreWords(SplitWords(s))
  {
    var ws := SplitWords(s);
    forall j | 0 <= j < |ws| ensures ws[j] != [] && !HasSpace(ws[j]) {
      assert ws[j] in ws;
    }
  }

  /** `s.split()` is empty exactly when `s` is blank. */
  lemma SplitWordsEmpty(s: string)
    ensures SplitWords(s) == [] <==> IsBlank(s)
  {
  }

  lemma AreWordsTail(ws: seq<string>)
    requires AreWords(ws) && ws != []
    ensures AreWords(ws[1..])
  {
    var rest := ws[1..];
    forall j | 0 <= j < |rest| ensures rest[j] != [] && !HasSpace(rest[j]) {
      assert rest[j] == ws[j + 1];
    }
  }

  /** Joining words gives a text that is empty only for no words and otherwise starts and ends with a word. */
  lemma {:induction false} JoinEnds(ws: seq<string>)
    requires AreWords(ws)
    ensures Join(ws) == [] <==> ws == []
    ensures Join(ws) != [] ==> !IsSpace(Join(ws)[0]) && !IsSpace(Join(ws)[|Join(ws)| - 1])
  {
    if ws != [] {
      var w := ws[0];
      assert !HasSpace(w) && w != [];
      assert !IsSpace(w[0]) && !IsSpace(w[|w| - 1]);
      if |ws| > 1 {
        AreWordsTail(ws);
        JoinEnds(ws[1..]);
      }
    }
  }

  /** Joining words gives a single-spaced text. */
  lemma {:induction false} JoinSingleSpaced(ws: seq<string>)
    requires AreWords(ws)
    ensures SingleSpaced(Join(ws))
  {
    if ws != [] {
      var w := ws[0];
      assert !HasSpace(w) && w != [];
      assert !IsSpace(w[0]) && !IsSpace(w[|w| - 1]);
      if |ws| > 1 {
        var rest := ws[1..];
        AreWordsTail(ws);
        JoinSingleSpaced(rest);
        JoinEnds(rest);
        var jr := Join(rest);
        var x := w + " " + jr;
        assert Join(ws) == x;
        assert jr != [];
        forall i | 0 <= i < |x| && IsSpace(x[i])
          ensures x[i] == ' ' && 0 < i < |x| - 1 && !IsSpace(x[i - 1]) && !IsSpace(x[i + 1])
        {
          if i > |w| {
            assert x[i] == jr[i - |w| - 1];
            if i - 1 > |w| { assert x[i - 1] == jr[i - |w| - 2]; }
            if i + 1 < |x| { assert x[i + 1] == jr[i - |w|]; }
          } else {
            assert x[i - 1] == w[|w| - 1];
            assert x[i + 1] == jr[0];
          }
        }
      } else {
        assert Join(ws) == w;
        forall i | 0 <= i < |w| ensures !IsSpace(w[i]) {
        }
      }
    }
  }

  /** A word followed by whitespace or nothing: the first word of `w + rest` is `w`. */
  lemma WordSpanOfWord(w: string, rest: string)
    requires !HasSpace(w)
    requires rest == [] || IsSpace(rest[0])
    ensures WordSpan(w + rest) == |w|
  {
    var s := w + rest;
    assert forall i :: 0 <= i < |w| ==> s[i] == w[i];
    assert rest != [] ==> s[|w|] == rest[0];
  }

  /** Leading whitespace followed by a word or nothing is skipped entirely. */
  lemma LeadSpanOfPadded(pad: string, rest: string)
    requires IsBlank(pad)
    requires rest == [] || !IsSpace(rest[0])
    ensures LeadSpan(pad + rest) == |pad|
  {
    var s := pad + rest;
    assert forall i :: 0 <= i < |pad| ==> s[i] == pad[i];
    assert rest != [] ==> s[|pad|] == rest[0];
  }

  /** A word followed by whitespace or nothing is the first word `split()` returns. */
  lemma SplitWordsFirst(w: string, rest: string)
    requires w != [] && !HasSpace(w)
    requires rest == [] || IsSpace(rest[0])
    ensures SplitWords(w + rest) == [w] + SplitWords(rest)
  {
    var s := w + rest;
    LeadSpanOfPadded([], s);
    assert [] + s == s;
    assert s[0..] == s;
    WordSpanOfWord(w, rest);
    assert s[..|w|] == w && s[|w|..] == rest;
  }

  /** `' '.join(ws).split() == ws`: splitting undoes joining. */
  lemma {:induction false} SplitJoin(ws: seq<string>)
    requires AreWords(ws)
    ensures SplitWords(Join(ws)) == ws
  {
    if ws != [] {
      var w := ws[0];
      assert !HasSpace(w) && w != [];
      if |ws| == 1 {
        assert Join(ws) == w + [];
        SplitWordsFirst(w, []);
      } else {
        var rest := ws[1..];
        AreWordsTail(ws);
        JoinEnds(rest);
        var jr := Join(rest);
        assert Join(ws) == w + (" " + jr);
        SplitWordsFirst(w, " " + jr);
        LeadSpanOfPadded(" ", jr);
        SplitWordsSkipsSpaces(" " + jr);
        assert (" " + jr)[1..] == jr;
        SplitJoin(rest);
        assert ws == [w] + rest;
      }
    }
  }

  /** Leading whitespace does not change `split()`. */
  lemma SplitWordsSkipsSpaces(s: string)
    ensures SplitWords(s) == SplitWords(s[LeadSpan(s)..])
  {
    var t := s[LeadSpan(s)..];
    assert LeadSpan(t) == 0;
    assert t[0..] == t;
  }

  /** `strip()` removes exactly the whitespace around a text that starts and ends with non-whitespace. */
  lemma {:induction false} StripPadded(a: string, m: string, b: string)
    requires IsBlank(a) && IsBlank(b)
    requires m == [] || (!IsSpace(m[0]) && !IsSpace(m[|m| - 1]))
    ensures Strip(a + m + b) == m
  {
    var s := a + m + b;
    if m == [] {
      assert s == a + b;
      assert IsBlank(s) by {
        forall i | 0 <= i < |s| ensures IsSpace(s[i]) {
          if i < |a| { assert s[i] == a[i]; } else { assert s[i] == b[i - |a|]; }
        }
      }
    } else {
      var lead := LeadSpan(s);
      var trail := TrailSpan(s);
      assert s[|a|] == m[0];
      assert s[|a| + |m| - 1] == m[|m| - 1];
      assert lead == |a|;
      assert trail == |b|;
      assert s[|a|..|s| - |b|] == m;
    }
  }
}
