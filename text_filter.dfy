/**
 * The text moderation decisions of `TextFilter` (text_filter.py).
 *
 * The spaCy parser, NLTK's `word_tokenize` and the toxicity classifier are
 * given as total functions of the text they are called on (`Oracles`); the
 * decisions taken on their answers are modelled exactly.
 */
module TextFilter {
  import opened Strings
  import opened Statistics

  /** The blocklist of `_load_inappropriate_words`, all lower case. */
  const Blocklist: set<string> := {"inappropriate", "offensive", "explicit"}

  /** A "toxic" score strictly above this removes the whole segment. */
  const ToxicThreshold: real := 0.7

  /** One entry of the classifier's `return_all_scores` list (`name` is its `label`). */
  datatype Score = Score(name: string, score: real)

  datatype Oracles = Oracles(
    toxicity: string -> seq<Score>,       // toxicity_classifier(text)[0]
    parse: string -> seq<string>,         // the token texts of spaCy's nlp(text)
    wordTokenize: string -> seq<string>)  // nltk.word_tokenize(text)

  // ---------------------------------------------------------------------
  // Validity gate: _is_binary_content and _is_valid_text
  // ---------------------------------------------------------------------

  /** The class of `binary_pattern`: C0 controls other than tab, LF and CR, and U+007F to U+00FF. */
  predicate InBinaryRange(c: char) {
    var n := c as int;
    n <= 0x08 || n == 0x0B || n == 0x0C || (0x0E <= n <= 0x1F) || (0x7F <= n <= 0xFF)
  }

  /** `binary_pattern.search(text)` succeeds. */
  function HasBinaryChar(s: string): (r: bool)
    ensures r <==> exists i :: 0 <= i < |s| && InBinaryRange(s[i])
  {
    if s == [] then false
    else
      assert forall i :: 1 <= i < |s| ==> s[1..][i - 1] == s[i];
      InBinaryRange(s[0]) || HasBinaryChar(s[1..])
  }

  /** Neither alphanumeric nor whitespace. */
  predicate IsSpecial(c: char) {
    !IsAlnum(c) && !IsSpace(c)
  }

  /** `sum(1 for c in text if not c.isalnum() and not c.isspace())`. */
  function CountSpecial(s: string): (r: nat)
    ensures r <= |s|
    ensures r == 0 <==> forall i :: 0 <= i < |s| ==> !IsSpecial(s[i])
    ensures r == |s| <==> forall i :: 0 <= i < |s| ==> IsSpecial(s[i])
  {
    if s == [] then 0
    else
      assert forall i :: 1 <= i < |s| ==> s[1..][i - 1] == s[i];
      (if IsSpecial(s[0]) then 1 else 0) + CountSpecial(s[1..])
  }

  /**
   * `_is_binary_content`: a character of `binary_pattern`, or a non-empty text
   * more than half of whose characters are special (`special / len > 0.5`).
   */
  function IsBinaryContent(s: string): (r: bool)
    ensures r <==> (exists i :: 0 <= i < |s| && InBinaryRange(s[i])) || 2 * CountSpecial(s) > |s|
    ensures s == [] ==> !r
  {
    if HasBinaryChar(s) then true
    else |s| > 0 && 2 * CountSpecial(s) > |s|
  }

  /** `_is_valid_text`: non-blank, not binary, and some word of `text.split()` holds a letter. */
  function IsValidText(s: string): (r: bool)
    ensures r <==> !IsBinaryContent(s) && HasAlpha(s)
  {
    SplitWordsHasAlpha(s);
    assert HasAlpha(s) ==> !IsBlank(s) by {
      if HasAlpha(s) {
        var i :| 0 <= i < |s| && IsAlpha(s[i]);
        AlphaIsNotSpace(s[i]);
      }
    }
    if s == [] || Strip(s) == [] then false
    else if IsBinaryContent(s) then false
    else SomeWordHasAlpha(SplitWords(s))
  }

  // ---------------------------------------------------------------------
  // Toxicity gate: _check_toxicity
  // ---------------------------------------------------------------------

  predicate IsToxicScore(r: Score) {
    r.name == "toxic" && r.score > ToxicThreshold
  }

  /** The loop over the classifier's results, returning at the first toxic one. */
  function AnyToxic(results: seq<Score>): (r: bool)
    ensures r <==> exists i :: 0 <= i < |results| && IsToxicScore(results[i])
  {
    if results == [] then false
    else
      assert forall i :: 1 <= i < |results| ==> results[1..][i - 1] == results[i];
      IsToxicScore(results[0]) || AnyToxic(results[1..])
  }

  /** `_check_toxicity`: the classifier is consulted only for valid text. */
  function CheckToxicity(text: string, toxicity: string -> seq<Score>): (r: bool)
    ensures r <==> IsValidText(text) && exists i :: 0 <= i < |toxicity(text)| && IsToxicScore(toxicity(text)[i])
  {
    if !IsValidText(text) then false else AnyToxic(toxicity(text))
  }

  // ---------------------------------------------------------------------
  // Blocklist gate: the token loop of filter_text
  // ---------------------------------------------------------------------

  /** `token.text.lower() in self.inappropriate_words`. */
  predicate Blocked(token: string) {
    LowerStr(token) in Blocklist
  }

  /** The tokens `filter_text` keeps, in order: those whose lower-case form is not blocklisted. */
  function KeptTokens(ts: seq<string>): (r: seq<string>)
    ensures |r| <= |ts|
    ensures forall t :: t in r ==> t in ts && !Blocked(t)
  {
    if ts == [] then []
    else
      var last := ts[|ts| - 1];
      KeptTokens(ts[..|ts| - 1]) + (if Blocked(last) then [] else [last])
  }

  /** What `filter_text` returns. */
  function FilteredText(text: string, o: Oracles): (r: string)
    ensures !IsValidText(text) ==> r == text
    ensures CheckToxicity(text, o.toxicity) ==> r == ""
    ensures IsValidText(text) && !CheckToxicity(text, o.toxicity) ==> r == Join(KeptTokens(o.parse(text)))
  {
    if !IsValidText(text) then text
    else if CheckToxicity(text, o.toxicity) then ""
    else Join(KeptTokens(o.parse(text)))
  }

  predicate EndsWithNewline(s: string) {
    |s| > 0 && s[|s| - 1] == '\n'
  }

  /** The element `filter_texts` appends for one input segment. */
  function FilterSegment(text: string, o: Oracles): (r: string)
    ensures EndsWithNewline(r)
  {
    if text != [] && IsBinaryContent(text) then "\n"
    else if Strip(text) != [] then
      var f := FilteredText(Strip(text), o);
      if f != [] then f + "\n" else "\n"
    else "\n"
  }

  /** `filter_text`: pass invalid text through, remove toxic text, otherwise prune blocklisted tokens. */
  method FilterText(text: string, o: Oracles) returns (r: string)
    ensures r == FilteredText(text, o)
  {
    if !IsValidText(text) {
      return text;
    }
    if CheckToxicity(text, o.toxicity) {
      return "";
    }
    var tokens := o.parse(text);
    var kept: seq<string> := [];
    for i := 0 to |tokens|
      invariant kept == KeptTokens(tokens[..i])
    {
      assert tokens[..i + 1][..i] == tokens[..i];
      var word := LowerStr(tokens[i]);
      if word !in Blocklist {
        kept := kept + [tokens[i]];
      }
    }
    assert tokens[..|tokens|] == tokens;
    r := Join(kept);
  }

  /** `filter_texts`: one output per input, in order, each ending with a line break. */
  method FilterTexts(texts: seq<string>, o: Oracles) returns (out: seq<string>)
    ensures |out| == |texts|
    ensures forall i :: 0 <= i < |texts| ==> out[i] == FilterSegment(texts[i], o)
    ensures forall i :: 0 <= i < |out| ==> EndsWithNewline(out[i])
  {
    out := [];
    for i := 0 to |texts|
      invariant |out| == i
      invariant forall j :: 0 <= j < i ==> out[j] == FilterSegment(texts[j], o)
    {
      var text := texts[i];
      var segment: string;
      if text != [] && IsBinaryContent(text) {
        segment := "\n";
      } else if Strip(text) != [] {
        var filtered := FilterText(Strip(text), o);
        if filtered != [] {
          segment := filtered + "\n";
        } else {
          segment := "\n";
        }
      } else {
        segment := "\n";
      }
      assert segment == FilterSegment(text, o);
      out := out + [segment];
    }
  }

  // ---------------------------------------------------------------------
  // Properties of the blocklist gate
  // ---------------------------------------------------------------------

  /** Pruning distributes over concatenation: it keeps the relative order of the surviving tokens. */
  lemma {:induction false} KeptTokensAppend(a: seq<string>, b: seq<string>)
    ensures KeptTokens(a + b) == KeptTokens(a) + KeptTokens(b)
    decreases |b|
  {
    if b != [] {
      var b' := b[..|b| - 1];
      assert (a + b)[..|a + b| - 1] == a + b';
      KeptTokensAppend(a, b');
    } else {
      assert a + b == a;
    }
  }

  /** Every token survives as often as it occurs, unless its lower-case form is blocklisted. */
  lemma {:induction false} KeptTokensOccurrences(ts: seq<string>, t: string)
    ensures multiset(KeptTokens(ts))[t] == if Blocked(t) then 0 else multiset(ts)[t]
  {
    if ts != [] {
      var init := ts[..|ts| - 1];
      InitLast(ts);
      KeptTokensOccurrences(init, t);
    }
  }

  /** Pruning an already pruned token list changes nothing. */
  lemma {:induction false} KeptTokensIdempotent(ts: seq<string>)
    ensures KeptTokens(KeptTokens(ts)) == KeptTokens(ts)
  {
    if ts != [] {
      var init, last := ts[..|ts| - 1], ts[|ts| - 1];
      KeptTokensIdempotent(init);
      KeptTokensAppend(KeptTokens(init), if Blocked(last) then [] else [last]);
      assert KeptTokens([last]) == (if Blocked(last) then [] else [last]) by {
        assert [last][..0] == [];
      }
      assert KeptTokens([]) == [];
    }
  }

  /** `sum(1 for word in words if word.lower() in self.inappropriate_words)`. */
  function CountBlocked(ws: seq<string>): (n: nat)
    ensures n <= |ws|
    ensures n == 0 <==> forall i :: 0 <= i < |ws| ==> !Blocked(ws[i])
  {
    if ws == [] then 0
    else CountBlocked(ws[..|ws| - 1]) + (if Blocked(ws[|ws| - 1]) then 1 else 0)
  }

  /** Every token is either counted as blocklisted or kept, never both. */
  lemma {:induction false} BlockedAndKeptPartition(ws: seq<string>)
    ensures CountBlocked(ws) + |KeptTokens(ws)| == |ws|
  {
    if ws != [] {
      BlockedAndKeptPartition(ws[..|ws| - 1]);
    }
  }

  // ---------------------------------------------------------------------
  // Properties of filter_text and filter_texts
  // ---------------------------------------------------------------------

  /** Invalid text (blank, binary, or without a letter) comes back unchanged, whatever the models say. */
  lemma InvalidTextPassesThrough(text: string, o: Oracles)
    requires !IsValidText(text)
    ensures FilteredText(text, o) == text
  {
  }

  /** No token of a valid, non-toxic text that survives the filter is blocklisted. */
  lemma NoBlockedTokenSurvives(text: string, o: Oracles)
    requires IsValidText(text) && !CheckToxicity(text, o.toxicity)
    ensures FilteredText(text, o) == Join(KeptTokens(o.parse(text)))
    ensures forall t :: t in KeptTokens(o.parse(text)) ==> !Blocked(t)
  {
  }

  /** A binary segment or a blank one becomes a bare line break, without consulting any model. */
  lemma BinaryOrBlankSegmentIsBreak(text: string, o: Oracles)
    requires IsBinaryContent(text) || IsBlank(text)
    ensures FilterSegment(text, o) == "\n"
  {
  }

  /** A segment whose stripped text the classifier marks toxic becomes a bare line break. */
  lemma ToxicSegmentIsBreak(text: string, o: Oracles)
    requires !IsBinaryContent(text) && CheckToxicity(Strip(text), o.toxicity)
    ensures FilterSegment(text, o) == "\n"
  {
  }

  /**
   * A segment that is not binary as given but whose stripped text is not valid is
   * kept, stripped: the binary test runs on the raw segment and filter_text returns
   * invalid text unchanged.
   */
  lemma InvalidStrippedSegmentIsKept(text: string, o: Oracles)
    requires !IsBinaryContent(text) && !IsBlank(text) && !IsValidText(Strip(text))
    ensures FilterSegment(text, o) == Strip(text) + "\n"
  {
  }

  lemma SpacedBangsNotBinary()
    ensures !IsBinaryContent("!!  ")
  {
    var text := "!!  ";
    assert CountSpecial(text) == 2 by {
      assert text[1..] == "!  " && text[1..][1..] == "  ";
      assert CountSpecial("  ") == 0;
    }
    assert !HasBinaryChar(text);
  }

  lemma StripSpacedBangs()
    ensures Strip("!!  ") == "!!"
  {
    var text := "!!  ";
    assert LeadSpan(text) == 0;
    assert TrailSpan(text) == 2 by {
      assert text[..3] == "!! " && text[..3][..2] == "!!";
    }
  }

  lemma BangsBinary()
    ensures IsBinaryContent("!!")
  {
    assert CountSpecial("!!") == 2 by {
      assert "!!"[1..] == "!";
    }
  }

  /** `"!!  "` is not binary (half its characters are special), but `"!!"` is, so it passes through. */
  lemma BinaryOnlyAfterStripIsKept(o: Oracles)
    ensures FilterSegment("!!  ", o) == "!!\n"
  {
    SpacedBangsNotBinary();
    StripSpacedBangs();
    BangsBinary();
  }

  /**
   * A segment holding any character from U+007F to U+00FF (an accented
   * letter, a no-break space) is binary, so it is never valid and becomes
   * a bare line break.
   */
  lemma HighLatinSegmentIsBreak(text: string, o: Oracles, i: nat)
    requires i < |text| && 0x7F <= text[i] as int <= 0xFF
    ensures IsBinaryContent(text) && !IsValidText(text)
    ensures FilterSegment(text, o) == "\n"
  {
    assert InBinaryRange(text[i]);
  }

  /** Tab, line feed, carriage return and space never match the binary pattern. */
  lemma LineBreaksAreNotBinary(text: string)
    requires forall i :: 0 <= i < |text| ==> text[i] in "\t\n\r "
    ensures !HasBinaryChar(text)
  {
    forall i | 0 <= i < |text|
      ensures !InBinaryRange(text[i])
    {
      assert text[i] == '\t' || text[i] == '\n' || text[i] == '\r' || text[i] == ' ';
    }
  }

  // ---------------------------------------------------------------------
  // get_content_stats
  // ---------------------------------------------------------------------

  datatype ContentStats = ContentStats(totalWords: nat, filteredWords: nat, toxicContexts: nat, cleanRatio: real)

  /** The words a segment adds to `total_words`. */
  function SegmentWords(text: string, o: Oracles): nat {
    if !IsValidText(text) then 0 else |o.wordTokenize(text)|
  }

  /** The words a segment adds to `filtered_words`: its blocklisted words, plus all others when toxic. */
  function SegmentFiltered(text: string, o: Oracles): nat {
    if !IsValidText(text) then 0
    else
      var words := o.wordTokenize(text);
      CountBlocked(words) + (if CheckToxicity(text, o.toxicity) then |KeptTokens(words)| else 0)
  }

  /** What a segment adds to `toxic_contexts`. */
  function SegmentToxic(text: string, o: Oracles): nat {
    if !IsValidText(text) then 0 else if CheckToxicity(text, o.toxicity) then 1 else 0
  }

  function TotalWords(texts: seq<string>, o: Oracles): nat {
    if texts == [] then 0
    else TotalWords(texts[..|texts| - 1], o) + SegmentWords(texts[|texts| - 1], o)
  }

  function FilteredWords(texts: seq<string>, o: Oracles): nat {
    if texts == [] then 0
    else FilteredWords(texts[..|texts| - 1], o) + SegmentFiltered(texts[|texts| - 1], o)
  }

  function ToxicContexts(texts: seq<string>, o: Oracles): nat {
    if texts == [] then 0
    else ToxicContexts(texts[..|texts| - 1], o) + SegmentToxic(texts[|texts| - 1], o)
  }

  function CountValid(texts: seq<string>): nat {
    if texts == [] then 0
    else CountValid(texts[..|texts| - 1]) + (if IsValidText(texts[|texts| - 1]) then 1 else 0)
  }

  /** A toxic segment adds every one of its words to `filtered_words`. */
  lemma ToxicSegmentFiltersAllWords(text: string, o: Oracles)
    requires CheckToxicity(text, o.toxicity)
    ensures SegmentFiltered(text, o) == SegmentWords(text, o) == |o.wordTokenize(text)|
    ensures SegmentToxic(text, o) == 1
  {
    BlockedAndKeptPartition(o.wordTokenize(text));
  }

  /** No segment filters more words than it has. */
  lemma SegmentFilteredAtMostWords(text: string, o: Oracles)
    ensures SegmentFiltered(text, o) <= SegmentWords(text, o)
    ensures SegmentToxic(text, o) <= (if IsValidText(text) then 1 else 0)
  {
    if IsValidText(text) {
      BlockedAndKeptPartition(o.wordTokenize(text));
    }
  }

  /** `filtered_words <= total_words` and `toxic_contexts` is at most the number of valid segments. */
  lemma {:induction false} StatsBounds(texts: seq<string>, o: Oracles)
    ensures FilteredWords(texts, o) <= TotalWords(texts, o)
    ensures ToxicContexts(texts, o) <= CountValid(texts)
  {
    if texts != [] {
      StatsBounds(texts[..|texts| - 1], o);
      SegmentFilteredAtMostWords(texts[|texts| - 1], o);
    }
  }

  /** The statistics of two runs of segments add up. */
  lemma {:induction false} StatsAdditive(a: seq<string>, b: seq<string>, o: Oracles)
    ensures TotalWords(a + b, o) == TotalWords(a, o) + TotalWords(b, o)
    ensures FilteredWords(a + b, o) == FilteredWords(a, o) + FilteredWords(b, o)
    ensures ToxicContexts(a + b, o) == ToxicContexts(a, o) + ToxicContexts(b, o)
    decreases |b|
  {
    if b == [] {
      assert a + b == a;
    } else {
      assert (a + b)[..|a + b| - 1] == a + b[..|b| - 1];
      StatsAdditive(a, b[..|b| - 1], o);
    }
  }

  /** An invalid segment, wherever it stands, contributes nothing to the statistics. */
  lemma InvalidSegmentIgnored(a: seq<string>, text: string, b: seq<string>, o: Oracles)
    requires !IsValidText(text)
    ensures TotalWords(a + [text] + b, o) == TotalWords(a + b, o)
    ensures FilteredWords(a + [text] + b, o) == FilteredWords(a + b, o)
    ensures ToxicContexts(a + [text] + b, o) == ToxicContexts(a + b, o)
  {
    StatsAdditive(a + [text], b, o);
    StatsAdditive(a, [text], o);
    StatsAdditive(a, b, o);
    assert [text][..0] == [];
  }

  /** `get_content_stats`. */
  method GetContentStats(texts: seq<string>, o: Oracles) returns (stats: ContentStats)
    ensures stats.totalWords == TotalWords(texts, o)
    ensures stats.filteredWords == FilteredWords(texts, o)
    ensures stats.toxicContexts == ToxicContexts(texts, o)
    ensures stats.filteredWords <= stats.totalWords
    ensures stats.toxicContexts <= CountValid(texts)
    ensures stats.cleanRatio == CleanRatio(stats.totalWords, stats.filteredWords)
    ensures 0.0 <= stats.cleanRatio <= 1.0
    ensures stats.totalWords == 0 ==> stats.cleanRatio == 1.0
  {
    var totalWords, filteredWords, toxicContexts := 0, 0, 0;
    for i := 0 to |texts|
      invariant totalWords == TotalWords(texts[..i], o)
      invariant filteredWords == FilteredWords(texts[..i], o)
      invariant toxicContexts == ToxicContexts(texts[..i], o)
    {
      var text := texts[i];
      assert texts[..i + 1][..i] == texts[..i];
      assert TotalWords(texts[..i + 1], o) == totalWords + SegmentWords(text, o);
      assert FilteredWords(texts[..i + 1], o) == filteredWords + SegmentFiltered(text, o);
      assert ToxicContexts(texts[..i + 1], o) == toxicContexts + SegmentToxic(text, o);
      if IsValidText(text) {
        var words := o.wordTokenize(text);
        totalWords := totalWords + |words|;
        filteredWords := filteredWords + CountBlocked(words);
        if CheckToxicity(text, o.toxicity) {
          toxicContexts := toxicContexts + 1;
          filteredWords := filteredWords + |KeptTokens(words)|;
        }
      }
    }
    assert texts[..|texts|] == texts;
    StatsBounds(texts, o);
    stats := ContentStats(totalWords, filteredWords, toxicContexts, CleanRatio(totalWords, filteredWords));
  }
}
