/**
 The paragraph formatter of the review generator (`formatar_paragrafo`):
 the paragraph is cut at every `.`, each piece is stripped, blank pieces are
 dropped, every remaining piece gets one `.` back, and the sentences are
 joined with single spaces.
 */
module Formatter {
  import opened PyStr

  /** The comprehension `[s.strip() + '.' for s in fragments if s.strip()]`. */
  function Sentences(fragments: seq<string>): (r: seq<string>)
    ensures |r| <= |fragments|
  {
    if fragments == [] then []
    else
      var t := Strip(fragments[0]);
      (if t != "" then [t + "."] else []) + Sentences(fragments[1..])
  }

  /** `formatar_paragrafo(paragrafo)`. */
  function FormatParagraph(paragraph: string): string {
    JoinWith(" ", Sentences(Split(paragraph, '.')))
  }

  /** A sentence body as the formatter produces it: non-empty, free of `.`,
      and with no whitespace at either end. */
  predicate IsClause(c: string) {
    c != [] && '.' !in c && Trimmed(c)
  }

  /** A formatted sentence: a clause followed by exactly one `.`. */
  predicate IsSentence(x: string) {
    |x| >= 2 && x[|x| - 1] == '.' && IsClause(x[..|x| - 1])
  }

  /** Every sentence the comprehension keeps is well formed, provided the
      fragments are free of `.` (as the pieces of a split at `.` are). */
  lemma {:induction false} SentencesAreSentences(fragments: seq<string>)
    requires forall k :: 0 <= k < |fragments| ==> '.' !in fragments[k]
    ensures forall k :: 0 <= k < |Sentences(fragments)| ==> IsSentence(Sentences(fragments)[k])
  {
    if fragments != [] {
      var rest := fragments[1..];
      TailHasNoPeriod(fragments);
      SentencesAreSentences(rest);
      SentencesCons(fragments);
      var t := Strip(fragments[0]);
      if t != "" {
        StrippedSentence(fragments[0]);
      }
      AllSentencesConcat(if t != "" then [t + "."] else [], Sentences(rest));
    }
  }

  /** One step of the comprehension. */
  lemma SentencesCons(fragments: seq<string>)
    requires fragments != []
    ensures var t := Strip(fragments[0]);
      Sentences(fragments) == (if t != "" then [t + "."] else []) + Sentences(fragments[1..])
  {
  }

  lemma TailHasNoPeriod(fragments: seq<string>)
    requires fragments != []
    requires forall k :: 0 <= k < |fragments| ==> '.' !in fragments[k]
    ensures forall k :: 0 <= k < |fragments[1..]| ==> '.' !in fragments[1..][k]
  {
    forall k | 0 <= k < |fragments[1..]|
      ensures '.' !in fragments[1..][k]
    {
      assert fragments[1..][k] == fragments[k + 1];
    }
  }

  /** A non-blank fragment without `.` becomes a well-formed sentence. */
  lemma StrippedSentence(fragment: string)
    requires '.' !in fragment && Strip(fragment) != ""
    ensures IsSentence(Strip(fragment) + ".")
  {
    var t := Strip(fragment);
    StripSubset(fragment);
    assert (t + ".")[..|t|] == t;
  }

  /** Concatenating two lists of sentences gives a list of sentences. */
  lemma AllSentencesConcat(a: seq<string>, b: seq<string>)
    requires forall k :: 0 <= k < |a| ==> IsSentence(a[k])
    requires forall k :: 0 <= k < |b| ==> IsSentence(b[k])
    ensures forall k :: 0 <= k < |a + b| ==> IsSentence((a + b)[k])
  {
    forall k | 0 <= k < |a + b|
      ensures IsSentence((a + b)[k])
    {
      if k >= |a| {
        assert (a + b)[k] == b[k - |a|];
      }
    }
  }

  /** The comprehension keeps nothing exactly when every fragment is blank. */
  lemma {:induction false} SentencesEmpty(fragments: seq<string>)
    ensures Sentences(fragments) == [] <==> AllBlank(fragments)
  {
    if fragments != [] {
      SentencesEmpty(fragments[1..]);
      HeadTail(fragments);
      AllBlankCons(fragments[0], fragments[1..]);
    }
  }

  /** The shape of every formatted paragraph: the single-space join of
      well-formed sentences, one per non-blank piece of the input. */
  lemma FormatShape(paragraph: string)
    ensures var ss := Sentences(Split(paragraph, '.'));
      FormatParagraph(paragraph) == JoinWith(" ", ss) &&
      forall k :: 0 <= k < |ss| ==> IsSentence(ss[k])
  {
    SentencesAreSentences(Split(paragraph, '.'));
  }

  /** The punctuation of formatted text: it does not start with whitespace
      or `.`, a non-empty one ends in `.`, and every `.` is either the last
      character or is followed by one space and then by the start of the next
      sentence (neither whitespace nor `.`). */
  predicate WellPunctuated(x: string) {
    (x != "" ==> x[|x| - 1] == '.' && !IsSpace(x[0]) && x[0] != '.') &&
    forall i :: 0 <= i < |x| && x[i] == '.' ==> PeriodWellPlaced(x, i)
  }

  /** The `.` at index `i` ends `x` or is followed by a space and a sentence start. */
  predicate PeriodWellPlaced(x: string, i: int)
    requires 0 <= i < |x|
  {
    i == |x| - 1 || (i + 2 < |x| && x[i + 1] == ' ' && !IsSpace(x[i + 2]) && x[i + 2] != '.')
  }

  /** A single sentence is well punctuated: its only `.` is its last character. */
  lemma SentencePunctuation(s: string)
    requires IsSentence(s)
    ensures WellPunctuated(s)
  {
    ClauseHasNoPeriod(s);
  }

  /** Only the last character of a sentence is a `.`. */
  lemma ClauseHasNoPeriod(s: string)
    requires IsSentence(s)
    ensures !IsSpace(s[0]) && s[0] != '.'
    ensures forall i :: 0 <= i < |s| - 1 ==> s[i] != '.'
  {
    var c := s[..|s| - 1];
    assert s[0] == c[0];
    forall i | 0 <= i < |s| - 1 ensures s[i] != '.' {
      assert s[i] == c[i];
    }
  }

  /** Putting a sentence and a space in front of well-punctuated text that
      starts a sentence keeps it well punctuated. */
  lemma PrependSentencePunctuation(s: string, y: string)
    requires IsSentence(s) && WellPunctuated(y)
    requires y != "" && !IsSpace(y[0]) && y[0] != '.'
    ensures WellPunctuated(s + " " + y)
  {
    var x := s + " " + y;
    ClauseHasNoPeriod(s);
    assert x[0] == s[0];
    assert x[|x| - 1] == y[|y| - 1];
    assert forall i :: 0 <= i < |s| ==> x[i] == s[i];
    assert x[|s|] == ' ';
    forall i | 0 <= i < |x| && x[i] == '.' ensures PeriodWellPlaced(x, i) {
      if i == |s| - 1 {
        assert x[i + 1] == ' ' && x[i + 2] == y[0];
      } else if i > |s| {
        var j := i - |s| - 1;
        assert x[i] == y[j];
        assert PeriodWellPlaced(y, j);
        if j < |y| - 1 {
          assert x[i + 1] == y[j + 1] && x[i + 2] == y[j + 2];
        }
      }
    }
  }

  /** A join of sentences is well punctuated, and empty only when there are no sentences. */
  lemma {:induction false} JoinedSentencesPunctuation(ss: seq<string>)
    requires forall k :: 0 <= k < |ss| ==> IsSentence(ss[k])
    ensures JoinWith(" ", ss) == "" <==> ss == []
    ensures WellPunctuated(JoinWith(" ", ss))
  {
    if |ss| == 1 {
      SentencePunctuation(ss[0]);
    } else if |ss| > 1 {
      var y := JoinWith(" ", ss[1..]);
      JoinedSentencesPunctuation(ss[1..]);
      var t := ss[1];
      assert t[0] == t[..|t| - 1][0];
      assert y[0] == t[0];
      PrependSentencePunctuation(ss[0], y);
    }
  }

  /** The punctuation shape of `FormatParagraph`'s output. */
  lemma FormatPunctuation(paragraph: string)
    ensures WellPunctuated(FormatParagraph(paragraph))
  {
    SentencesAreSentences(Split(paragraph, '.'));
    JoinedSentencesPunctuation(Sentences(Split(paragraph, '.')));
  }

  /** Whitespace in front of a clause does not change what the comprehension
      keeps: `w + c` yields the sentence `c.`. */
  lemma PrependBlankSentences(w: string, c: string, fragments: seq<string>)
    requires Blank(w) && IsClause(c)
    ensures Sentences([w + c] + fragments) == [c + "."] + Sentences(fragments)
  {
    StripUnique(w, c, "");
    assert w + c + "" == w + c;
    assert ([w + c] + fragments)[1..] == fragments;
  }

  /** The pieces of `w + s + rest` for a sentence `s`: the blank-prefixed
      clause, then the pieces of `rest`. */
  lemma SplitSentence(w: string, s: string, rest: string)
    requires Blank(w) && IsSentence(s)
    ensures var c := s[..|s| - 1];
      Split(w + s + rest, '.') == [w + c] + Split(rest, '.')
  {
    var c := s[..|s| - 1];
    assert w + s + rest == (w + c) + ['.'] + rest;
    assert '.' !in w by { assert forall i :: 0 <= i < |w| ==> IsSpace(w[i]); }
    assert '.' !in w + c;
    SplitAfterFirst(w + c, rest, '.');
  }

  /** One sentence `s` after blank `w`, then any text: the comprehension keeps
      `s` and then whatever it keeps of the text. */
  lemma SentencesStep(w: string, s: string, rest: string)
    requires Blank(w) && IsSentence(s)
    ensures Sentences(Split(w + s + rest, '.')) == [s] + Sentences(Split(rest, '.'))
  {
    var c := s[..|s| - 1];
    assert s == c + ".";
    SplitSentence(w, s, rest);
    PrependBlankSentences(w, c, Split(rest, '.'));
  }

  /** The empty paragraph has no sentences. */
  lemma NoSentencesInEmpty()
    ensures Sentences(Split("", '.')) == []
  {
    assert Split("", '.') == [""];
    assert [""][1..] == [];
  }

  /** Blank text alone yields no sentence. */
  lemma BlankHasNoSentences(w: string)
    requires Blank(w)
    ensures Sentences(Split(w, '.')) == []
  {
    SplitWithoutSeparator(w, '.');
    assert [w][1..] == [];
  }

  /** A single sentence after blank `w` comes back as itself. */
  lemma SingleSentenceRoundTrip(w: string, s: string)
    requires Blank(w) && IsSentence(s)
    ensures Sentences(Split(w + JoinWith(" ", [s]), '.')) == [s]
  {
    calc {
      Sentences(Split(w + JoinWith(" ", [s]), '.'));
      { assert JoinWith(" ", [s]) == s + ""; ConcatAssoc(w, s, ""); }
      Sentences(Split(w + s + "", '.'));
      { SentencesStep(w, s, ""); }
      [s] + Sentences(Split("", '.'));
      { NoSentencesInEmpty(); }
      [s] + [];
      [s];
    }
  }

  /** Splitting a join of well-formed sentences at `.` and keeping the non-blank
      pieces recovers the sentences, whatever whitespace `w` precedes the join. */
  lemma {:induction false} SentencesRoundTrip(w: string, ss: seq<string>)
    requires Blank(w)
    requires forall k :: 0 <= k < |ss| ==> IsSentence(ss[k])
    ensures Sentences(Split(w + JoinWith(" ", ss), '.')) == ss
    decreases |ss|
  {
    if ss == [] {
      assert w + JoinWith(" ", ss) == w;
      BlankHasNoSentences(w);
    } else if |ss| == 1 {
      assert IsSentence(ss[0]);
      HeadTail(ss);
      assert ss[1..] == [];
      SingleSentenceRoundTrip(w, ss[0]);
    } else {
      var s := ss[0];
      assert IsSentence(s);
      var tail := ss[1..];
      assert forall k :: 0 <= k < |tail| ==> IsSentence(tail[k]) by {
        forall k | 0 <= k < |tail| ensures IsSentence(tail[k]) { assert tail[k] == ss[k + 1]; }
      }
      var y := JoinWith(" ", tail);
      JoinCons(" ", ss);
      ConcatAssoc(w, s, " " + y);
      SentencesStep(w, s, " " + y);
      assert Blank(" ") by { assert " "[0] == ' '; }
      SentencesRoundTrip(" ", tail);
      HeadTail(ss);
    }
  }

  /** Formatting is idempotent: a formatted paragraph is left unchanged. */
  lemma FormatIdempotent(paragraph: string)
    ensures FormatParagraph(FormatParagraph(paragraph)) == FormatParagraph(paragraph)
  {
    var ss := Sentences(Split(paragraph, '.'));
    SentencesAreSentences(Split(paragraph, '.'));
    SentencesRoundTrip("", ss);
    assert "" + JoinWith(" ", ss) == JoinWith(" ", ss);
  }

  /** Every one of `fragments` is blank. */
  predicate AllBlank(fragments: seq<string>) {
    forall k :: 0 <= k < |fragments| ==> Blank(fragments[k])
  }

  /** `s` holds nothing but whitespace and `.`. */
  predicate OnlySpacesAndPeriods(s: string) {
    forall i :: 0 <= i < |s| ==> s[i] == '.' || IsSpace(s[i])
  }

  lemma BlankCons(c: char, t: string)
    ensures Blank([c] + t) <==> IsSpace(c) && Blank(t)
  {
    var x := [c] + t;
    if IsSpace(c) && Blank(t) {
      forall i | 0 <= i < |x| ensures IsSpace(x[i]) {
        if i > 0 { assert x[i] == t[i - 1]; }
      }
    }
    if Blank(x) {
      assert IsSpace(x[0]);
      forall i | 0 <= i < |t| ensures IsSpace(t[i]) {
        assert x[i + 1] == t[i];
      }
    }
  }

  lemma AllBlankCons(f: string, fragments: seq<string>)
    ensures AllBlank([f] + fragments) <==> Blank(f) && AllBlank(fragments)
  {
    var fs := [f] + fragments;
    if Blank(f) && AllBlank(fragments) {
      forall k | 0 <= k < |fs| ensures Blank(fs[k]) {
        if k > 0 { assert fs[k] == fragments[k - 1]; }
      }
    }
    if AllBlank(fs) {
      assert Blank(fs[0]);
      forall k | 0 <= k < |fragments| ensures Blank(fragments[k]) {
        assert fs[k + 1] == fragments[k];
      }
    }
  }

  lemma OnlySpacesAndPeriodsCons(s: string)
    requires |s| > 0
    ensures OnlySpacesAndPeriods(s) <==> (s[0] == '.' || IsSpace(s[0])) && OnlySpacesAndPeriods(s[1..])
  {
    assert forall i :: 1 <= i < |s| ==> s[i] == s[1..][i - 1];
  }

  /** Every piece of a split at `.` is blank exactly when the string holds only
      whitespace and `.`. */
  lemma {:induction false} SplitBlank(s: string)
    ensures AllBlank(Split(s, '.')) <==> OnlySpacesAndPeriods(s)
  {
    if |s| == 0 {
      assert Split(s, '.') == [""];
    } else {
      SplitBlank(s[1..]);
      OnlySpacesAndPeriodsCons(s);
      var rest := Split(s[1..], '.');
      if s[0] == '.' {
        assert Split(s, '.') == [""] + rest;
        AllBlankCons("", rest);
      } else {
        HeadTail(rest);
        AllBlankCons(rest[0], rest[1..]);
        AllBlankCons([s[0]] + rest[0], rest[1..]);
        BlankCons(s[0], rest[0]);
      }
    }
  }

  /** The formatter yields `""` exactly when every piece between periods is
      blank, that is, when the paragraph holds nothing but whitespace and `.`. */
  lemma FormatEmpty(paragraph: string)
    ensures FormatParagraph(paragraph) == "" <==> AllBlank(Split(paragraph, '.'))
    ensures FormatParagraph(paragraph) == "" <==> OnlySpacesAndPeriods(paragraph)
  {
    SentencesAreSentences(Split(paragraph, '.'));
    JoinedSentencesPunctuation(Sentences(Split(paragraph, '.')));
    SentencesEmpty(Split(paragraph, '.'));
    SplitBlank(paragraph);
  }

  /** A non-blank paragraph without any `.` comes back stripped, with one `.`
      added at the end. */
  lemma FormatWithoutPeriod(paragraph: string)
    requires '.' !in paragraph && !Blank(paragraph)
    ensures FormatParagraph(paragraph) == Strip(paragraph) + "."
  {
    SplitWithoutSeparator(paragraph, '.');
    assert Split(paragraph, '.')[1..] == [];
  }

  /** The paragraph "hello" becomes "hello.": the period is added, not left off. */
  lemma FormatHello()
    ensures FormatParagraph("hello") == "hello."
  {
    calc {
      FormatParagraph("hello");
      { assert !IsSpace("hello"[0]); FormatWithoutPeriod("hello"); }
      Strip("hello") + ".";
      { StripUnique("", "hello", ""); assert "" + "hello" + "" == "hello"; }
      "hello" + ".";
    }
  }
}
