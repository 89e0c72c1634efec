/** What `Accept` does, stated without following its control flow: it strips
    the typed words, each followed by one space, from the front of the input
    for as long as they match, and completes the race when what is left is
    exactly the last word. */
module RaceProperties {
  import opened Wrappers
  import opened Tokenizer
  import opened RaceEngine

  /** The text begins with the word at `i` followed by a space, and that word
      can be typed that way: it is non-empty and holds no space. */
  predicate StripsWord(words: seq<string>, i: nat, text: string) {
    && i < |words|
    && words[i] != ""
    && ' ' !in words[i]
    && words[i] + " " <= text
  }

  /** The text has no space at a positive index as its first space: either
      it holds no space at all or it starts with one. */
  predicate NoLeadingWord(text: string) {
    ' ' !in text || (|text| > 0 && text[0] == ' ')
  }

  /** The text is exactly the last word, and its first space, if any, is its
      first character. */
  predicate FinishesOn(words: seq<string>, i: nat, text: string) {
    && i == |words| - 1
    && text == words[i]
    && NoLeadingWord(text)
  }

  /** Each word followed by one space. */
  function Typed(ws: seq<string>): string
    decreases |ws|
  {
    if ws == [] then "" else ws[0] + " " + Typed(ws[1..])
  }

  /** `IndexOf` is -1 exactly when the character does not occur, and is
      otherwise the position of its first occurrence. */
  lemma {:induction false} IndexOfFindsFirst(s: string, c: char)
    ensures IndexOf(s, c) == -1 <==> c !in s
    ensures IndexOf(s, c) >= 0 ==> s[IndexOf(s, c)] == c && c !in s[..IndexOf(s, c)]
    decreases |s|
  {
    if s != "" && s[0] != c {
      IndexOfFindsFirst(s[1..], c);
      var p := IndexOf(s[1..], c);
      assert s == [s[0]] + s[1..];
      if p >= 0 {
        assert s[..p + 1] == [s[0]] + s[1..][..p];
      }
    }
  }

  /** The first-space test of `accept` is the same as `StripsWord`, and the
      space then sits right after the current word. */
  lemma MatchIffStripsWord(r: Race, text: string)
    ensures var p := IndexOf(text, ' ');
      (p > 0 && Some(text[..p]) == CurrentWord(r)) <==> StripsWord(r.words, r.wordIndex, text)
    ensures StripsWord(r.words, r.wordIndex, text) ==> IndexOf(text, ' ') == |r.words[r.wordIndex]|
  {
    var p := IndexOf(text, ' ');
    IndexOfFindsFirst(text, ' ');
    if StripsWord(r.words, r.wordIndex, text) {
      var w := r.words[r.wordIndex];
      assert text[..|w|] == w && text[|w|] == ' ';
    }
    if p > 0 && Some(text[..p]) == CurrentWord(r) {
      var w := r.words[r.wordIndex];
      assert w == text[..p];
      assert w + " " == text[..p + 1];
    }
  }

  lemma NoPositiveSpaceIff(text: string)
    ensures !(IndexOf(text, ' ') > 0) <==> NoLeadingWord(text)
  {
    IndexOfFindsFirst(text, ' ');
  }

  /** The branch `accept` takes, stated through the reference predicates:
      advance past the current word and its space when the text starts with
      them, finish when the text is exactly the last word, stay otherwise. */
  lemma NextMoveIff(r: Race, text: string)
    ensures NextMove(r, text) ==
      if StripsWord(r.words, r.wordIndex, text) then Advance(text[|r.words[r.wordIndex]| + 1..])
      else if FinishesOn(r.words, r.wordIndex, text) then Finish
      else Stay
  {
    MatchIffStripsWord(r, text);
    NoPositiveSpaceIff(text);
  }

  /** `Accept` after an advancing move: the index rises by one, the
      callbacks get the new index, and the rest is accepted in turn. */
  lemma AcceptOnAdvance(r: Race, text: string, now: Timestamp, rest: string)
    requires NextMove(Started(r, now), text) == Advance(rest)
    ensures var r2 := Started(r, now).(wordIndex := r.wordIndex + 1);
      var a := Accept(r2, rest, now);
      Accept(r, text, now) == Accepted(a.race, a.residual, [r.wordIndex + 1] + a.fired)
  {
  }

  /** When the text starts with the current word and a space, `Accept`
      advances the index by one, hands the new index to the callbacks,
      and accepts the text after the space. */
  lemma AcceptAdvances(r: Race, text: string, now: Timestamp)
    requires StripsWord(r.words, r.wordIndex, text)
    ensures var w := r.words[r.wordIndex];
      var r2 := Started(r, now).(wordIndex := r.wordIndex + 1);
      var rest := Accept(r2, text[|w| + 1..], now);
      Accept(r, text, now) == Accepted(rest.race, rest.residual, [r.wordIndex + 1] + rest.fired)
  {
    NextMoveIff(Started(r, now), text);
    AcceptOnAdvance(r, text, now, text[|r.words[r.wordIndex]| + 1..]);
  }

  /** When the text is exactly the last word, `Accept` completes the race at
      `now`, returns the empty text and leaves the index on the last word. */
  lemma AcceptFinishes(r: Race, text: string, now: Timestamp)
    requires FinishesOn(r.words, r.wordIndex, text)
    ensures var a := Accept(r, text, now);
      && a == Accepted(Complete(Started(r, now), now), "", [])
      && Completed(a.race) && !a.race.running && a.race.endTime == now
      && a.race.wordIndex == r.wordIndex
  {
    NextMoveIff(Started(r, now), text);
    assert NextMove(Started(r, now), text) == Finish;
  }

  /** In every other case `Accept` only begins timing (if needed) and returns
      the text unchanged. */
  lemma AcceptRejects(r: Race, text: string, now: Timestamp)
    requires !StripsWord(r.words, r.wordIndex, text)
    requires !FinishesOn(r.words, r.wordIndex, text)
    ensures Accept(r, text, now) == Accepted(Started(r, now), text, [])
  {
    NextMoveIff(Started(r, now), text);
    assert NextMove(Started(r, now), text) == Stay;
  }

  /** The trace of `a` holds one index per word advance from `r`, in order:
      the callbacks see the new indices `i + 1`, ..., `j` for a race that
      moves from index `i` to index `j`. */
  predicate FiresPerAdvance(r: Race, a: Accepted) {
    a.fired == Range(r.wordIndex + 1, a.race.wordIndex + 1)
  }

  lemma FiredOnAdvance(r: Race, now: Timestamp, b: Accepted, a: Accepted)
    requires r.wordIndex + 1 <= b.race.wordIndex
    requires FiresPerAdvance(Started(r, now).(wordIndex := r.wordIndex + 1), b)
    requires a == Accepted(b.race, b.residual, [r.wordIndex + 1] + b.fired)
    ensures FiresPerAdvance(r, a)
  {
  }

  /** The trace of one `Accept` holds one index per word advance: see
      `FiresPerAdvance`. */
  lemma {:induction false} AcceptFiresPerAdvance(r: Race, text: string, now: Timestamp)
    ensures FiresPerAdvance(r, Accept(r, text, now))
    decreases |text|
  {
    if StripsWord(r.words, r.wordIndex, text) {
      var r2 := Started(r, now).(wordIndex := r.wordIndex + 1);
      var rest := text[|r.words[r.wordIndex]| + 1..];
      AcceptAdvances(r, text, now);
      AcceptFiresPerAdvance(r2, rest, now);
      FiredOnAdvance(r, now, Accept(r2, rest, now), Accept(r, text, now));
    } else if FinishesOn(r.words, r.wordIndex, text) {
      AcceptFinishes(r, text, now);
    } else {
      AcceptRejects(r, text, now);
    }
  }

  predicate IsSuffix(s: string, t: string) {
    |s| <= |t| && s == t[|t| - |s|..]
  }

  lemma SuffixOfDrop(s: string, t: string, n: nat)
    requires n <= |t| && IsSuffix(s, t[n..])
    ensures IsSuffix(s, t)
  {
    assert t[n..][|t[n..]| - |s|..] == t[|t| - |s|..];
  }

  lemma SuffixAfterAdvance(text: string, n: nat, rest: Accepted, a: Accepted)
    requires n <= |text| && IsSuffix(rest.residual, text[n..])
    requires a.residual == rest.residual
    ensures IsSuffix(a.residual, text)
  {
    SuffixOfDrop(rest.residual, text, n);
  }

  /** The text `Accept` returns is a suffix of its input. */
  lemma {:induction false} AcceptResidualIsSuffix(r: Race, text: string, now: Timestamp)
    ensures IsSuffix(Accept(r, text, now).residual, text)
    decreases |text|
  {
    if StripsWord(r.words, r.wordIndex, text) {
      var w := r.words[r.wordIndex];
      var r2 := Started(r, now).(wordIndex := r.wordIndex + 1);
      AcceptAdvances(r, text, now);
      AcceptResidualIsSuffix(r2, text[|w| + 1..], now);
      SuffixAfterAdvance(text, |w| + 1, Accept(r2, text[|w| + 1..], now), Accept(r, text, now));
    } else if FinishesOn(r.words, r.wordIndex, text) {
      AcceptFinishes(r, text, now);
    } else {
      AcceptRejects(r, text, now);
    }
  }

  lemma TypedCons(w: string, ws: seq<string>)
    ensures Typed([w] + ws) == w + " " + Typed(ws)
  {
    assert ([w] + ws)[1..] == ws;
  }

  /** The outcome `a` of accepting `text` from `r` at `now` is greedy word
      stripping. The race ends at some index `j` no smaller than the index `i`
      it started at: the input is the words `i .. j-1`, each followed by a
      space, then either the residual, which neither starts with the word at
      `j` and a space nor is the last word (the race keeps running), or exactly
      the last word (the race is complete, at `now`, and the residual is
      empty). */
  predicate GreedyOutcome(r: Race, text: string, now: Timestamp, a: Accepted) {
    var i, j := r.wordIndex, a.race.wordIndex;
    && a.race.words == r.words
    && i <= j <= |r.words|
    && (forall k :: i <= k < j ==> r.words[k] != "" && ' ' !in r.words[k])
    && (a.race.running ==>
          && text == Typed(r.words[i..j]) + a.residual
          && !StripsWord(r.words, j, a.residual)
          && !FinishesOn(r.words, j, a.residual)
          && a.race.endTime == (if r.running then r.endTime else 0))
    && (!a.race.running ==>
          && j == |r.words| - 1
          && a.residual == ""
          && text == Typed(r.words[i..j]) + r.words[j]
          && NoLeadingWord(r.words[j])
          && a.race.endTime == now)
  }

  lemma GreedyAdvanceStep(r: Race, text: string, now: Timestamp, rest: Accepted, a: Accepted)
    requires Valid(r) && StripsWord(r.words, r.wordIndex, text)
    requires var r2 := Started(r, now).(wordIndex := r.wordIndex + 1);
      GreedyOutcome(r2, text[|r.words[r.wordIndex]| + 1..], now, rest)
    requires a == Accepted(rest.race, rest.residual, [r.wordIndex + 1] + rest.fired)
    ensures GreedyOutcome(r, text, now, a)
  {
    var i, w := r.wordIndex, r.words[r.wordIndex];
    var tail := text[|w| + 1..];
    var j := a.race.wordIndex;
    assert text == w + " " + tail;
    assert r.words[i..j] == [w] + r.words[i + 1..j];
    if a.race.running {
      TypedStep(text, w, tail, r.words[i + 1..j], a.residual);
    } else {
      TypedStep(text, w, tail, r.words[i + 1..j], r.words[j]);
    }
  }

  lemma TypedStep(text: string, w: string, tail: string, ws: seq<string>, last: string)
    requires text == w + " " + tail && tail == Typed(ws) + last
    ensures text == Typed([w] + ws) + last
  {
    TypedCons(w, ws);
  }

  /** `Accept` is greedy word stripping: see `GreedyOutcome`. */
  lemma {:induction false} AcceptIsGreedyStrip(r: Race, text: string, now: Timestamp)
    requires Valid(r)
    ensures GreedyOutcome(r, text, now, Accept(r, text, now))
    decreases |text|
  {
    var i := r.wordIndex;
    if StripsWord(r.words, i, text) {
      var w := r.words[i];
      var r2 := Started(r, now).(wordIndex := i + 1);
      var tail := text[|w| + 1..];
      AcceptAdvances(r, text, now);
      AcceptIsGreedyStrip(r2, tail, now);
      GreedyAdvanceStep(r, text, now, Accept(r2, tail, now), Accept(r, text, now));
    } else if FinishesOn(r.words, i, text) {
      AcceptFinishes(r, text, now);
      assert r.words[i..i] == [];
    } else {
      AcceptRejects(r, text, now);
      assert r.words[i..i] == [];
    }
  }

  /** `Accept` keeps a race valid, and afterwards the race is complete
      exactly when it is no longer running. */
  lemma AcceptPreservesValid(r: Race, text: string, now: Timestamp)
    requires Valid(r)
    ensures var a := Accept(r, text, now);
      Valid(a.race) && (Completed(a.race) <==> !a.race.running)
  {
    AcceptIsGreedyStrip(r, text, now);
  }

  /** When `Accept` completes a race, the elapsed time is the time since the
      race began, which is never negative on a clock that does not run
      backwards. */
  lemma CompletionElapsed(r: Race, text: string, now: Timestamp)
    requires Valid(r)
    requires r.running ==> r.startTime <= now
    ensures var a := Accept(r, text, now);
      !a.race.running ==>
        && ElapsedMillis(a.race) == now - (if r.running then r.startTime else now)
        && ElapsedMillis(a.race) >= 0
  {
    AcceptIsGreedyStrip(r, text, now);
  }

  /** A fresh race, a loaded race and a race with one more callback are
      valid. */
  lemma ConstructionIsValid(r: Race, quote: string, cb: CallbackId)
    requires Valid(r)
    ensures Valid(NewRace())
    ensures Valid(Prepare(r, quote))
    ensures Valid(RegisterCallback(r, cb))
  {
  }

  /** Typing the last word followed by a space advances the index past the
      end of the list: the race keeps running, is not complete, has no current
      word, and its word number exceeds the word count. */
  lemma LastWordWithSpaceOverruns(r: Race, now: Timestamp)
    requires Valid(r) && |r.words| >= 1 && r.wordIndex == |r.words| - 1
    requires r.words[r.wordIndex] != "" && ' ' !in r.words[r.wordIndex]
    ensures var a := Accept(r, r.words[r.wordIndex] + " ", now);
      && a.race.wordIndex == |r.words|
      && a.race.running && !Completed(a.race)
      && a.residual == ""
      && CurrentWord(a.race) == None
      && WordNumber(a.race) == |r.words| + 1
      && a.fired == [|r.words|]
  {
    var text := r.words[r.wordIndex] + " ";
    var r2 := Started(r, now).(wordIndex := r.wordIndex + 1);
    AcceptAdvances(r, text, now);
    assert text[|r.words[r.wordIndex]| + 1..] == "";
    AcceptRejects(r2, "", now);
  }

  /** Typing the current word and a space, when it is not the last word and
      the next word is non-empty, moves to the next word with an empty
      residual. */
  lemma AcceptWordAndSpace(r: Race, now: Timestamp)
    requires r.wordIndex < |r.words| - 1
    requires r.words[r.wordIndex] != "" && ' ' !in r.words[r.wordIndex]
    requires r.words[r.wordIndex + 1] != ""
    ensures Accept(r, r.words[r.wordIndex] + " ", now) ==
      Accepted(Started(r, now).(wordIndex := r.wordIndex + 1), "", [r.wordIndex + 1])
  {
    var w := r.words[r.wordIndex];
    AcceptAdvances(r, w + " ", now);
    assert (w + " ")[|w| + 1..] == "";
    AcceptRejects(Started(r, now).(wordIndex := r.wordIndex + 1), "", now);
  }

  /** A proper prefix of the current word (or the whole word, when it is not
      the last) only begins timing: it comes back unchanged. */
  lemma AcceptPartialWord(r: Race, m: nat, now: Timestamp)
    requires r.wordIndex < |r.words| && ' ' !in r.words[r.wordIndex]
    requires m <= |r.words[r.wordIndex]|
    requires r.wordIndex == |r.words| - 1 ==> m < |r.words[r.wordIndex]|
    ensures var typed := r.words[r.wordIndex][..m];
      Accept(r, typed, now) == Accepted(Started(r, now), typed, [])
  {
    var w := r.words[r.wordIndex];
    assert !StripsWord(r.words, r.wordIndex, w[..m]) by {
      assert |w + " "| > |w[..m]|;
    }
    AcceptRejects(r, w[..m], now);
  }

  /** Once the index is past the end of the list, every input comes back
      unchanged, no callback fires and the race never completes. */
  lemma PastEndIsStuck(r: Race, text: string, now: Timestamp)
    requires r.wordIndex >= |r.words|
    ensures var a := Accept(r, text, now);
      && a == Accepted(Started(r, now), text, [])
      && a.race.running && a.race.wordIndex == r.wordIndex
  {
    AcceptRejects(r, text, now);
  }

  /** An empty current word is never stripped: the index stays put, and the
      race completes exactly when that word is the last one and the input is
      empty. */
  lemma EmptyWordOnlyMatchesEmptyInput(r: Race, text: string, now: Timestamp)
    requires r.wordIndex < |r.words| && r.words[r.wordIndex] == ""
    ensures var a := Accept(r, text, now);
      && a.race.wordIndex == r.wordIndex
      && (!a.race.running <==> r.wordIndex == |r.words| - 1 && text == "")
      && (a.race.running ==> a.residual == text)
  {
    if FinishesOn(r.words, r.wordIndex, text) {
      AcceptFinishes(r, text, now);
    } else {
      AcceptRejects(r, text, now);
    }
  }

  /** A quote that starts with a separator character has an empty first word
      and at least two words, so once it is loaded no input ever moves the
      race past its first word or completes it. */
  lemma LeadingSeparatorBlocksRace(r: Race, quote: string, text: string, now: Timestamp)
    requires quote != "" && !IsWordChar(quote[0])
    ensures var a := Accept(Prepare(r, quote), text, now);
      a.race.wordIndex == 0 && a.race.running && a.residual == text
  {
    EmptyWordOnlyMatchesEmptyInput(Prepare(r, quote), text, now);
  }

  /** `a` leaves the race complete on the last word of `r` with an empty
      field. */
  predicate CompletesOnLastWord(r: Race, a: Accepted) {
    && a.residual == ""
    && Completed(a.race) && !a.race.running
    && a.race.wordIndex == |r.words| - 1
  }

  lemma CompletesAfterAdvance(r: Race, now: Timestamp, b: Accepted, a: Accepted)
    requires CompletesOnLastWord(Started(r, now).(wordIndex := r.wordIndex + 1), b)
    requires a == Accepted(b.race, b.residual, [r.wordIndex + 1] + b.fired)
    ensures CompletesOnLastWord(r, a)
  {
  }

  lemma JoinFrom(words: seq<string>, i: nat)
    requires i < |words| - 1
    ensures Join(words[i..], " ") == words[i] + " " + Join(words[i + 1..], " ")
    ensures words[i] + " " <= Join(words[i..], " ")
    ensures Join(words[i..], " ")[|words[i]| + 1..] == Join(words[i + 1..], " ")
  {
    assert words[i..][1..] == words[i + 1..];
  }

  /** Typing all remaining words in one input, joined by single spaces,
      completes the race with an empty residual, provided none of the words
      holds a space and every word before the last is non-empty. */
  lemma {:induction false} TypingRemainingWordsCompletes(r: Race, now: Timestamp)
    requires Valid(r) && r.wordIndex < |r.words|
    requires forall k :: r.wordIndex <= k < |r.words| - 1 ==> r.words[k] != ""
    requires forall k :: r.wordIndex <= k < |r.words| ==> ' ' !in r.words[k]
    ensures CompletesOnLastWord(r, Accept(r, Join(r.words[r.wordIndex..], " "), now))
    decreases |r.words| - r.wordIndex
  {
    var i := r.wordIndex;
    var w := r.words[i];
    var text := Join(r.words[i..], " ");
    if i == |r.words| - 1 {
      assert r.words[i..] == [w];
      AcceptFinishes(r, text, now);
    } else {
      var r2 := Started(r, now).(wordIndex := i + 1);
      JoinFrom(r.words, i);
      AcceptAdvances(r, text, now);
      TypingRemainingWordsCompletes(r2, now);
      CompletesAfterAdvance(r, now, Accept(r2, Join(r.words[i + 1..], " "), now), Accept(r, text, now));
    }
  }

  /** Typing all words of a race from its first, in one input joined by
      single spaces, completes it and hands the callbacks 1, 2, ..., n - 1. */
  lemma TypingAllWordsCompletes(r: Race, ws: seq<string>, now: Timestamp)
    requires Valid(r) && r.words == ws && r.wordIndex == 0 && |ws| >= 1
    requires forall k :: 0 <= k < |ws| - 1 ==> ws[k] != ""
    requires forall k :: 0 <= k < |ws| ==> ' ' !in ws[k]
    ensures var a := Accept(r, Join(ws, " "), now);
      CompletesOnLastWord(r, a) && a.fired == Range(1, |ws|)
  {
    assert r.words[r.wordIndex..] == ws;
    TypingRemainingWordsCompletes(r, now);
    AcceptFiresPerAdvance(r, Join(ws, " "), now);
  }

  /** Loading a quote and then typing its words, joined by single spaces, in
      one input completes the race and hands the callbacks 1, 2, ..., n - 1
      for a quote of n words. This holds unless the first word is empty and
      there is more than one word. */
  lemma TypingQuoteCompletes(r: Race, quote: string, now: Timestamp)
    requires Valid(r)
    requires |GetWords(quote)| == 1 || GetWords(quote)[0] != ""
    ensures var a := Accept(Prepare(r, quote), Join(GetWords(quote), " "), now);
      CompletesOnLastWord(Prepare(r, quote), a) && a.fired == Range(1, |GetWords(quote)|)
  {
    InteriorWordsAreNonEmpty(quote);
    SplitWordsTypable(GetWords(quote));
    TypingAllWordsCompletes(Prepare(r, quote), GetWords(quote), now);
  }

  /** The trace `Range(lo, hi)` counts up by one from `lo` to `hi - 1`. */
  lemma {:induction false} RangeCountsUp(lo: nat, hi: nat)
    requires lo <= hi
    ensures |Range(lo, hi)| == hi - lo
    ensures forall k :: 0 <= k < hi - lo ==> Range(lo, hi)[k] == lo + k
    decreases hi - lo
  {
    if lo < hi {
      RangeCountsUp(lo + 1, hi);
      var t := Range(lo, hi);
      assert t == [lo] + Range(lo + 1, hi);
      forall k | 0 <= k < hi - lo
        ensures t[k] == lo + k
      {
        if k > 0 {
          assert t[k] == Range(lo + 1, hi)[k - 1];
        }
      }
    }
  }

  /** The trace of one `Accept` counts up by one from the old index plus one
      to the new index: one entry per word advance. */
  lemma AcceptTraceCountsUp(r: Race, text: string, now: Timestamp)
    ensures var a := Accept(r, text, now);
      && |a.fired| == a.race.wordIndex - r.wordIndex
      && forall k :: 0 <= k < |a.fired| ==> a.fired[k] == r.wordIndex + 1 + k
  {
    AcceptFiresPerAdvance(r, text, now);
    TraceCountsUp(r, Accept(r, text, now));
  }

  lemma TraceCountsUp(r: Race, a: Accepted)
    requires FiresPerAdvance(r, a) && r.wordIndex <= a.race.wordIndex
    ensures |a.fired| == a.race.wordIndex - r.wordIndex
    ensures forall k :: 0 <= k < |a.fired| ==> a.fired[k] == r.wordIndex + 1 + k
  {
    RangeCountsUp(r.wordIndex + 1, a.race.wordIndex + 1);
  }

  /** The calls for two traces in a row are the calls for the first followed
      by the calls for the second. */
  lemma {:induction false} CallsAppend(cbs: seq<CallbackId>, s: seq<nat>, t: seq<nat>)
    ensures Calls(cbs, s + t) == Calls(cbs, s) + Calls(cbs, t)
    decreases |s|
  {
    if s == [] {
      assert s + t == t;
    } else {
      assert (s + t)[1..] == s[1..] + t;
      CallsAppend(cbs, s[1..], t);
    }
  }

  /** With a single registered callback, that callback receives exactly the
      indices of the trace, in order. */
  lemma {:induction false} SingleCallbackSeesTrace(cb: CallbackId, fired: seq<nat>)
    ensures |Calls([cb], fired)| == |fired|
    ensures forall k :: 0 <= k < |fired| ==> Calls([cb], fired)[k] == Notification(cb, fired[k])
    decreases |fired|
  {
    if fired != [] {
      SingleCallbackSeesTrace(cb, fired[1..]);
      var t := Calls([cb], fired);
      assert t == [Notification(cb, fired[0])] + Calls([cb], fired[1..]);
      forall k | 0 <= k < |fired|
        ensures t[k] == Notification(cb, fired[k])
      {
        if k > 0 {
          assert t[k] == Calls([cb], fired[1..])[k - 1];
        }
      }
    }
  }

  /** The call at position `p` of `ns` is `n`. */
  predicate CallAt(ns: seq<Notification>, p: int, n: Notification) {
    0 <= p < |ns| && ns[p] == n
  }

  /** With any number of callbacks, the calls for a trace come in rounds, one
      per index: call `j` of round `k` is callback `j`, in registration order,
      receiving the trace's `k`-th index. */
  lemma {:induction false} CallsComeInRounds(cbs: seq<CallbackId>, fired: seq<nat>)
    ensures forall k, j :: 0 <= k < |fired| && 0 <= j < |cbs| ==>
      CallAt(Calls(cbs, fired), k * |cbs| + j, Notification(cbs[j], fired[k]))
  {
    forall k, j | 0 <= k < |fired| && 0 <= j < |cbs|
      ensures CallAt(Calls(cbs, fired), k * |cbs| + j, Notification(cbs[j], fired[k]))
    {
      CallInRound(cbs, fired, k, j);
    }
  }

  /** Call `j` of round `k`: callback `j` with the `k`-th index. */
  lemma {:induction false} CallInRound(cbs: seq<CallbackId>, fired: seq<nat>, k: nat, j: nat)
    requires k < |fired| && j < |cbs|
    ensures k * |cbs| + j < |Calls(cbs, fired)|
    ensures Calls(cbs, fired)[k * |cbs| + j] == Notification(cbs[j], fired[k])
    decreases k
  {
    var f, u := Fire(cbs, fired[0]), Calls(cbs, fired[1..]);
    assert Calls(cbs, fired) == f + u;
    if k > 0 {
      CallInRound(cbs, fired[1..], k - 1, j);
      RoundOffset(k, j, |cbs|, |fired|);
      assert fired[k] == fired[1..][k - 1];
    } else {
      assert f[j] == Notification(cbs[j], fired[0]);
    }
  }

  /** Round `k > 0` of `m` rounds of `n` calls starts one round into the
      rounds after the first. */
  lemma RoundOffset(k: nat, j: nat, n: nat, m: nat)
    requires 0 < k < m && j < n
    ensures k * n + j == n + ((k - 1) * n + j)
    ensures (k - 1) * n + j < (m - 1) * n
  {
    assert k * n == (k - 1) * n + n;
    MulMono(k, m - 1, n);
  }

  lemma {:induction false} MulMono(a: nat, b: nat, n: nat)
    requires a <= b
    ensures a * n <= b * n
    decreases b - a
  {
    if a < b {
      MulMono(a, b - 1, n);
      assert (b - 1) * n + n == b * n;
    }
  }
}
