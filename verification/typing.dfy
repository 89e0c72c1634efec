/** The page's input loop, as far as the race sees it, for keys typed at the
    end of the field: each key appends its character to the field's value,
    that value is passed to `Accept`, and the field is set to the text
    `Accept` returns. */
module Typing {
  import opened Tokenizer
  import opened RaceEngine
  import opened RaceProperties

  /** One typed character and the clock reading when it was typed. */
  datatype Key = Key(c: char, at: Timestamp)

  /** The race and the current value of the input field. */
  datatype Field = Field(race: Race, value: string)

  /** One key: the key's character goes at the end of the field, the race
      accepts the field, and the field keeps what the race hands back (see
      `KeystrokeKeepsSuffix`). */
  function Keystroke(f: Field, k: Key): Field {
    var a := Accept(f.race, f.value + [k.c], k.at);
    Field(a.race, a.residual)
  }

  /** A run of keys, one `Keystroke` after another (see `TypeKeysFrame`). */
  function TypeKeys(f: Field, keys: seq<Key>): Field
    decreases |keys|
  {
    if keys == [] then f else TypeKeys(Keystroke(f, keys[0]), keys[1..])
  }

  /** A run of keys keeps the race's words and callbacks, and its index never
      moves back or past the end of the word list. */
  lemma {:induction false} TypeKeysFrame(f: Field, keys: seq<Key>)
    ensures var g := TypeKeys(f, keys);
      && g.race.words == f.race.words && g.race.callbacks == f.race.callbacks
      && f.race.wordIndex <= g.race.wordIndex
      && (f.race.wordIndex <= |f.race.words| ==> g.race.wordIndex <= |f.race.words|)
    decreases |keys|
  {
    if keys != [] {
      TypeKeysFrame(Keystroke(f, keys[0]), keys[1..]);
    }
  }

  /** After one key the field holds a suffix of its old value and the key's
      character; the race keeps its words and callbacks, and its index does
      not move back. */
  lemma KeystrokeKeepsSuffix(f: Field, k: Key)
    ensures var g := Keystroke(f, k);
      && IsSuffix(g.value, f.value + [k.c])
      && g.race.words == f.race.words && g.race.callbacks == f.race.callbacks
      && f.race.wordIndex <= g.race.wordIndex
  {
    AcceptResidualIsSuffix(f.race, f.value + [k.c], k.at);
  }

  /** The keys type out exactly `text`. */
  predicate Spells(keys: seq<Key>, text: string) {
    |keys| == |text| && forall k :: 0 <= k < |keys| ==> keys[k].c == text[k]
  }

  /** Typing `a` and then `b` is typing `a + b`. */
  lemma {:induction false} TypeKeysAppend(f: Field, a: seq<Key>, b: seq<Key>)
    ensures TypeKeys(f, a + b) == TypeKeys(TypeKeys(f, a), b)
    decreases |a|
  {
    if a == [] {
      assert a + b == b;
    } else {
      assert (a + b)[1..] == a[1..] + b;
      TypeKeysAppend(Keystroke(f, a[0]), a[1..], b);
    }
  }

  lemma TypeOneKey(f: Field, k: Key)
    ensures TypeKeys(f, [k]) == Keystroke(f, k)
  {
    assert [k][1..] == [];
  }

  /** Keys that spell a text spell each prefix of it with their own prefix. */
  lemma SpellsPrefix(keys: seq<Key>, text: string, n: nat)
    requires Spells(keys, text) && n <= |keys|
    ensures Spells(keys[..n], text[..n])
  {
  }

  /** One more character of the current word, typed after the ones before it,
      stays in the field. */
  lemma TypeNextChar(g: Field, k: Key, w: string, m: nat)
    requires g.race.wordIndex < |g.race.words| && w == g.race.words[g.race.wordIndex]
    requires ' ' !in w && 0 < m <= |w|
    requires g.race.wordIndex == |g.race.words| - 1 ==> m < |w|
    requires g.value == w[..m - 1] && k.c == w[m - 1]
    ensures Keystroke(g, k) == Field(Started(g.race, k.at), w[..m])
  {
    assert g.value + [k.c] == w[..m];
    AcceptPartialWord(g.race, m, k.at);
  }

  /** Typing the first `m` characters of the current word into an empty field
      leaves them in the field and changes nothing but the timing, as long as
      the typed part is not the whole last word. */
  lemma {:induction false} TypePartialWord(f: Field, keys: seq<Key>, m: nat)
    requires f.value == "" && f.race.wordIndex < |f.race.words|
    requires ' ' !in f.race.words[f.race.wordIndex]
    requires m <= |f.race.words[f.race.wordIndex]|
    requires f.race.wordIndex == |f.race.words| - 1 ==> m < |f.race.words[f.race.wordIndex]|
    requires Spells(keys, f.race.words[f.race.wordIndex][..m])
    ensures TypeKeys(f, keys) ==
      Field(if m == 0 then f.race else Started(f.race, keys[0].at), f.race.words[f.race.wordIndex][..m])
    decreases m
  {
    var w := f.race.words[f.race.wordIndex];
    if m == 0 {
      assert keys == [];
    } else {
      var k := keys[m - 1];
      var front := keys[..m - 1];
      SpellsPrefix(keys, w[..m], m - 1);
      assert w[..m][..m - 1] == w[..m - 1];
      assert keys == front + [k];
      TypePartialWord(f, front, m - 1);
      TypeKeysAppend(f, front, [k]);
      var g := TypeKeys(f, front);
      TypeOneKey(g, k);
      TypeNextChar(g, k, w, m);
    }
  }

  /** Typing a word that is not the last, then a space, moves to the next
      word and leaves the field empty, provided that next word is non-empty. */
  lemma TypeWordAndSpace(f: Field, keys: seq<Key>)
    requires f.value == "" && f.race.wordIndex < |f.race.words| - 1
    requires f.race.words[f.race.wordIndex] != "" && ' ' !in f.race.words[f.race.wordIndex]
    requires f.race.words[f.race.wordIndex + 1] != ""
    requires Spells(keys, f.race.words[f.race.wordIndex] + " ")
    ensures TypeKeys(f, keys) == Field(Started(f.race, keys[0].at).(wordIndex := f.race.wordIndex + 1), "")
  {
    var w := f.race.words[f.race.wordIndex];
    SpellsSplit(keys, w, " ");
    var front, space := keys[..|w|], keys[|w|..];
    assert w[..|w|] == w;
    TypePartialWord(f, front, |w|);
    TypeKeysAppend(f, front, space);
    var g := TypeKeys(f, front);
    assert space == [space[0]];
    TypeOneKey(g, space[0]);
    AcceptWordAndSpace(g.race, space[0].at);
  }

  /** Typing the last word into an empty field completes the race on its
      final character and empties the field. */
  lemma TypeLastWord(f: Field, keys: seq<Key>)
    requires f.value == "" && |f.race.words| >= 1 && f.race.wordIndex == |f.race.words| - 1
    requires f.race.words[f.race.wordIndex] != "" && ' ' !in f.race.words[f.race.wordIndex]
    requires Spells(keys, f.race.words[f.race.wordIndex])
    ensures TypeKeys(f, keys) == Field(Complete(Started(f.race, keys[0].at), keys[|keys| - 1].at), "")
  {
    var w := f.race.words[f.race.wordIndex];
    var k := keys[|w| - 1];
    var front := keys[..|w| - 1];
    assert keys == front + [k];
    assert w[..|w| - 1] + [k.c] == w;
    TypePartialWord(f, front, |w| - 1);
    TypeKeysAppend(f, front, [k]);
    var g := TypeKeys(f, front);
    TypeOneKey(g, k);
    AcceptFinishes(g.race, w, k.at);
  }

  /** Typing `keys` into `f` ends with the race complete and the field empty,
      on the last word. Timing begins at the first key unless the race was
      already running, and ends at the last key. */
  predicate EndsComplete(f: Field, keys: seq<Key>) {
    && |keys| > 0
    && var g := TypeKeys(f, keys);
    && g.value == ""
    && Completed(g.race) && !g.race.running
    && g.race.words == f.race.words && g.race.wordIndex == |f.race.words| - 1
    && g.race.startTime == (if f.race.running then f.race.startTime else keys[0].at)
    && g.race.endTime == keys[|keys| - 1].at
  }

  /** The race is running after every key but the last. */
  predicate RunsUntilLastKey(f: Field, keys: seq<Key>) {
    forall n :: 0 < n < |keys| ==> TypeKeys(f, keys[..n]).race.running
  }

  /** Typing `keys` into `f` completes the race on the last key and not
      before. */
  predicate CompletesOnLastKey(f: Field, keys: seq<Key>) {
    EndsComplete(f, keys) && RunsUntilLastKey(f, keys)
  }

  /** The words from the current one on can be typed: each is non-empty and
      holds no space. */
  predicate TypableFromHere(r: Race) {
    && r.wordIndex < |r.words|
    && (forall k :: r.wordIndex <= k < |r.words| ==> r.words[k] != "")
    && (forall k :: r.wordIndex <= k < |r.words| ==> ' ' !in r.words[k])
  }

  lemma CompletesOnLastWord(f: Field, keys: seq<Key>)
    requires f.value == "" && TypableFromHere(f.race) && f.race.wordIndex == |f.race.words| - 1
    requires Spells(keys, Join(f.race.words[f.race.wordIndex..], " "))
    ensures CompletesOnLastKey(f, keys)
  {
    var i, w := f.race.wordIndex, f.race.words[f.race.wordIndex];
    assert f.race.words[i..] == [w];
    TypeLastWord(f, keys);
    forall n | 0 < n < |keys|
      ensures TypeKeys(f, keys[..n]).race.running
    {
      TypePartialWord(f, keys[..n], n);
    }
  }

  /** Keys that spell `a + b` split into keys that spell `a` and keys that
      spell `b`. */
  lemma SpellsSplit(keys: seq<Key>, a: string, b: string)
    requires Spells(keys, a + b)
    ensures keys == keys[..|a|] + keys[|a|..]
    ensures Spells(keys[..|a|], a) && Spells(keys[|a|..], b)
  {
    forall k | 0 <= k < |b|
      ensures keys[|a|..][k].c == b[k]
    {
      assert keys[|a| + k].c == (a + b)[|a| + k];
    }
  }

  lemma RunningWithinWord(f: Field, front: seq<Key>, back: seq<Key>, n: nat)
    requires f.value == "" && f.race.wordIndex < |f.race.words| - 1
    requires ' ' !in f.race.words[f.race.wordIndex]
    requires Spells(front, f.race.words[f.race.wordIndex] + " ")
    requires 0 < n <= |f.race.words[f.race.wordIndex]|
    ensures TypeKeys(f, (front + back)[..n]).race.running
  {
    var w := f.race.words[f.race.wordIndex];
    assert (front + back)[..n] == front[..n];
    assert (w + " ")[..n] == w[..n];
    TypePartialWord(f, front[..n], n);
  }

  lemma RunningAfterWord(f: Field, front: seq<Key>, back: seq<Key>, s: Race, m: nat)
    requires TypeKeys(f, front) == Field(s, "")
    requires RunsUntilLastKey(Field(s, ""), back)
    requires 0 < m < |back|
    ensures TypeKeys(f, (front + back)[..|front| + m]).race.running
  {
    assert (front + back)[..|front| + m] == front + back[..m];
    TypeKeysAppend(f, front, back[..m]);
  }

  lemma EndsCompleteAfter(f: Field, front: seq<Key>, back: seq<Key>, s: Race)
    requires |front| > 0 && TypeKeys(f, front) == Field(s, "")
    requires s.words == f.race.words
    requires s.startTime == (if f.race.running then f.race.startTime else front[0].at)
    requires EndsComplete(Field(s, ""), back) && s.running
    ensures EndsComplete(f, front + back)
  {
    TypeKeysAppend(f, front, back);
  }

  lemma RunsAfterWordAndSpace(f: Field, front: seq<Key>, back: seq<Key>, s: Race)
    requires f.value == "" && f.race.wordIndex < |f.race.words| - 1
    requires ' ' !in f.race.words[f.race.wordIndex]
    requires Spells(front, f.race.words[f.race.wordIndex] + " ")
    requires TypeKeys(f, front) == Field(s, "") && s.running
    requires RunsUntilLastKey(Field(s, ""), back)
    ensures RunsUntilLastKey(f, front + back)
  {
    var w := f.race.words[f.race.wordIndex];
    var keys := front + back;
    forall n | 0 < n < |keys|
      ensures TypeKeys(f, keys[..n]).race.running
    {
      if n <= |w| {
        RunningWithinWord(f, front, back, n);
      } else if n == |front| {
        assert keys[..n] == front;
      } else {
        RunningAfterWord(f, front, back, s, n - |front|);
      }
    }
  }

  /** Completing the race from the next word, after typing a word and a
      space, is completing it from this word. */
  lemma CompletesAfterWordAndSpace(f: Field, front: seq<Key>, back: seq<Key>)
    requires f.value == "" && f.race.wordIndex < |f.race.words| - 1
    requires f.race.words[f.race.wordIndex] != "" && ' ' !in f.race.words[f.race.wordIndex]
    requires f.race.words[f.race.wordIndex + 1] != ""
    requires Spells(front, f.race.words[f.race.wordIndex] + " ")
    requires CompletesOnLastKey(
      Field(Started(f.race, front[0].at).(wordIndex := f.race.wordIndex + 1), ""), back)
    ensures CompletesOnLastKey(f, front + back)
  {
    var s := Started(f.race, front[0].at).(wordIndex := f.race.wordIndex + 1);
    TypeWordAndSpace(f, front);
    EndsCompleteAfter(f, front, back, s);
    RunsAfterWordAndSpace(f, front, back, s);
  }

  /** Typing the remaining words, joined by single spaces, one key at a time
      into an empty field completes the race on the last key and not before. */
  lemma {:induction false} TypingRemainingWords(f: Field, keys: seq<Key>)
    requires Valid(f.race) && f.value == "" && TypableFromHere(f.race)
    requires Spells(keys, Join(f.race.words[f.race.wordIndex..], " "))
    ensures CompletesOnLastKey(f, keys)
    decreases |f.race.words| - f.race.wordIndex
  {
    var i, w := f.race.wordIndex, f.race.words[f.race.wordIndex];
    var words := f.race.words;
    if i == |words| - 1 {
      CompletesOnLastWord(f, keys);
    } else {
      JoinFrom(words, i);
      SpellsSplit(keys, w + " ", Join(words[i + 1..], " "));
      var front, back := keys[..|w| + 1], keys[|w| + 1..];
      var s := Started(f.race, front[0].at).(wordIndex := i + 1);
      assert s.words[s.wordIndex..] == words[i + 1..];
      TypingRemainingWords(Field(s, ""), back);
      CompletesAfterWordAndSpace(f, front, back);
    }
  }

  /** Loading a quote that starts and ends with a word character, then typing
      its words joined by single spaces one key at a time, completes the race
      on the last key and not before, with an empty field, and the elapsed
      time runs from the first key to the last (or from the old start time if
      the race was still running when the quote was loaded). */
  lemma TypingQuoteKeystrokes(r: Race, quote: string, keys: seq<Key>)
    requires Valid(r)
    requires quote != "" && IsWordChar(quote[0]) && IsWordChar(quote[|quote| - 1])
    requires Spells(keys, Join(GetWords(quote), " "))
    ensures |keys| > 0
    ensures var g := TypeKeys(Field(Prepare(r, quote), ""), keys);
      && g.value == ""
      && Completed(g.race) && !g.race.running
      && g.race.wordIndex == |GetWords(quote)| - 1
      && ElapsedMillis(g.race) == keys[|keys| - 1].at - (if r.running then r.startTime else keys[0].at)
    ensures forall n :: 0 < n < |keys| ==> TypeKeys(Field(Prepare(r, quote), ""), keys[..n]).race.running
  {
    InteriorWordsAreNonEmpty(quote);
    LastWordEmptyIff(quote);
    var ws := GetWords(quote);
    SplitWordsTypable(ws);
    assert forall k :: 0 <= k < |ws| ==> ws[k] != "" && ' ' !in ws[k] by {
      assert ws[|ws| - 1] != "";
    }
    TypingAllWords(Prepare(r, quote), GetWords(quote), keys);
    CompletionTiming(r, Field(Prepare(r, quote), ""), keys);
  }

  lemma CompletionTiming(r: Race, f: Field, keys: seq<Key>)
    requires CompletesOnLastKey(f, keys)
    requires f.race.running == r.running && f.race.startTime == r.startTime
    ensures ElapsedMillis(TypeKeys(f, keys).race) ==
      keys[|keys| - 1].at - (if r.running then r.startTime else keys[0].at)
  {
  }

  /** Typing all words of a race from its first, one key at a time, completes
      it on the last key and not before. */
  lemma TypingAllWords(r: Race, ws: seq<string>, keys: seq<Key>)
    requires Valid(r) && r.words == ws && r.wordIndex == 0 && |ws| >= 1
    requires forall k :: 0 <= k < |ws| ==> ws[k] != "" && ' ' !in ws[k]
    requires Spells(keys, Join(ws, " "))
    ensures CompletesOnLastKey(Field(r, ""), keys)
  {
    assert r.words[r.wordIndex..] == ws;
    TypingRemainingWords(Field(r, ""), keys);
  }
}
