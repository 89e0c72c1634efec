/** The quote tokenizer: `getWords` splits a quote on every maximal run of
    characters outside the word alphabet, with the semantics of a string
    `split` on a global regular expression that never matches the empty
    string. Leading and trailing separator runs therefore produce an empty
    first or last word, and the empty quote produces one empty word. */
module Tokenizer {

  /** The characters the splitting expression does not match: ASCII letters,
      digits and the punctuation `, . ? ' " : ; ~ ! @ # $ % ^ & * ( ) _ - = +`,
      written as the ASCII ranges they fill (see `WordCharClass`). */
  predicate IsWordChar(c: char) {
    || ('!' <= c <= '.')
    || ('0' <= c <= ';')
    || c == '='
    || ('?' <= c <= 'Z')
    || ('^' <= c <= '_')
    || ('a' <= c <= 'z')
    || c == '~'
  }

  /** `IsWordChar` is the character class of the splitting expression, read
      as written: letters, digits and the listed punctuation. */
  lemma WordCharClass(c: char)
    ensures IsWordChar(c) <==>
      || ('A' <= c <= 'Z')
      || ('a' <= c <= 'z')
      || ('0' <= c <= '9')
      || c in ",.?'\":;~!@#$%^&*()_-=+"
  {
  }

  predicate AllWordChars(s: string) {
    forall k :: 0 <= k < |s| ==> IsWordChar(s[k])
  }

  predicate AllSeparatorChars(s: string) {
    forall k :: 0 <= k < |s| ==> !IsWordChar(s[k])
  }

  /** The words of `text`, scanning from the front: a word character extends
      the first word; a separator starts a new (so far empty) word unless the
      next character continues the same separator run. */
  function GetWords(text: string): (ws: seq<string>)
    ensures |ws| >= 1
    ensures forall k :: 0 <= k < |ws| ==> AllWordChars(ws[k])
    ensures ws[0] == "" <==> (text == "" || !IsWordChar(text[0]))
    ensures text != "" && !IsWordChar(text[0]) ==> |ws| >= 2
    decreases |text|
  {
    if text == "" then [""]
    else
      var rest := GetWords(text[1..]);
      if IsWordChar(text[0]) then [[text[0]] + rest[0]] + rest[1..]
      else if |text| > 1 && !IsWordChar(text[1]) then rest
      else [""] + rest
  }

  /** The separator runs of `text`, in order: the text between consecutive
      words of `GetWords(text)`. */
  function Separators(text: string): (ds: seq<string>)
    ensures |ds| == |GetWords(text)| - 1
    ensures forall k :: 0 <= k < |ds| ==> ds[k] != "" && AllSeparatorChars(ds[k])
    decreases |text|
  {
    if text == "" then []
    else
      var rest := Separators(text[1..]);
      if IsWordChar(text[0]) then rest
      else if |text| > 1 && !IsWordChar(text[1]) then [[text[0]] + rest[0]] + rest[1..]
      else [[text[0]]] + rest
  }

  /** `ws[0] + ds[0] + ws[1] + ... + ds[n-1] + ws[n]`. */
  function Interleave(ws: seq<string>, ds: seq<string>): string
    requires |ws| == |ds| + 1
    decreases |ds|
  {
    if ds == [] then ws[0] else ws[0] + ds[0] + Interleave(ws[1..], ds[1..])
  }

  /** `ws` and `ds` cut `text` into words separated by maximal separator runs:
      the words hold only word characters, the separators are non-empty runs
      of separator characters, and no word strictly inside the sequence is
      empty (an empty interior word would mean two adjacent separator runs,
      which are really one run). */
  predicate IsSplitting(text: string, ws: seq<string>, ds: seq<string>) {
    && |ws| == |ds| + 1
    && Interleave(ws, ds) == text
    && (forall k :: 0 <= k < |ws| ==> AllWordChars(ws[k]))
    && (forall k :: 0 <= k < |ds| ==> ds[k] != "" && AllSeparatorChars(ds[k]))
    && (forall k :: 0 < k < |ws| - 1 ==> ws[k] != "")
  }

  lemma InterleavePrepend(c: string, ws: seq<string>, ds: seq<string>)
    requires |ws| == |ds| + 1
    ensures Interleave([c + ws[0]] + ws[1..], ds) == c + Interleave(ws, ds)
  {
    var ws' := [c + ws[0]] + ws[1..];
    assert ws'[1..] == ws[1..];
  }

  /** The words and separators `GetWords` and `Separators` produce are a
      splitting of the text: putting them back together gives the text. */
  lemma {:induction false} GetWordsIsSplitting(text: string)
    ensures IsSplitting(text, GetWords(text), Separators(text))
    decreases |text|
  {
    if text != "" {
      var c := text[0];
      var ws, ds := GetWords(text[1..]), Separators(text[1..]);
      GetWordsIsSplitting(text[1..]);
      if IsWordChar(c) {
        SplittingAddWordChar(text, ws, ds);
      } else if |text| > 1 && !IsWordChar(text[1]) {
        SplittingAddSeparatorChar(text, ws, ds);
      } else {
        SplittingAddSeparator(text, ws, ds);
      }
    }
  }

  /** A splitting of `text[1..]`, extended by a leading word character. */
  lemma SplittingAddWordChar(text: string, ws: seq<string>, ds: seq<string>)
    requires text != "" && IsWordChar(text[0]) && IsSplitting(text[1..], ws, ds)
    ensures IsSplitting(text, [[text[0]] + ws[0]] + ws[1..], ds)
  {
    var c := text[0];
    assert text == [c] + text[1..];
    InterleavePrepend([c], ws, ds);
    var ws' := [[c] + ws[0]] + ws[1..];
    forall k | 0 <= k < |ws'|
      ensures AllWordChars(ws'[k])
    {
      if k == 0 {
        assert AllWordChars(ws[0]);
      } else {
        assert ws'[k] == ws[k];
      }
    }
    forall k | 0 < k < |ws'| - 1
      ensures ws'[k] != ""
    {
      assert ws'[k] == ws[k];
    }
  }

  /** A splitting of `text[1..]` that starts with a separator run, extended by
      one more leading separator character. */
  lemma SplittingAddSeparatorChar(text: string, ws: seq<string>, ds: seq<string>)
    requires text != "" && !IsWordChar(text[0]) && IsSplitting(text[1..], ws, ds)
    requires ws[0] == "" && |ws| >= 2
    ensures IsSplitting(text, ws, [[text[0]] + ds[0]] + ds[1..])
  {
    var c := text[0];
    var ds' := [[c] + ds[0]] + ds[1..];
    assert text == [c] + text[1..];
    assert Interleave(ws, ds') == ws[0] + ds'[0] + Interleave(ws[1..], ds'[1..]);
    assert ds'[1..] == ds[1..];
    assert Interleave(ws, ds) == ws[0] + ds[0] + Interleave(ws[1..], ds[1..]);
    forall k | 0 <= k < |ds'|
      ensures ds'[k] != "" && AllSeparatorChars(ds'[k])
    {
      if k > 0 {
        assert ds'[k] == ds[k];
      }
    }
  }

  /** A splitting of `text[1..]` that starts with a word (or is the empty
      splitting), extended by a one-character separator and an empty first
      word. */
  lemma SplittingAddSeparator(text: string, ws: seq<string>, ds: seq<string>)
    requires text != "" && !IsWordChar(text[0]) && IsSplitting(text[1..], ws, ds)
    requires ws[0] != "" || |ws| == 1
    ensures IsSplitting(text, [""] + ws, [[text[0]]] + ds)
  {
    var c := text[0];
    var ws', ds' := [""] + ws, [[c]] + ds;
    assert text == [c] + text[1..];
    assert ws'[1..] == ws && ds'[1..] == ds;
    assert Interleave(ws', ds') == "" + [c] + Interleave(ws, ds);
    forall k | 0 < k < |ws'| - 1
      ensures ws'[k] != ""
    {
      assert ws'[k] == ws[k - 1];
    }
  }

  /** A splitting of a text is unique: any words and separators that cut the
      text into words separated by maximal separator runs are exactly the ones
      `GetWords` and `Separators` compute. */
  lemma {:induction false} SplittingIsUnique(text: string, ws: seq<string>, ds: seq<string>)
    requires IsSplitting(text, ws, ds)
    ensures ws == GetWords(text)
    ensures ds == Separators(text)
    decreases |text|
  {
    if ws[0] != "" {
      var ws' := [ws[0][1..]] + ws[1..];
      SplittingDropWordChar(text, ws, ds);
      SplittingIsUnique(text[1..], ws', ds);
      UniqueAfterWordChar(text, ws, ds, ws');
    } else if ds == [] {
      assert text == "";
    } else if |ds[0]| > 1 {
      var ds' := [ds[0][1..]] + ds[1..];
      SplittingDropSeparatorChar(text, ws, ds);
      SplittingIsUnique(text[1..], ws, ds');
      UniqueAfterSeparatorChar(text, ws, ds, ds');
    } else {
      SplittingDropSeparator(text, ws, ds);
      SplittingIsUnique(text[1..], ws[1..], ds[1..]);
      UniqueAfterSeparator(text, ws, ds);
    }
  }

  lemma UniqueAfterWordChar(text: string, ws: seq<string>, ds: seq<string>, ws': seq<string>)
    requires text != "" && IsWordChar(text[0])
    requires |ws| >= 1 && ws[0] != "" && text[0] == ws[0][0] && ws' == [ws[0][1..]] + ws[1..]
    requires ws' == GetWords(text[1..]) && ds == Separators(text[1..])
    ensures ws == GetWords(text) && ds == Separators(text)
  {
    SplitAtWordChar(text);
    PrependFirst(ws);
    assert ws[0] == [text[0]] + ws'[0];
    assert ws'[1..] == ws[1..];
  }

  /** A word character joins the first word. */
  lemma SplitAtWordChar(text: string)
    requires text != "" && IsWordChar(text[0])
    ensures var rest := GetWords(text[1..]);
      GetWords(text) == [[text[0]] + rest[0]] + rest[1..]
    ensures Separators(text) == Separators(text[1..])
  {
  }

  lemma UniqueAfterSeparatorChar(text: string, ws: seq<string>, ds: seq<string>, ds': seq<string>)
    requires |text| > 1 && !IsWordChar(text[0]) && !IsWordChar(text[1])
    requires |ds| >= 1 && |ds[0]| > 1 && text[0] == ds[0][0] && ds' == [ds[0][1..]] + ds[1..]
    requires ws == GetWords(text[1..]) && ds' == Separators(text[1..])
    ensures ws == GetWords(text) && ds == Separators(text)
  {
    SplitInSeparatorRun(text);
    PrependFirst(ds);
    assert ds[0] == [text[0]] + ds'[0];
    assert ds'[1..] == ds[1..];
  }

  /** A separator character followed by another joins the first run. */
  lemma SplitInSeparatorRun(text: string)
    requires |text| > 1 && !IsWordChar(text[0]) && !IsWordChar(text[1])
    ensures GetWords(text) == GetWords(text[1..])
    ensures var rest := Separators(text[1..]);
      Separators(text) == [[text[0]] + rest[0]] + rest[1..]
  {
  }

  lemma UniqueAfterSeparator(text: string, ws: seq<string>, ds: seq<string>)
    requires text != "" && !IsWordChar(text[0]) && (|text| > 1 ==> IsWordChar(text[1]))
    requires |ws| >= 1 && ws[0] == "" && |ds| >= 1 && ds[0] == [text[0]]
    requires ws[1..] == GetWords(text[1..]) && ds[1..] == Separators(text[1..])
    ensures ws == GetWords(text) && ds == Separators(text)
  {
    SplitAtSeparator(text);
    PrependFirst(ws);
    PrependFirst(ds);
  }

  /** A lone separator character in front of a word (or at the end) adds an
      empty word and a one-character run. */
  lemma SplitAtSeparator(text: string)
    requires text != "" && !IsWordChar(text[0]) && (|text| > 1 ==> IsWordChar(text[1]))
    ensures GetWords(text) == [""] + GetWords(text[1..])
    ensures Separators(text) == [[text[0]]] + Separators(text[1..])
  {
  }

  lemma PrependFirst<T>(s: seq<T>)
    requires |s| >= 1
    ensures s == [s[0]] + s[1..]
  {
  }

  lemma SplitWordsAreUnique(text: string, ws: seq<string>, ds: seq<string>)
    requires IsSplitting(text, ws, ds)
    ensures ws == GetWords(text)
  {
    SplittingIsUnique(text, ws, ds);
  }

  /** A splitting whose first word is non-empty, minus its first character. */
  lemma SplittingDropWordChar(text: string, ws: seq<string>, ds: seq<string>)
    requires IsSplitting(text, ws, ds)
    requires ws[0] != ""
    ensures text != "" && text[0] == ws[0][0] && IsWordChar(text[0])
    ensures IsSplitting(text[1..], [ws[0][1..]] + ws[1..], ds)
  {
    var c := ws[0][0];
    var ws' := [ws[0][1..]] + ws[1..];
    assert ws[0] == [c] + ws'[0];
    assert ws'[1..] == ws[1..];
    assert ws == [[c] + ws'[0]] + ws'[1..];
    InterleavePrepend([c], ws', ds);
    assert text == [c] + Interleave(ws', ds);
    assert text[1..] == Interleave(ws', ds);
    assert AllWordChars(ws[0]);
    forall k | 0 <= k < |ws'|
      ensures AllWordChars(ws'[k])
    {
      if k > 0 {
        assert ws'[k] == ws[k];
      }
    }
    forall k | 0 < k < |ws'| - 1
      ensures ws'[k] != ""
    {
      assert ws'[k] == ws[k];
    }
  }

  /** A splitting that starts with a separator run of two or more characters,
      minus its first character. */
  lemma SplittingDropSeparatorChar(text: string, ws: seq<string>, ds: seq<string>)
    requires IsSplitting(text, ws, ds)
    requires ws[0] == "" && ds != [] && |ds[0]| > 1
    ensures |text| > 1 && text[0] == ds[0][0] && !IsWordChar(text[0]) && !IsWordChar(text[1])
    ensures IsSplitting(text[1..], ws, [ds[0][1..]] + ds[1..])
  {
    var c, d := ds[0][0], ds[0][1..];
    var ds' := [d] + ds[1..];
    var tail := Interleave(ws[1..], ds[1..]);
    assert ds'[1..] == ds[1..];
    assert Interleave(ws, ds) == ws[0] + ds[0] + tail;
    assert Interleave(ws, ds') == ws[0] + ds'[0] + tail;
    assert ds[0] == [c] + d;
    assert text == [c] + (d + tail);
    assert text[1..] == d + tail;
    assert AllSeparatorChars(ds[0]);
    assert AllSeparatorChars(d) by {
      forall k | 0 <= k < |d|
        ensures !IsWordChar(d[k])
      {
        assert d[k] == ds[0][k + 1];
      }
    }
    forall k | 0 <= k < |ds'|
      ensures ds'[k] != "" && AllSeparatorChars(ds'[k])
    {
      if k > 0 {
        assert ds'[k] == ds[k];
      }
    }
    assert text[1] == ds[0][1];
  }

  /** A splitting that starts with a one-character separator, minus that
      separator and the empty word before it. */
  lemma SplittingDropSeparator(text: string, ws: seq<string>, ds: seq<string>)
    requires IsSplitting(text, ws, ds)
    requires ws[0] == "" && ds != [] && |ds[0]| == 1
    ensures text != "" && text[0] == ds[0][0] && !IsWordChar(text[0])
    ensures |text| > 1 ==> IsWordChar(text[1])
    ensures IsSplitting(text[1..], ws[1..], ds[1..])
  {
    var c := ds[0][0];
    assert ds[0] == [c];
    assert text == [c] + Interleave(ws[1..], ds[1..]);
    assert text[1..] == Interleave(ws[1..], ds[1..]);
    forall k | 0 <= k < |ws| - 1
      ensures AllWordChars(ws[1..][k])
    {
      assert ws[1..][k] == ws[k + 1];
    }
    forall k | 0 <= k < |ds| - 1
      ensures ds[1..][k] != "" && AllSeparatorChars(ds[1..][k])
    {
      assert ds[1..][k] == ds[k + 1];
    }
    forall k | 0 < k < |ws| - 2
      ensures ws[1..][k] != ""
    {
      assert ws[1..][k] == ws[k + 1];
    }
    if |text| > 1 {
      assert ws[1] != "";
      SplittingDropWordChar(text[1..], ws[1..], ds[1..]);
    }
  }

  /** The characters of `s` that are word characters, in order. */
  function Filter(s: string): (r: string)
    ensures AllWordChars(r)
    ensures |r| <= |s|
    decreases |s|
  {
    if s == "" then ""
    else if IsWordChar(s[0]) then [s[0]] + Filter(s[1..])
    else Filter(s[1..])
  }

  function Concat(ws: seq<string>): string
    decreases |ws|
  {
    if ws == [] then "" else ws[0] + Concat(ws[1..])
  }

  lemma ConcatPrepend(c: string, ws: seq<string>)
    requires |ws| >= 1
    ensures Concat([c + ws[0]] + ws[1..]) == c + Concat(ws)
  {
    var ws' := [c + ws[0]] + ws[1..];
    assert ws'[1..] == ws[1..];
  }

  /** The words, glued together, are the quote with every separator
      character deleted. */
  lemma {:induction false} ConcatOfWordsIsFilter(text: string)
    ensures Concat(GetWords(text)) == Filter(text)
    decreases |text|
  {
    if text != "" {
      var ws := GetWords(text[1..]);
      ConcatOfWordsIsFilter(text[1..]);
      if IsWordChar(text[0]) {
        assert GetWords(text) == [[text[0]] + ws[0]] + ws[1..];
        ConcatPrepend([text[0]], ws);
      } else if |text| > 1 && !IsWordChar(text[1]) {
        assert GetWords(text) == ws;
      } else {
        assert GetWords(text) == [""] + ws;
        assert ([""] + ws)[1..] == ws;
      }
    }
  }

  /** `ws[0] + sep + ws[1] + ... + sep + ws[n-1]`. */
  function Join(ws: seq<string>, sep: string): string
    requires |ws| >= 1
    decreases |ws|
  {
    if |ws| == 1 then ws[0] else ws[0] + sep + Join(ws[1..], sep)
  }

  function Spaces(n: nat): (ds: seq<string>)
    ensures |ds| == n
    ensures forall k :: 0 <= k < n ==> ds[k] == " "
  {
    seq(n, _ => " ")
  }

  lemma {:induction false} JoinIsInterleave(ws: seq<string>)
    requires |ws| >= 1
    ensures Join(ws, " ") == Interleave(ws, Spaces(|ws| - 1))
    decreases |ws|
  {
    if |ws| > 1 {
      JoinIsInterleave(ws[1..]);
      assert Spaces(|ws| - 1)[1..] == Spaces(|ws| - 2);
    }
  }

  /** Single spaces between words that could have come out of a split form
      a splitting of the joined text. */
  lemma JoinIsSplitting(ws: seq<string>)
    requires |ws| >= 1
    requires forall k :: 0 <= k < |ws| ==> AllWordChars(ws[k])
    requires forall k :: 0 < k < |ws| - 1 ==> ws[k] != ""
    ensures IsSplitting(Join(ws, " "), ws, Spaces(|ws| - 1))
  {
    var ds := Spaces(|ws| - 1);
    SpacesAreSeparators(ds);
    JoinIsInterleave(ws);
    SplittingOfParts(Join(ws, " "), ws, ds);
  }

  lemma SplittingOfParts(text: string, ws: seq<string>, ds: seq<string>)
    requires |ws| == |ds| + 1 && Interleave(ws, ds) == text
    requires forall k :: 0 <= k < |ws| ==> AllWordChars(ws[k])
    requires forall k :: 0 <= k < |ds| ==> ds[k] != "" && AllSeparatorChars(ds[k])
    requires forall k :: 0 < k < |ws| - 1 ==> ws[k] != ""
    ensures IsSplitting(text, ws, ds)
  {
  }

  lemma SpacesAreSeparators(ds: seq<string>)
    requires ds == Spaces(|ds|)
    ensures forall k :: 0 <= k < |ds| ==> ds[k] != "" && AllSeparatorChars(ds[k])
  {
    assert !IsWordChar(' ');
    forall k | 0 <= k < |ds|
      ensures ds[k] != "" && AllSeparatorChars(ds[k])
    {
      assert ds[k] == " ";
    }
  }

  /** Joining words with single spaces and splitting again gives the words
      back, provided they could have come out of a split: every word holds
      only word characters and no word strictly inside the sequence is empty. */
  lemma JoinThenSplit(ws: seq<string>)
    requires |ws| >= 1
    requires forall k :: 0 <= k < |ws| ==> AllWordChars(ws[k])
    requires forall k :: 0 < k < |ws| - 1 ==> ws[k] != ""
    ensures GetWords(Join(ws, " ")) == ws
  {
    JoinIsSplitting(ws);
    SplitWordsAreUnique(Join(ws, " "), ws, Spaces(|ws| - 1));
  }

  /** Splitting is idempotent: re-splitting the space-joined words of a quote
      gives the same words. */
  lemma SplitIsIdempotent(text: string)
    ensures GetWords(Join(GetWords(text), " ")) == GetWords(text)
  {
    GetWordsIsSplitting(text);
    JoinThenSplit(GetWords(text));
  }

  /** Only the first and the last word of a quote can be empty. */
  lemma InteriorWordsAreNonEmpty(text: string)
    ensures forall k :: 0 < k < |GetWords(text)| - 1 ==> GetWords(text)[k] != ""
  {
    GetWordsIsSplitting(text);
  }

  /** The last word is empty exactly when the quote is empty or ends with a
      separator character. */
  lemma LastWordEmptyIff(text: string)
    ensures var ws := GetWords(text);
      ws[|ws| - 1] == "" <==> (text == "" || !IsWordChar(text[|text| - 1]))
  {
    GetWordsIsSplitting(text);
    LastOfInterleave(GetWords(text), Separators(text));
  }

  /** The interleaving ends with the last word, or with the last separator
      when that word is empty. */
  lemma {:induction false} LastOfInterleave(ws: seq<string>, ds: seq<string>)
    requires |ws| == |ds| + 1
    requires forall k :: 0 <= k < |ds| ==> ds[k] != ""
    ensures var t := Interleave(ws, ds);
      && (ws[|ws| - 1] != "" ==> t != "" && t[|t| - 1] == ws[|ws| - 1][|ws[|ws| - 1]| - 1])
      && (ws[|ws| - 1] == "" && ds != [] ==> t != "" && t[|t| - 1] == ds[|ds| - 1][|ds[|ds| - 1]| - 1])
      && (ws[|ws| - 1] == "" && ds == [] ==> t == "")
    decreases |ds|
  {
    if ds != [] {
      var ws', ds' := ws[1..], ds[1..];
      LastOfInterleave(ws', ds');
      var t, t' := Interleave(ws, ds), Interleave(ws', ds');
      assert t == (ws[0] + ds[0]) + t';
      assert ws[|ws| - 1] == ws'[|ws'| - 1];
      if t' == "" {
        assert ws'[|ws'| - 1] == "" && ds' == [];
        LastOfConcat(ws[0], ds[0]);
      } else {
        LastOfConcat(ws[0] + ds[0], t');
        if ds' != [] {
          assert ds[|ds| - 1] == ds'[|ds'| - 1];
        }
      }
    }
  }

  lemma LastOfConcat(a: string, b: string)
    requires b != ""
    ensures (a + b)[|a + b| - 1] == b[|b| - 1]
  {
  }

  lemma WordCharsHoldNoSpace(s: string)
    requires AllWordChars(s)
    ensures ' ' !in s
  {
  }

  /** The words of a split can be typed in one input when the first word is
      non-empty or the only one. */
  lemma SplitWordsTypable(ws: seq<string>)
    requires |ws| >= 1
    requires forall k :: 0 <= k < |ws| ==> AllWordChars(ws[k])
    requires forall k :: 0 < k < |ws| - 1 ==> ws[k] != ""
    requires |ws| == 1 || ws[0] != ""
    ensures forall k :: 0 <= k < |ws| - 1 ==> ws[k] != ""
    ensures forall k :: 0 <= k < |ws| ==> ' ' !in ws[k]
  {
    forall k | 0 <= k < |ws|
      ensures ' ' !in ws[k]
    {
      WordCharsHoldNoSpace(ws[k]);
    }
  }
}
