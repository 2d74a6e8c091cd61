/** Word counting: `normalize` followed by counting the matches of `\w+`.

    The model keeps the two steps of the Python code apart. `Normalize` drops
    combining marks; `FindAll` returns the maximal runs of word characters,
    left to right, as the regular expression search does; `CountWords` is the
    length of that list. The partner of `FindAll` is an index-based count of
    the positions where a run of word characters begins. */
module Words {

  /** What the model removes as a mark: every code point of five combining
      blocks of the Basic Multilingual Plane, unassigned ones included. It
      stands for the Unicode general category M. */
  predicate IsMark(c: char) {
    || ('\U{0300}' <= c <= '\U{036F}')   // Combining Diacritical Marks
    || ('\U{1AB0}' <= c <= '\U{1AFF}')   // Combining Diacritical Marks Extended
    || ('\U{1DC0}' <= c <= '\U{1DFF}')   // Combining Diacritical Marks Supplement
    || ('\U{20D0}' <= c <= '\U{20FF}')   // Combining Diacritical Marks for Symbols
    || ('\U{FE20}' <= c <= '\U{FE2F}')   // Combining Half Marks
  }

  /** A character matched by `\w`: letters, digits and the underscore of
      ASCII, and the letters and numeric characters of Latin-1. */
  predicate IsWordChar(c: char) {
    || ('a' <= c <= 'z') || ('A' <= c <= 'Z') || ('0' <= c <= '9') || c == '_'
    || c == '\U{AA}' || c == '\U{B2}' || c == '\U{B3}' || c == '\U{B5}'
    || c == '\U{B9}' || c == '\U{BA}' || ('\U{BC}' <= c <= '\U{BE}')
    || ('\U{C0}' <= c <= '\U{FF}' && c != '\U{D7}' && c != '\U{F7}')
  }

  /** `normalize`: every combining mark removed, everything else kept in order. */
  function Normalize(s: string): (r: string)
    ensures |r| <= |s|
  {
    if s == [] then [] else (if IsMark(s[0]) then [] else [s[0]]) + Normalize(s[1..])
  }

  /** Length of the longest prefix of `s` made of word characters. */
  function RunLength(s: string): (n: nat)
    ensures n <= |s|
    ensures forall i :: 0 <= i < n ==> IsWordChar(s[i])
    ensures n == |s| || !IsWordChar(s[n])
  {
    if s == [] || !IsWordChar(s[0]) then 0 else 1 + RunLength(s[1..])
  }

  /** The list of matches of `\w+` in `s`: its maximal runs of word
      characters, left to right. */
  function FindAll(s: string): (r: seq<string>)
  {
    if s == [] then []
    else if !IsWordChar(s[0]) then FindAll(s[1..])
    else
      var n := RunLength(s);
      [s[..n]] + FindAll(s[n..])
  }

  /** Every match is a non-empty run of word characters. */
  lemma {:induction false} FindAllTokens(s: string)
    ensures forall t :: t in FindAll(s) ==> |t| > 0 && forall i :: 0 <= i < |t| ==> IsWordChar(t[i])
  {
    if s != [] {
      if !IsWordChar(s[0]) {
        FindAllTokens(s[1..]);
      } else {
        FindAllTokens(s[RunLength(s)..]);
      }
    }
  }

  /** Normalised text holds no combining mark. */
  lemma {:induction false} NormalizeUnmarks(s: string)
    ensures forall i :: 0 <= i < |Normalize(s)| ==> !IsMark(Normalize(s)[i])
  {
    if s != [] {
      NormalizeUnmarks(s[1..]);
    }
  }

  /** `count_words`: the number of words of the normalised text. */
  function CountWords(s: string): (r: nat)
    ensures r <= |s|
  {
    FindAllBound(Normalize(s));
    |FindAll(Normalize(s))|
  }

  /** Every match takes at least one character. */
  lemma {:induction false} FindAllBound(s: string)
    ensures |FindAll(s)| <= |s|
  {
    if s != [] {
      if !IsWordChar(s[0]) {
        FindAllBound(s[1..]);
      } else {
        FindAllBound(s[RunLength(s)..]);
      }
    }
  }

  /** Position `i` of `s` begins a maximal run of word characters. */
  predicate IsRunStart(s: string, i: nat)
    requires i < |s|
  {
    IsWordChar(s[i]) && (i == 0 || !IsWordChar(s[i - 1]))
  }

  /** The number of positions at or after `i` where a run begins. */
  function RunStartsFrom(s: string, i: nat): (r: nat)
    requires i <= |s|
    decreases |s| - i
  {
    if i == |s| then 0
    else (if IsRunStart(s, i) then 1 else 0) + RunStartsFrom(s, i + 1)
  }

  /** Inside a run (from `i` to `j`, each preceded by a word character) no
      run begins. */
  lemma {:induction false} NoStartInsideRun(s: string, i: nat, j: nat)
    requires 0 < i <= j <= |s|
    requires forall k :: i - 1 <= k < j ==> IsWordChar(s[k])
    ensures RunStartsFrom(s, i) == RunStartsFrom(s, j)
    decreases j - i
  {
    if i < j {
      NoStartInsideRun(s, i + 1, j);
    }
  }

  /** The matches found from a position that is not in the middle of a run
      are exactly the run starts from that position on. */
  lemma {:induction false} FindAllCountsRunStarts(s: string, i: nat)
    requires i <= |s|
    requires i == 0 || i == |s| || !IsWordChar(s[i - 1]) || !IsWordChar(s[i])
    ensures |FindAll(s[i..])| == RunStartsFrom(s, i)
    decreases |s| - i
  {
    if i < |s| {
      if !IsWordChar(s[i]) {
        SkipNonWord(s, i);
        FindAllCountsRunStarts(s, i + 1);
        assert !IsRunStart(s, i);
        assert RunStartsFrom(s, i) == RunStartsFrom(s, i + 1);
      } else {
        var n := RunLength(s[i..]);
        RunCounted(s, i, n);
        FindAllCountsRunStarts(s, i + n);
      }
    } else {
      assert s[i..] == [];
      assert FindAll(s[i..]) == [];
    }
  }

  /** A run beginning at `i` is one match and one run start. */
  lemma RunCounted(s: string, i: nat, n: nat)
    requires i < |s| && IsWordChar(s[i]) && (i == 0 || !IsWordChar(s[i - 1]))
    requires n == RunLength(s[i..])
    ensures 0 < n && i + n <= |s| && (i + n == |s| || !IsWordChar(s[i + n]))
    ensures |FindAll(s[i..])| == 1 + |FindAll(s[i + n..])|
    ensures RunStartsFrom(s, i) == 1 + RunStartsFrom(s, i + n)
  {
    TakeRun(s, i, n);
    if n > 1 {
      NoStartInsideRun(s, i + 1, i + n);
    }
    assert IsRunStart(s, i);
  }

  lemma SkipNonWord(s: string, i: nat)
    requires i < |s| && !IsWordChar(s[i])
    ensures FindAll(s[i..]) == FindAll(s[i + 1..])
  {
    assert s[i..][1..] == s[i + 1..];
  }

  lemma TakeRun(s: string, i: nat, n: nat)
    requires i < |s| && IsWordChar(s[i]) && n == RunLength(s[i..])
    ensures 0 < n && i + n <= |s|
    ensures |FindAll(s[i..])| == 1 + |FindAll(s[i + n..])|
    ensures forall k :: i <= k < i + n ==> IsWordChar(s[k])
    ensures i + n == |s| || !IsWordChar(s[i + n])
  {
    var t := s[i..];
    assert t[0] == s[i];
    assert t[n..] == s[i + n..];
    forall k | i <= k < i + n ensures IsWordChar(s[k]) {
      assert s[k] == t[k - i];
    }
    if i + n < |s| { assert s[i + n] == t[n]; }
  }

  /** `count_words` counts the maximal runs of word characters of the
      normalised text. */
  lemma CountWordsIsRunStarts(s: string)
    ensures CountWords(s) == RunStartsFrom(Normalize(s), 0)
  {
    var t := Normalize(s);
    assert t[0..] == t;
    FindAllCountsRunStarts(t, 0);
  }

  /** A text counts no word exactly when its normalised form holds no word
      character; the empty text (the stand-in for absent text) counts 0. */
  lemma {:induction false} NoWordsIffNoWordChar(s: string)
    ensures CountWords(s) == 0 <==> forall c :: c in Normalize(s) ==> !IsWordChar(c)
    ensures CountWords("") == 0
  {
    var t := Normalize(s);
    CountWordsIsRunStarts(s);
    if exists c :: c in t && IsWordChar(c) {
      var k :| 0 <= k < |t| && IsWordChar(t[k]);
      FirstWordCharStartsRun(t, k);
    } else {
      NoWordCharNoStart(t, 0);
    }
  }

  lemma {:induction false} FirstWordCharStartsRun(t: string, k: nat)
    requires k < |t| && IsWordChar(t[k])
    ensures RunStartsFrom(t, 0) > 0
    decreases k
  {
    if k == 0 || !IsWordChar(t[k - 1]) {
      StartCounted(t, 0, k);
    } else {
      FirstWordCharStartsRun(t, k - 1);
    }
  }

  lemma {:induction false} StartCounted(t: string, i: nat, k: nat)
    requires i <= k < |t| && IsRunStart(t, k)
    ensures RunStartsFrom(t, i) > 0
    decreases k - i
  {
    if i < k {
      StartCounted(t, i + 1, k);
    }
  }

  lemma {:induction false} NoWordCharNoStart(t: string, i: nat)
    requires i <= |t|
    requires forall c :: c in t ==> !IsWordChar(c)
    ensures RunStartsFrom(t, i) == 0
    decreases |t| - i
  {
    if i < |t| {
      assert t[i] in t;
      NoWordCharNoStart(t, i + 1);
    }
  }

  /** A text without combining marks is its own normal form. */
  lemma {:induction false} NormalizeUnmarked(s: string)
    requires forall i :: 0 <= i < |s| ==> !IsMark(s[i])
    ensures Normalize(s) == s
  {
    if s != [] {
      NormalizeUnmarked(s[1..]);
    }
  }

  /** A non-word character is skipped by the search. */
  lemma FindAllSkips(c: char, rest: string)
    requires !IsWordChar(c)
    ensures FindAll([c] + rest) == FindAll(rest)
  {
    assert ([c] + rest)[1..] == rest;
  }

  /** A whole run of word characters followed by a non-word character (or by
      nothing) is one match. */
  lemma {:induction false} FindAllTakesRun(w: string, rest: string)
    requires |w| > 0 && forall i :: 0 <= i < |w| ==> IsWordChar(w[i])
    requires rest == [] || !IsWordChar(rest[0])
    ensures FindAll(w + rest) == [w] + FindAll(rest)
  {
    RunLengthOfRun(w, rest);
    assert (w + rest)[..|w|] == w;
    assert (w + rest)[|w|..] == rest;
  }

  lemma {:induction false} RunLengthOfRun(w: string, rest: string)
    requires forall i :: 0 <= i < |w| ==> IsWordChar(w[i])
    requires rest == [] || !IsWordChar(rest[0])
    ensures RunLength(w + rest) == |w|
  {
    if w == [] {
      assert w + rest == rest;
    } else {
      assert (w + rest)[1..] == w[1..] + rest;
      RunLengthOfRun(w[1..], rest);
    }
  }

  /** Worked example: runs of spaces separate words. */
  lemma ExampleSpaces(s: string)
    requires s == "one two  three"
    ensures CountWords(s) == 3
  {
    NormalizeUnmarked(s);
    var rest := s[3..];
    assert s == "one" + rest;
    FindAllTakesRun("one", rest);
    ExampleSpacesRest(rest);
  }

  lemma ExampleSpacesRest(rest: string)
    requires rest == " two  three"
    ensures |FindAll(rest)| == 2
  {
    var three := rest[6..];
    assert rest == [' '] + ("two" + ([' '] + ([' '] + three)));
    assert three == three + [];
    FindAllTakesRun(three, []);
    FindAllSkips(' ', three);
    FindAllSkips(' ', [' '] + three);
    FindAllTakesRun("two", [' '] + ([' '] + three));
    FindAllSkips(' ', "two" + ([' '] + ([' '] + three)));
  }

  /** Worked example: a precomposed accented letter is a word character. */
  lemma ExamplePrecomposed(s: string)
    requires s == "caf\U{E9}"
    ensures CountWords(s) == 1
  {
    NormalizeUnmarked(s);
    assert s == s + [];
    FindAllTakesRun(s, []);
  }

  /** Worked example: an accent written as a combining mark does not split a
      word, wherever it stands. */
  lemma ExampleCombining(decomposed: string, leading: string)
    requires decomposed == "cafe\U{301}"
    requires leading == "e\U{301}lan"
    ensures CountWords(decomposed) == 1
    ensures CountWords(leading) == 1
  {
    var mark := decomposed[4..];
    assert Normalize(mark) == [];
    var cafe := decomposed[..4];
    assert decomposed == cafe + mark;
    NormalizeConcat(cafe, mark);
    NormalizeUnmarked(cafe);
    assert cafe == cafe + [];
    FindAllTakesRun(cafe, []);
    var e, lan := leading[..1], leading[2..];
    assert leading == (e + mark) + lan;
    NormalizeConcat(e + mark, lan);
    NormalizeConcat(e, mark);
    NormalizeUnmarked(e);
    NormalizeUnmarked(lan);
    var elan := e + lan;
    assert elan == elan + [];
    FindAllTakesRun(elan, []);
  }

  /** A mark on its own normalises to nothing. */
  lemma NormalizeMark(c: char)
    requires IsMark(c)
    ensures Normalize([c]) == []
  {
    assert [c][1..] == [];
  }

  /** Normalisation works character by character. */
  lemma {:induction false} NormalizeConcat(a: string, b: string)
    ensures Normalize(a + b) == Normalize(a) + Normalize(b)
  {
    if a == [] {
      assert a + b == b;
    } else {
      assert (a + b)[1..] == a[1..] + b;
      NormalizeConcat(a[1..], b);
    }
  }

  /** A character that is neither a word character nor a combining mark
      separates words: the words on either side are counted apart. */
  lemma CountWordsSplit(a: string, c: char, b: string)
    requires !IsWordChar(c) && !IsMark(c)
    ensures CountWords(a + [c] + b) == CountWords(a) + CountWords(b)
  {
    NormalizeConcat(a + [c], b);
    NormalizeConcat(a, [c]);
    assert Normalize([c]) == [c];
    FindAllSplit(Normalize(a), c, Normalize(b));
  }

  /** The search never runs a match across a non-word character. */
  lemma {:induction false} FindAllSplit(x: string, c: char, y: string)
    requires !IsWordChar(c)
    ensures FindAll(x + [c] + y) == FindAll(x) + FindAll(y)
    decreases |x|
  {
    if x == [] {
      assert x + [c] + y == [c] + y;
      FindAllSkips(c, y);
    } else if !IsWordChar(x[0]) {
      assert (x + [c] + y)[1..] == x[1..] + [c] + y;
      FindAllSplit(x[1..], c, y);
    } else {
      var n := RunLength(x);
      RunLengthPrefix(x, [c] + y);
      assert x + [c] + y == x + ([c] + y);
      assert (x + [c] + y)[..n] == x[..n];
      assert (x + [c] + y)[n..] == x[n..] + [c] + y;
      FindAllSplit(x[n..], c, y);
    }
  }

  /** A run that ends inside `x`, or at its end before a non-word
      character, is not lengthened by what follows. */
  lemma {:induction false} RunLengthPrefix(x: string, r: string)
    requires r == [] || !IsWordChar(r[0])
    ensures RunLength(x + r) == RunLength(x)
  {
    if x == [] {
      assert x + r == r;
    } else if IsWordChar(x[0]) {
      assert (x + r)[1..] == x[1..] + r;
      RunLengthPrefix(x[1..], r);
    }
  }

  /** A non-empty run of word characters is one word. */
  lemma OneWord(w: string)
    requires |w| > 0 && forall i :: 0 <= i < |w| ==> IsWordChar(w[i])
    ensures CountWords(w) == 1
  {
    NormalizeUnmarked(w);
    assert w == w + [];
    FindAllTakesRun(w, []);
  }

  /** A word followed by a separator: one word, then the words of the rest. */
  lemma WordThenSeparator(s: string, k: nat)
    requires 0 < k < |s|
    requires forall i :: 0 <= i < k ==> IsWordChar(s[i])
    requires !IsWordChar(s[k]) && !IsMark(s[k])
    ensures CountWords(s) == 1 + CountWords(s[k + 1..])
  {
    assert s == s[..k] + [s[k]] + s[k + 1..];
    CountWordsSplit(s[..k], s[k], s[k + 1..]);
    OneWord(s[..k]);
  }

  /** Worked example from the documentation of `normalize`: its sentence,
      accents precomposed, counts five words. (The sentence is given in three
      parts, joined by spaces.) */
  lemma ExampleDocstring(a: string, b: string, c: string)
    requires a == "un \U{E9}l\U{E9}phant" && b == "\U{E7}a trompe" && c == "\U{E9}norm\U{E9}ment!"
    ensures CountWords(a + " " + b + " " + c) == 5
  {
    CountWordsSplit(a + " " + b, ' ', c);
    CountWordsSplit(a, ' ', b);
    TwoWords(a);
    TwoWords(b);
    DocstringThird(c);
  }

  /** The first two parts of the sentence: a two-letter word, a space and
      a second word. */
  lemma TwoWords(x: string)
    requires x == "un \U{E9}l\U{E9}phant" || x == "\U{E7}a trompe"
    ensures CountWords(x) == 2
  {
    WordThenSeparator(x, 2);
    OneWord(x[3..]);
  }

  /** The last part of the sentence: one word and a punctuation mark. */
  lemma DocstringThird(c: string)
    requires c == "\U{E9}norm\U{E9}ment!"
    ensures CountWords(c) == 1
  {
    WordThenSeparator(c, 10);
    assert c[11..] == [];
  }
}
