/**
  The pieces of Python's `str` that the film form validation relies on:
  `str.isspace`, `str.isalpha` and the argument-less `str.split()`.

  Whitespace is Python's full set (the characters for which `str.isspace`
  holds). Letters are restricted to code points up to U+00FF: the ASCII
  letters and the Latin-1 letters, exactly those for which Python's
  `str.isalpha` holds in that range; every character above U+00FF counts
  as a non-letter.
 */
module PyText {

  /** `c.isspace()` for one character. */
  predicate IsSpace(c: char) {
    || c == ' '
    || ('\t' <= c <= '\r')
    || ('\U{1C}' <= c <= '\U{1F}')
    || c == '\U{85}' || c == '\U{A0}' || c == '\U{1680}'
    || ('\U{2000}' <= c <= '\U{200A}')
    || c == '\U{2028}' || c == '\U{2029}' || c == '\U{202F}'
    || c == '\U{205F}' || c == '\U{3000}'
  }

  /** `c.isalpha()` for one character, restricted to code points <= U+00FF. */
  predicate IsLetter(c: char) {
    || ('A' <= c <= 'Z') || ('a' <= c <= 'z')
    || c == '\U{AA}' || c == '\U{B5}' || c == '\U{BA}'
    || ('\U{C0}' <= c <= '\U{D6}')
    || ('\U{D8}' <= c <= '\U{F6}')
    || ('\U{F8}' <= c <= '\U{FF}')
  }

  /** `w.isalpha()`: non-empty and letters only. */
  predicate IsAlpha(w: string) {
    |w| > 0 && forall i | 0 <= i < |w| :: IsLetter(w[i])
  }

  /** `w.isspace()`: non-empty and whitespace only. */
  predicate IsSpaceText(w: string) {
    |w| > 0 && forall i | 0 <= i < |w| :: IsSpace(w[i])
  }

  /** No character of `s` is whitespace. */
  predicate NoSpace(s: string) {
    forall i | 0 <= i < |s| :: !IsSpace(s[i])
  }

  /** Every character of `s` is a letter or whitespace: the character-level
      reading of "only letters and spaces". */
  predicate LettersAndSpaces(s: string) {
    forall i | 0 <= i < |s| :: IsLetter(s[i]) || IsSpace(s[i])
  }

  /** Length of the longest whitespace-free prefix of `s`. */
  function WordLen(s: string): (n: nat)
    ensures n <= |s|
    ensures NoSpace(s[..n])
    ensures n < |s| ==> IsSpace(s[n])
  {
    if |s| == 0 || IsSpace(s[0]) then 0
    else
      var n := 1 + WordLen(s[1..]);
      assert s[..n] == [s[0]] + s[1..][..n - 1];
      n
  }

  /** `s.split()`: the maximal runs of non-whitespace characters, in order;
      leading, trailing and repeated whitespace produce no empty words. */
  function Split(s: string): (words: seq<string>)
    ensures forall w | w in words :: |w| > 0 && NoSpace(w)
    decreases |s|
  {
    if |s| == 0 then []
    else if IsSpace(s[0]) then Split(s[1..])
    else
      var n := WordLen(s);
      [s[..n]] + Split(s[n..])
  }

  /** `all(word.isalpha() or word.isspace() for word in words)`. */
  predicate WordsAlphaOrSpace(words: seq<string>) {
    forall w | w in words :: IsAlpha(w) || IsSpaceText(w)
  }

  /** The characters of `s` that are not whitespace, in order. */
  function RemoveSpaces(s: string): (r: string)
    ensures |r| <= |s|
    ensures NoSpace(r)
  {
    if |s| == 0 then []
    else if IsSpace(s[0]) then RemoveSpaces(s[1..])
    else [s[0]] + RemoveSpaces(s[1..])
  }

  /** Concatenation of a sequence of words. */
  function Concat(words: seq<string>): string {
    if |words| == 0 then [] else words[0] + Concat(words[1..])
  }

  lemma LettersAndSpacesAppend(a: string, b: string)
    ensures LettersAndSpaces(a + b) <==> LettersAndSpaces(a) && LettersAndSpaces(b)
  {
    if LettersAndSpaces(a) && LettersAndSpaces(b) {
      forall i | 0 <= i < |a + b|
        ensures IsLetter((a + b)[i]) || IsSpace((a + b)[i])
      {
        if i < |a| { assert (a + b)[i] == a[i]; }
        else { assert (a + b)[i] == b[i - |a|]; }
      }
    }
    if LettersAndSpaces(a + b) {
      forall i | 0 <= i < |a| ensures IsLetter(a[i]) || IsSpace(a[i]) {
        assert (a + b)[i] == a[i];
      }
      forall i | 0 <= i < |b| ensures IsLetter(b[i]) || IsSpace(b[i]) {
        assert (a + b)[|a| + i] == b[i];
      }
    }
  }

  lemma {:induction false} RemoveSpacesAppend(a: string, b: string)
    ensures RemoveSpaces(a + b) == RemoveSpaces(a) + RemoveSpaces(b)
    decreases |a|
  {
    if |a| == 0 {
      assert a + b == b;
    } else {
      assert (a + b)[1..] == a[1..] + b;
      RemoveSpacesAppend(a[1..], b);
    }
  }

  lemma {:induction false} RemoveSpacesOfWord(w: string)
    requires NoSpace(w)
    ensures RemoveSpaces(w) == w
    decreases |w|
  {
    if |w| > 0 {
      RemoveSpacesOfWord(w[1..]);
      assert w == [w[0]] + w[1..];
    }
  }

  /** Checking every word of `s.split()` with `isalpha() or isspace()` is the
      same as asking that every character of `s` be a letter or whitespace. */
  lemma {:induction false} SplitCheckIff(s: string)
    ensures WordsAlphaOrSpace(Split(s)) <==> LettersAndSpaces(s)
    decreases |s|
  {
    if |s| == 0 {
    } else if IsSpace(s[0]) {
      SplitCheckIff(s[1..]);
      assert s == [s[0]] + s[1..];
      LettersAndSpacesAppend([s[0]], s[1..]);
    } else {
      var n := WordLen(s);
      var w := s[..n];
      SplitCheckIff(s[n..]);
      assert s == w + s[n..];
      LettersAndSpacesAppend(w, s[n..]);
      assert Split(s) == [w] + Split(s[n..]);
      assert w[0] == s[0];
      assert !IsSpaceText(w);
      assert IsAlpha(w) <==> LettersAndSpaces(w);
      assert WordsAlphaOrSpace(Split(s)) <==> (IsAlpha(w) || IsSpaceText(w)) && WordsAlphaOrSpace(Split(s[n..]));
    }
  }

  /** No word produced by `split()` is whitespace, so the `isspace()` half of
      the word check never decides anything. */
  lemma SplitWordsNeverSpace(s: string)
    ensures WordsAlphaOrSpace(Split(s)) <==> forall w | w in Split(s) :: IsAlpha(w)
  {
    forall w | w in Split(s) ensures !IsSpaceText(w) {
      assert !IsSpace(w[0]);
    }
  }

  /** Joining the words of `s.split()` gives back `s` without its whitespace:
      splitting loses the whitespace and nothing else. */
  lemma {:induction false} SplitJoin(s: string)
    ensures Concat(Split(s)) == RemoveSpaces(s)
    decreases |s|
  {
    if |s| == 0 {
    } else if IsSpace(s[0]) {
      SplitJoin(s[1..]);
    } else {
      var n := WordLen(s);
      var w := s[..n];
      SplitJoin(s[n..]);
      assert s == w + s[n..];
      RemoveSpacesAppend(w, s[n..]);
      RemoveSpacesOfWord(w);
      var ws := [w] + Split(s[n..]);
      assert ws[0] == w && ws[1..] == Split(s[n..]);
    }
  }
}
