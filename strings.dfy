/**
 * The string predicates and transformations of run_examples.py: `is_palindrome`,
 * `is_anagram` and `reverse_words`. Each is a single expression over Python's
 * string built-ins, so each is a function here; `str.split` and `' '.join` are
 * `Words` and `Join` below, and `str.isspace` and `str.lower` are taken on ASCII
 * (module Text).
 */
module Strings {
  import opened Seqs
  import opened Text

  // ---------------------------------------------------------------------------
  // is_palindrome

  /** `''.join(ch.lower() for ch in s if not ch.isspace())`: drop whitespace, lower-case the rest. */
  function Normalize(s: string): (r: string)
    ensures |r| <= |s|
    ensures (forall i :: 0 <= i < |s| ==> !IsSpace(s[i])) ==> |r| == |s|
  {
    if s == [] then []
    else (if IsSpace(s[0]) then [] else [Lower(s[0])]) + Normalize(s[1..])
  }

  /** The normalised string is no longer than the original and holds no whitespace and no capitals. */
  lemma {:induction false} NormalizeShape(s: string)
    ensures |Normalize(s)| <= |s|
    ensures forall i :: 0 <= i < |Normalize(s)| ==> !IsSpace(Normalize(s)[i]) && !('A' <= Normalize(s)[i] <= 'Z')
  {
    if s != [] {
      NormalizeShape(s[1..]);
    }
  }

  /** `is_palindrome(s)`: the normalised string reads the same backwards. */
  function IsPalindrome(s: string): (b: bool)
    ensures b <==> forall i :: 0 <= i < |Normalize(s)| ==> Normalize(s)[i] == Normalize(s)[|Normalize(s)| - 1 - i]
  {
    var t := Normalize(s);
    ReverseIndexed(t);
    assert t == Reverse(t) <== forall i :: 0 <= i < |t| ==> t[i] == t[|t| - 1 - i] by {
      if forall i :: 0 <= i < |t| ==> t[i] == t[|t| - 1 - i] {
        ReverseFromIndices(t, t);
      }
    }
    t == Reverse(t)
  }

  /** Normalising works piece by piece. */
  lemma {:induction false} NormalizeAppend(a: string, b: string)
    ensures Normalize(a + b) == Normalize(a) + Normalize(b)
  {
    if a == [] {
      assert a + b == b;
    } else {
      assert (a + b)[0] == a[0] && (a + b)[1..] == a[1..] + b;
      NormalizeAppend(a[1..], b);
    }
  }

  /** Normalising commutes with reversal. */
  lemma {:induction false} NormalizeReverse(s: string)
    ensures Normalize(Reverse(s)) == Reverse(Normalize(s))
  {
    if s != [] {
      NormalizeReverse(s[1..]);
      NormalizeAppend(Reverse(s[1..]), [s[0]]);
      assert Normalize([s[0]]) == (if IsSpace(s[0]) then [] else [Lower(s[0])]) + Normalize([]);
      ReverseAppend(if IsSpace(s[0]) then [] else [Lower(s[0])], Normalize(s[1..]));
    }
  }

  /** A string is a palindrome exactly when its reverse is. */
  lemma PalindromeReverse(s: string)
    ensures IsPalindrome(Reverse(s)) == IsPalindrome(s)
  {
    NormalizeReverse(s);
    var t := Normalize(s);
    ReverseReverse(t);
  }

  /** Whitespace anywhere is ignored. */
  lemma PalindromeIgnoresSpace(a: string, c: char, b: string)
    requires IsSpace(c)
    ensures IsPalindrome(a + [c] + b) == IsPalindrome(a + b)
  {
    NormalizeAppend(a + [c], b);
    NormalizeAppend(a, [c]);
    NormalizeAppend(a, b);
    assert Normalize([c]) == [] + Normalize([]);
    assert Normalize(a + [c] + b) == Normalize(a + b);
  }

  /** Upper and lower case are not told apart. */
  lemma PalindromeIgnoresCase(s: string)
    ensures IsPalindrome(LowerAll(s)) == IsPalindrome(s)
  {
    assert Normalize(LowerAll(s)) == Normalize(s) by {
      NormalizeLower(s);
    }
  }

  lemma {:induction false} NormalizeLower(s: string)
    ensures Normalize(LowerAll(s)) == Normalize(s)
  {
    if s != [] {
      assert LowerAll(s)[1..] == LowerAll(s[1..]);
      NormalizeLower(s[1..]);
    }
  }

  // ---------------------------------------------------------------------------
  // is_anagram

  /** `s.replace(' ', '')`: removes the space character only, not other whitespace. */
  function RemoveSpaces(s: string): (t: string)
    ensures |t| <= |s| && forall i :: 0 <= i < |t| ==> t[i] != ' '
  {
    if s == [] then [] else (if s[0] == ' ' then [] else [s[0]]) + RemoveSpaces(s[1..])
  }

  /** The string `Counter` is applied to: spaces removed, then lower-cased. */
  function AnagramKey(s: string): (k: string)
    ensures |k| <= |s|
    ensures forall i :: 0 <= i < |k| ==> k[i] != ' ' && !('A' <= k[i] <= 'Z')
  {
    LowerAll(RemoveSpaces(s))
  }

  /** How often `c` occurs in `s`: `Counter(s)[c]`. */
  function Count(c: char, s: string): nat
  {
    if s == [] then 0 else (if s[0] == c then 1 else 0) + Count(c, s[1..])
  }

  /** Every character occurs equally often in both strings: the two `Counter`s are equal. */
  predicate SameCounts(s: string, t: string)
  {
    forall c :: Count(c, s) == Count(c, t)
  }

  /** `is_anagram(s1, s2)`: both keys hold every character equally often. */
  function IsAnagram(s1: string, s2: string): (b: bool)
    ensures b <==> SameCounts(AnagramKey(s1), AnagramKey(s2))
  {
    var k1, k2 := AnagramKey(s1), AnagramKey(s2);
    CountsAreMultiset(k1, k2);
    multiset(k1) == multiset(k2)
  }

  /** Counting occurrences is the multiset's multiplicity. */
  lemma {:induction false} CountIsMultiplicity(c: char, s: string)
    ensures Count(c, s) == multiset(s)[c]
  {
    if s != [] {
      CountIsMultiplicity(c, s[1..]);
      assert s == [s[0]] + s[1..];
    }
  }

  /** Two strings have equal multisets exactly when every character is counted equally often. */
  lemma CountsAreMultiset(s: string, t: string)
    ensures multiset(s) == multiset(t) <==> SameCounts(s, t)
  {
    forall c ensures Count(c, s) == multiset(s)[c] {
      CountIsMultiplicity(c, s);
    }
    forall c ensures Count(c, t) == multiset(t)[c] {
      CountIsMultiplicity(c, t);
    }
  }

  /** Being anagrams is an equivalence relation. */
  lemma AnagramEquivalence(s1: string, s2: string, s3: string)
    ensures IsAnagram(s1, s1)
    ensures IsAnagram(s1, s2) == IsAnagram(s2, s1)
    ensures IsAnagram(s1, s2) && IsAnagram(s2, s3) ==> IsAnagram(s1, s3)
  {
  }

  /** Every string is an anagram of its reverse. */
  lemma {:induction false} AnagramOfReverse(s: string)
    ensures IsAnagram(s, Reverse(s))
  {
    KeyReverse(s);
    ReverseMultiset(AnagramKey(s));
  }

  lemma {:induction false} KeyReverse(s: string)
    ensures AnagramKey(Reverse(s)) == Reverse(AnagramKey(s))
  {
    RemoveSpacesReverse(s);
    LowerAllReverse(RemoveSpaces(s));
  }

  lemma {:induction false} RemoveSpacesAppend(a: string, b: string)
    ensures RemoveSpaces(a + b) == RemoveSpaces(a) + RemoveSpaces(b)
  {
    if a == [] {
      assert a + b == b;
    } else {
      assert (a + b)[0] == a[0] && (a + b)[1..] == a[1..] + b;
      RemoveSpacesAppend(a[1..], b);
    }
  }

  lemma {:induction false} RemoveSpacesReverse(s: string)
    ensures RemoveSpaces(Reverse(s)) == Reverse(RemoveSpaces(s))
  {
    if s != [] {
      RemoveSpacesReverse(s[1..]);
      RemoveSpacesAppend(Reverse(s[1..]), [s[0]]);
      assert RemoveSpaces([s[0]]) == (if s[0] == ' ' then [] else [s[0]]) + RemoveSpaces([]);
      ReverseAppend(if s[0] == ' ' then [] else [s[0]], RemoveSpaces(s[1..]));
    }
  }

  lemma LowerAllReverse(s: string)
    ensures LowerAll(Reverse(s)) == Reverse(LowerAll(s))
  {
    ReverseIndexed(s);
    ReverseIndexed(LowerAll(s));
  }

  /** No spaces and no capitals. */
  predicate Plain(s: string)
  {
    forall i :: 0 <= i < |s| ==> s[i] != ' ' && !('A' <= s[i] <= 'Z')
  }

  /** Strings with no spaces and no capitals are anagrams when they are permutations of each other. */
  lemma PlainAnagrams(s: string, t: string)
    requires Plain(s) && Plain(t) && multiset(s) == multiset(t)
    ensures IsAnagram(s, t)
  {
    KeyOfPlain(s);
    KeyOfPlain(t);
  }

  /** A string with no spaces and no capitals is its own key. */
  lemma KeyOfPlain(s: string)
    requires Plain(s)
    ensures AnagramKey(s) == s
  {
    assert RemoveSpaces(s) == s by {
      RemoveSpacesOfPlain(s);
    }
  }

  lemma {:induction false} RemoveSpacesOfPlain(s: string)
    requires forall i :: 0 <= i < |s| ==> s[i] != ' '
    ensures RemoveSpaces(s) == s
  {
    if s != [] {
      RemoveSpacesOfPlain(s[1..]);
    }
  }

  // ---------------------------------------------------------------------------
  // reverse_words

  /** The maximal run of non-whitespace characters that starts `s`. */
  function FirstWord(s: string): (w: string)
    ensures |w| <= |s| && w == s[..|w|]
    ensures forall i :: 0 <= i < |w| ==> !IsSpace(w[i])
    ensures |w| < |s| ==> IsSpace(s[|w|])
  {
    if s == [] || IsSpace(s[0]) then [] else [s[0]] + FirstWord(s[1..])
  }

  /** `s.split()`: the maximal runs of non-whitespace, in order. */
  function Words(s: string): (ws: seq<string>)
    ensures |ws| <= |s|
    ensures ws == [] <==> forall i :: 0 <= i < |s| ==> IsSpace(s[i])
    decreases |s|
  {
    if s == [] then []
    else if IsSpace(s[0]) then Words(s[1..])
    else [FirstWord(s)] + Words(s[|FirstWord(s)|..])
  }

  /** `' '.join(ws)`. */
  function Join(ws: seq<string>): (s: string)
    ensures ws != [] ==> ws[0] <= s
    ensures (forall j :: 0 <= j < |ws| ==> IsWord(ws[j])) ==> forall i :: 0 <= i < |s| ==> s[i] == ' ' || !IsSpace(s[i])
  {
    if ws == [] then "" else if |ws| == 1 then ws[0] else ws[0] + " " + Join(ws[1..])
  }

  /** A word as `split` produces it: non-empty and free of whitespace. */
  predicate IsWord(w: string)
  {
    w != [] && forall i :: 0 <= i < |w| ==> !IsSpace(w[i])
  }

  /** `reverse_words(s)`: the words of `s` in reverse order, joined by single spaces. */
  function ReverseWords(s: string): (r: string)
    ensures forall i :: 0 <= i < |r| ==> r[i] == ' ' || !IsSpace(r[i])
  {
    WordsAreWords(s);
    ReverseIndexed(Words(s));
    Join(Reverse(Words(s)))
  }

  /** Everything `split` returns is a word. */
  lemma {:induction false} WordsAreWords(s: string)
    ensures forall j :: 0 <= j < |Words(s)| ==> IsWord(Words(s)[j])
    decreases |s|
  {
    if s != [] {
      if IsSpace(s[0]) {
        WordsAreWords(s[1..]);
      } else {
        WordsAreWords(s[|FirstWord(s)|..]);
      }
    }
  }

  /** The first word of a word followed by a space or by nothing is that word. */
  lemma {:induction false} FirstWordOf(w: string, rest: string)
    requires IsWord(w) || w == []
    requires rest == [] || IsSpace(rest[0])
    ensures FirstWord(w + rest) == w
  {
    if w != [] {
      assert (w + rest)[1..] == w[1..] + rest;
      FirstWordOf(w[1..], rest);
    }
  }

  /** Splitting words joined by single spaces gives the words back. */
  lemma {:induction false} WordsOfJoin(ws: seq<string>)
    requires forall j :: 0 <= j < |ws| ==> IsWord(ws[j])
    ensures Words(Join(ws)) == ws
  {
    if ws == [] {
    } else if |ws| == 1 {
      FirstWordOf(ws[0], []);
      assert ws[0] + [] == ws[0];
      assert ws[0][|ws[0]|..] == [];
    } else {
      var j := Join(ws);
      var rest := " " + Join(ws[1..]);
      assert j == ws[0] + rest;
      FirstWordOf(ws[0], rest);
      assert j[|ws[0]|..] == rest;
      assert rest[1..] == Join(ws[1..]);
      WordsOfJoin(ws[1..]);
    }
  }

  /** Splitting the result gives the original words in reverse order. */
  lemma ReverseWordsWords(s: string)
    ensures Words(ReverseWords(s)) == Reverse(Words(s))
  {
    var ws := Words(s);
    WordsAreWords(s);
    ReverseIndexed(ws);
    WordsOfJoin(Reverse(ws));
  }

  /** Reversing the words twice gives the words of the original, singly spaced. */
  lemma ReverseWordsTwice(s: string)
    ensures ReverseWords(ReverseWords(s)) == Join(Words(s))
  {
    ReverseWordsWords(s);
    ReverseReverse(Words(s));
  }

  /** Two words swap places. */
  lemma ReverseTwoWords(w1: string, w2: string)
    requires IsWord(w1) && IsWord(w2)
    ensures ReverseWords(w1 + " " + w2) == w2 + " " + w1
  {
    var ws := [w1, w2];
    assert Join(ws) == w1 + " " + w2 by {
      assert ws[1..] == [w2];
    }
    WordsOfJoin(ws);
    var r := [w2, w1];
    ReverseFromIndices(ws, r);
    assert Join(r) == w2 + " " + w1 by {
      assert r[1..] == [w1];
    }
  }
}
