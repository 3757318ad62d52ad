/**
 * Dollar words: give each lower-case letter its position in the alphabet
 * (a = 1 ... z = 26) and every other character 0; a word whose letters add up
 * to exactly 100 is a dollar word. The module models the two operations of the
 * program: the scoring filter GetDollarWords and the in-place SortByLength.
 */
module DollarWords {

  /** The sum a word's letters must reach to be a dollar word. */
  const Dollar: nat := 100

  /** The lower-case alphabet, in order (the table's keys). */
  const Lowercase: string := "abcdefghijklmnopqrstuvwxyz"

  predicate IsLowercase(c: char) {
    'a' <= c <= 'z'
  }

  /** The letter-value table: each lower-case letter to its position, 1 to 26. */
  const LetterValues: map<char, nat> := map c | IsLowercase(c) :: c as int - 'a' as int + 1

  /** The table is the dictionary built by pairing the alphabet with 1, 2, ..., 26. */
  lemma LetterValuesAreZip()
    ensures forall i :: 0 <= i < |Lowercase| ==> Lowercase[i] in LetterValues && LetterValues[Lowercase[i]] == i + 1
    ensures forall c :: c in LetterValues ==> c in Lowercase
  {
  }

  /** A character's value: its table entry, or 0 when the table has none. */
  function LetterValue(c: char): (v: nat)
    ensures v <= 26
    ensures v > 0 <==> IsLowercase(c)
    ensures IsLowercase(c) ==> v as int == c as int - 'a' as int + 1
  {
    if c in LetterValues then LetterValues[c] else 0
  }

  /** A word's value: the sum of its characters' values. */
  function Value(word: string): (v: nat)
    ensures v <= 26 * |word|
  {
    if word == [] then 0 else Value(word[..|word| - 1]) + LetterValue(word[|word| - 1])
  }

  predicate IsDollarWord(word: string) {
    Value(word) == Dollar
  }

  /** Value is additive over concatenation. */
  lemma {:induction false} ValueConcat(u: string, w: string)
    ensures Value(u + w) == Value(u) + Value(w)
    decreases |w|
  {
    if w == [] {
      assert u + w == u;
    } else {
      var w' := w[..|w| - 1];
      assert (u + w)[..|u + w| - 1] == u + w';
      ValueConcat(u, w');
    }
  }

  /** No prefix is worth more than the whole word: values never go down as a scan proceeds. */
  lemma {:induction false} ValuePrefixBound(word: string, i: nat)
    requires i <= |word|
    ensures Value(word[..i]) <= Value(word)
  {
    assert word[..i] + word[i..] == word;
    ValueConcat(word[..i], word[i..]);
  }

  /** Once a prefix is worth more than 100, so is the word: stopping the scan there cannot lose a dollar word. */
  lemma OverDollarPrefixIsFinal(word: string, i: nat)
    requires i <= |word|
    requires Value(word[..i]) > Dollar
    ensures Value(word) > Dollar && !IsDollarWord(word)
  {
    ValuePrefixBound(word, i);
  }

  /** A word is worth 0 exactly when it holds no lower-case letter (upper case, space and punctuation are worth 0). */
  lemma {:induction false} ValueZeroIffNoLowercase(word: string)
    ensures Value(word) == 0 <==> forall i :: 0 <= i < |word| ==> !IsLowercase(word[i])
  {
    if word != [] {
      var n := |word| - 1;
      ValueZeroIffNoLowercase(word[..n]);
      assert forall i :: 0 <= i < n ==> word[..n][i] == word[i];
    }
  }

  /** Python's sequence replication s * n. */
  function Repeat<T>(s: seq<T>, n: nat): (r: seq<T>)
    ensures |r| == n * |s|
  {
    if n == 0 then [] else Repeat(s, n - 1) + s
  }

  /** Copy i of s inside s * n holds s itself: its j-th item is s[j]. */
  lemma {:induction false} RepeatAt<T>(s: seq<T>, n: nat, i: nat, j: nat)
    requires i < n && j < |s|
    ensures i * |s| + j < |Repeat(s, n)|
    ensures Repeat(s, n)[i * |s| + j] == s[j]
  {
    if i < n - 1 {
      RepeatAt(s, n - 1, i, j);
    } else {
      assert i * |s| == |Repeat(s, n - 1)|;
    }
  }

  /** A word made of one character repeated n times is worth n times that character. */
  lemma {:induction false} ValueRepeat(c: char, n: nat)
    ensures Value(Repeat([c], n)) == n * LetterValue(c)
  {
    if n > 0 {
      var v := LetterValue(c);
      ValueRepeat(c, n - 1);
      ValueConcat(Repeat([c], n - 1), [c]);
      assert Value([c]) == v by {
        assert [c][..0] == [];
      }
      assert n * v == (n - 1) * v + v;
    }
  }

  /** The words whose value is exactly 100, in input order, duplicates kept. */
  function DollarWordsOf(words: seq<string>): (r: seq<string>)
    ensures |r| <= |words|
    ensures forall k :: 0 <= k < |r| ==> IsDollarWord(r[k])
  {
    if words == [] then []
    else
      var n := |words| - 1;
      DollarWordsOf(words[..n]) + (if IsDollarWord(words[n]) then [words[n]] else [])
  }

  /** The positions of the dollar words, in increasing order: an independent description of the filter. */
  function DollarPositions(words: seq<string>): (idx: seq<nat>)
    ensures forall k :: 0 <= k < |idx| ==> idx[k] < |words|
    ensures forall k, l :: 0 <= k < l < |idx| ==> idx[k] < idx[l]
    ensures forall j :: 0 <= j < |words| ==> (j in idx <==> IsDollarWord(words[j]))
  {
    if words == [] then []
    else
      var n := |words| - 1;
      DollarPositions(words[..n]) + (if IsDollarWord(words[n]) then [n] else [])
  }

  /**
   * The filter's output is the input read at exactly the dollar positions, in
   * order: a subsequence that keeps every dollar word and nothing else.
   */
  lemma {:induction false} DollarWordsAtPositions(words: seq<string>)
    ensures |DollarWordsOf(words)| == |DollarPositions(words)|
    ensures forall k :: 0 <= k < |DollarPositions(words)| ==>
              DollarWordsOf(words)[k] == words[DollarPositions(words)[k]]
  {
    if words != [] {
      var n := |words| - 1;
      var init := words[..n];
      DollarWordsAtPositions(init);
      var before, at := DollarWordsOf(init), DollarPositions(init);
      forall k | 0 <= k < |at| ensures before[k] == words[at[k]] {
        assert init[at[k]] == words[at[k]];
      }
      if IsDollarWord(words[n]) {
        assert DollarWordsOf(words) == before + [words[n]];
        assert DollarPositions(words) == at + [n];
      } else {
        assert DollarWordsOf(words) == before;
        assert DollarPositions(words) == at;
      }
    }
  }

  /** Every word is kept exactly as often as it occurs when it is a dollar word, and never otherwise. */
  lemma {:induction false} DollarWordsCount(words: seq<string>, w: string)
    ensures multiset(DollarWordsOf(words))[w] == if IsDollarWord(w) then multiset(words)[w] else 0
  {
    if words != [] {
      var n := |words| - 1;
      DollarWordsCount(words[..n], w);
      assert words == words[..n] + [words[n]];
    }
  }

  /** Filtering distributes over concatenation. */
  lemma {:induction false} DollarWordsConcat(xs: seq<string>, ys: seq<string>)
    ensures DollarWordsOf(xs + ys) == DollarWordsOf(xs) + DollarWordsOf(ys)
    decreases |ys|
  {
    if ys == [] {
      assert xs + ys == xs;
    } else {
      var n := |ys| - 1;
      assert (xs + ys)[..|xs + ys| - 1] == xs + ys[..n];
      DollarWordsConcat(xs, ys[..n]);
    }
  }

  /** Filtering a list replicated n times gives the filtered list replicated n times. */
  lemma {:induction false} DollarWordsRepeat(words: seq<string>, n: nat)
    ensures DollarWordsOf(Repeat(words, n)) == Repeat(DollarWordsOf(words), n)
  {
    if n > 0 {
      DollarWordsRepeat(words, n - 1);
      DollarWordsConcat(Repeat(words, n - 1), words);
    }
  }

  /** The output is empty exactly when no input word is worth 100 (in particular for empty input). */
  lemma {:induction false} DollarWordsEmptyIff(words: seq<string>)
    ensures DollarWordsOf(words) == [] <==> forall j :: 0 <= j < |words| ==> !IsDollarWord(words[j])
  {
    if words != [] {
      var n := |words| - 1;
      DollarWordsEmptyIff(words[..n]);
      assert forall j :: 0 <= j < n ==> words[..n][j] == words[j];
    }
  }

  /** The output is the whole input exactly when every input word is worth 100. */
  lemma {:induction false} DollarWordsIdentityIff(words: seq<string>)
    ensures DollarWordsOf(words) == words <==> forall j :: 0 <= j < |words| ==> IsDollarWord(words[j])
  {
    if words != [] {
      var n := |words| - 1;
      DollarWordsIdentityIff(words[..n]);
      assert forall j :: 0 <= j < n ==> words[..n][j] == words[j];
      assert words == words[..n] + [words[n]];
      if DollarWordsOf(words) == words {
        assert IsDollarWord(DollarWordsOf(words)[n]);
        assert |DollarWordsOf(words[..n])| <= n;
      }
    }
  }

  /** A string iterated as a list of words: each character is a one-letter word. */
  function Characters(s: string): (r: seq<string>)
    ensures |r| == |s|
    ensures forall k :: 0 <= k < |r| ==> |r[k]| == 1
  {
    seq(|s|, k requires 0 <= k < |s| => [s[k]])
  }

  /** Python's ''.join(words): the words written one after another. */
  function Join(words: seq<string>): string {
    if words == [] then "" else Join(words[..|words| - 1]) + words[|words| - 1]
  }

  /** Joining the one-character words of a string gives the string back. */
  lemma {:induction false} CharactersJoin(s: string)
    ensures Join(Characters(s)) == s
  {
    if s != [] {
      var n := |s| - 1;
      assert Characters(s)[..n] == Characters(s[..n]);
      CharactersJoin(s[..n]);
      assert s == s[..n] + [s[n]];
    }
  }

  /** A one-character word is worth at most 26, so a string iterated character by character yields no dollar word. */
  lemma CharactersNeverDollar(s: string)
    ensures DollarWordsOf(Characters(s)) == []
  {
    var words := Characters(s);
    forall j | 0 <= j < |words| ensures !IsDollarWord(words[j]) {
      assert Value(words[j]) <= 26 * |words[j]|;
    }
    DollarWordsEmptyIff(words);
  }

  /**
   * get_dollar_words: score each word left to right, giving up on it as soon as
   * its running value passes 100, and collect the words whose value is 100.
   */
  method GetDollarWords(words: seq<string>) returns (dollarWords: seq<string>)
    ensures dollarWords == DollarWordsOf(words)
  {
    dollarWords := [];
    for n := 0 to |words|
      invariant dollarWords == DollarWordsOf(words[..n])
    {
      var word := words[n];
      var value := 0;
      for i := 0 to |word|
        invariant value == Value(word[..i])
      {
        assert word[..i + 1][..i] == word[..i];
        value := value + LetterValue(word[i]);
        if value > Dollar {
          OverDollarPrefixIsFinal(word, i + 1);
          break;
        }
      }
      assert word[..|word|] == word;
      assert words[..n + 1][..n] == words[..n];
      if value == Dollar {
        dollarWords := dollarWords + [word];
      }
    }
    assert words[..|words|] == words;
  }

  /** Item lengths never decrease from left to right. */
  predicate SortedByLength<T>(s: seq<seq<T>>) {
    forall p, q :: 0 <= p < q < |s| ==> |s[p]| <= |s[q]|
  }

  /** The sequence of the items' lengths. */
  function Lengths<T>(s: seq<seq<T>>): seq<nat> {
    seq(|s|, k requires 0 <= k < |s| => |s[k]|)
  }

  /**
   * sort_by_length: sort the list in place by item length and return that same
   * list. Ties may end up in any order.
   */
  method SortByLength<T>(items: array<seq<T>>) returns (sorted: array<seq<T>>)
    modifies items
    ensures sorted == items
    ensures SortedByLength(items[..])
    ensures multiset(items[..]) == multiset(old(items[..]))
  {
    for i := 0 to items.Length
      invariant forall p, q :: 0 <= p < q < i ==> |items[p]| <= |items[q]|
      invariant multiset(items[..]) == multiset(old(items[..]))
    {
      var j := i;
      while j > 0 && |items[j - 1]| > |items[j]|
        invariant 0 <= j <= i
        invariant forall p, q :: 0 <= p < q <= i && p != j && q != j ==> |items[p]| <= |items[q]|
        invariant forall q :: j < q <= i ==> |items[j]| <= |items[q]|
        invariant multiset(items[..]) == multiset(old(items[..]))
      {
        SwapWithPrevious(items, j);
        j := j - 1;
      }
    }
    sorted := items;
  }

  /** Exchanges an item with the one before it. */
  method SwapWithPrevious<T>(items: array<seq<T>>, j: int)
    requires 0 < j < items.Length
    modifies items
    ensures items[..] == old(items[..])[j - 1 := old(items[j])][j := old(items[j - 1])]
    ensures multiset(items[..]) == multiset(old(items[..]))
  {
    items[j - 1], items[j] := items[j], items[j - 1];
  }

  lemma MultisetCancel<T>(a: multiset<T>, b: multiset<T>, x: T)
    requires a + multiset{x} == b + multiset{x}
    ensures a == b
  {
    assert a == (a + multiset{x}) - multiset{x};
    assert b == (b + multiset{x}) - multiset{x};
  }

  lemma LengthsConcat<T>(u: seq<seq<T>>, v: seq<seq<T>>)
    ensures Lengths(u + v) == Lengths(u) + Lengths(v)
  {
  }

  /** A list and any reordering of it have the same lengths, counted with multiplicity. */
  lemma {:induction false} LengthsPermutation<T>(s: seq<seq<T>>, t: seq<seq<T>>)
    requires multiset(s) == multiset(t)
    ensures multiset(Lengths(s)) == multiset(Lengths(t))
    decreases |s|
  {
    if s == [] {
      assert |t| == |multiset(t)|;
    } else {
      var n := |s| - 1;
      var x := s[n];
      assert s == s[..n] + [x];
      assert x in multiset(t);
      var k :| 0 <= k < |t| && t[k] == x;
      var front, back := t[..k], t[k + 1..];
      assert t == front + [x] + back;
      assert multiset(t) == multiset(front + back) + multiset{x};
      MultisetCancel(multiset(front + back), multiset(s[..n]), x);
      LengthsPermutation(s[..n], front + back);
      LengthsConcat(s[..n], [x]);
      LengthsConcat(front + [x], back);
      LengthsConcat(front, [x]);
      LengthsConcat(front, back);
      assert Lengths([x]) == [|x|];
    }
  }

  predicate Ascending(s: seq<nat>) {
    forall p, q :: 0 <= p < q < |s| ==> s[p] <= s[q]
  }

  /** Two ascending sequences of numbers that are reorderings of each other are equal. */
  lemma {:induction false} AscendingPermutationsEqual(a: seq<nat>, b: seq<nat>)
    requires Ascending(a) && Ascending(b)
    requires multiset(a) == multiset(b)
    ensures a == b
    decreases |a|
  {
    assert |a| == |b| by {
      assert |a| == |multiset(a)|;
      assert |b| == |multiset(b)|;
    }
    if a != [] {
      var n := |a| - 1;
      assert a[n] <= b[n] by {
        assert a[n] in multiset(b);
        var j :| 0 <= j < |b| && b[j] == a[n];
      }
      assert b[n] <= a[n] by {
        assert b[n] in multiset(a);
        var j :| 0 <= j < |a| && a[j] == b[n];
      }
      assert a == a[..n] + [a[n]];
      assert b == b[..n] + [b[n]];
      MultisetCancel(multiset(a[..n]), multiset(b[..n]), a[n]);
      AscendingPermutationsEqual(a[..n], b[..n]);
    }
  }

  /**
   * Any two arrangements of the same items sorted by length have the same
   * lengths position by position: sorting a sorted list again, or sorting any
   * reordering of it, gives the same length order.
   */
  lemma SortedPermutationsHaveEqualLengths<T>(s: seq<seq<T>>, t: seq<seq<T>>)
    requires SortedByLength(s) && SortedByLength(t)
    requires multiset(s) == multiset(t)
    ensures Lengths(s) == Lengths(t)
  {
    LengthsPermutation(s, t);
    AscendingPermutationsEqual(Lengths(s), Lengths(t));
  }

  /**
   * When items of equal length are equal, there is only one arrangement sorted
   * by length: every sorted reordering of a sorted list is that list.
   */
  lemma SortedPermutationUnique<T>(s: seq<seq<T>>, t: seq<seq<T>>)
    requires SortedByLength(s) && SortedByLength(t)
    requires multiset(s) == multiset(t)
    requires forall p, q :: 0 <= p < |s| && 0 <= q < |s| && |s[p]| == |s[q]| ==> s[p] == s[q]
    ensures t == s
  {
    SortedPermutationsHaveEqualLengths(s, t);
    assert |s| == |t|;
    forall k | 0 <= k < |t| ensures t[k] == s[k] {
      assert t[k] in multiset(s);
      var j :| 0 <= j < |s| && s[j] == t[k];
      assert Lengths(s)[k] == Lengths(t)[k];
    }
  }

  /** A list already in strictly increasing length order is the only sorted arrangement of its items. */
  lemma StrictlyIncreasingIsSortFixpoint<T>(s: seq<seq<T>>, t: seq<seq<T>>)
    requires forall p, q :: 0 <= p < q < |s| ==> |s[p]| < |s[q]|
    requires SortedByLength(t)
    requires multiset(s) == multiset(t)
    ensures t == s
  {
    forall p, q | 0 <= p < |s| && 0 <= q < |s| && |s[p]| == |s[q]| ensures s[p] == s[q] {
      assert p == q;
    }
    SortedPermutationUnique(s, t);
  }
}
