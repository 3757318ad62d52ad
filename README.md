# Dollar words, verified

A Dafny model of `dollarwords.py`, a small program that finds the "dollar
words" in a word list. Each lower-case letter is worth its place in the
alphabet (a = 1 ... z = 26); every other character (upper case, space,
punctuation) is worth 0. A word whose characters add up to exactly 100 is a
dollar word. The program keeps the dollar words in input order and then sorts
them by length, shortest first.

The model has two files:

- `dollarwords.dfy`, module `DollarWords`: the letter-value table, the
  recursive word value `Value`, the specification function `DollarWordsOf`
  (the dollar words of a list in order), the method `GetDollarWords` (the
  program's nested scoring loop with its early `break`), and the method
  `SortByLength` (an in-place insertion sort of an array by item length),
  with the lemmas about them.
- `examples_from_tests.dfy`, module `DollarWordsExamples`: the scenarios of
  the program's test functions, stated as lemmas about the model.

`GetDollarWords` is proved equal to `DollarWordsOf`. The early `break` once
the running value passes 100 therefore does not change the result. The proof
rests on `OverDollarPrefixIsFinal`: letter values are never negative, so a
prefix worth more than 100 means the whole word is worth more than 100.
`SortByLength` is proved to leave the array ordered by non-decreasing length
and to hold the same multiset of items as before. The `SortedPermutation...`
lemmas then show what that implies: sorting twice gives the same length
order as sorting once, and a list already in strictly increasing length
order comes back unchanged.

## Model

| member | source | states |
|---|---|---|
| `DollarWords.LetterValuesAreZip` | dollarwords.py:118-119 | the table maps the i-th letter of the lower-case alphabet to i + 1, and has no other keys |
| `DollarWords.LetterValue` | dollarwords.py:125 | a character is worth at most 26; it is worth more than 0 exactly when it is a lower-case letter, and then it is worth its distance from 'a' plus one |
| `DollarWords.Value` | dollarwords.py:123-125 | a word (the sum of its characters' values) is worth at most 26 per character |
| `DollarWords.ValueConcat` | dollarwords.py:123-125 | the value of a concatenation is the sum of the values of the parts |
| `DollarWords.ValuePrefixBound` | dollarwords.py:124-125 | no prefix of a word is worth more than the word: the running total never decreases |
| `DollarWords.OverDollarPrefixIsFinal` | dollarwords.py:126-128 | once a prefix is worth more than 100, the word is worth more than 100 and is not a dollar word, so breaking off the scan there loses nothing |
| `DollarWords.ValueZeroIffNoLowercase` | dollarwords.py:9-10 | a word is worth 0 exactly when it has no lower-case letter (so the empty word and words of spaces, punctuation or upper case are worth 0) |
| `DollarWords.Repeat` | dollarwords.py:158-159 | Python's replication `s * n` of a list or string, for n >= 0, has n times as many items as s |
| `DollarWords.RepeatAt` | dollarwords.py:158-159 | item j of copy i of `s * n` is s[j]: the replication is n copies of s, one after another |
| `DollarWords.ValueRepeat` | dollarwords.py:147 | a character repeated n times is worth n times that character |
| `DollarWords.DollarWordsOf` | dollarwords.py:112-130 | the filter keeps at most as many words as it is given, and every word it keeps is worth exactly 100 |
| `DollarWords.DollarPositions` | dollarwords.py:121-130 | an independent description of the filter: the strictly increasing list of the input positions whose word is worth 100, containing a position exactly when its word is worth 100 |
| `DollarWords.DollarWordsAtPositions` | dollarwords.py:121-130 | the filter's output is the input read at exactly those positions, in order: the order-preserving subsequence of the dollar words |
| `DollarWords.DollarWordsCount` | dollarwords.py:17 | each dollar word is kept as often as it occurs in the input; any other word never appears |
| `DollarWords.DollarWordsConcat` | dollarwords.py:154-156 | filtering a concatenation gives the concatenation of the filtered parts |
| `DollarWords.DollarWordsRepeat` | dollarwords.py:158-159 | filtering a list replicated n times gives its dollar words replicated n times |
| `DollarWords.DollarWordsEmptyIff` | dollarwords.py:149-152 | the output is empty exactly when no input word is worth 100 |
| `DollarWords.DollarWordsIdentityIff` | dollarwords.py:153 | the output is the whole input exactly when every input word is worth 100 |
| `DollarWords.Characters` | dollarwords.py:161 | iterating a string yields one word per character, and each word is one character long |
| `DollarWords.CharactersJoin` | dollarwords.py:161 | joining those one-character words (`''.join`) gives the string back, so they are its characters in order |
| `DollarWords.CharactersNeverDollar` | dollarwords.py:161 | a string iterated character by character (one-letter words) yields no dollar word |
| `DollarWords.GetDollarWords` | dollarwords.py:112-130 | the nested loop, with its early exit once the running value passes 100, returns exactly the dollar words of the input, in order |
| `DollarWords.SortByLength` | dollarwords.py:133-140 | the array is sorted in place by non-decreasing item length, holds the same multiset of items as before, and is itself the result |
| `DollarWords.LengthsPermutation` | dollarwords.py:139 | reordering a list does not change the multiset of its item lengths |
| `DollarWords.AscendingPermutationsEqual` | dollarwords.py:139 | two ascending number sequences that are reorderings of each other are equal |
| `DollarWords.SortedPermutationsHaveEqualLengths` | dollarwords.py:176-179 | any two length-sorted arrangements of the same items have the same lengths position by position, so sorting twice gives the same length order as sorting once |
| `DollarWords.SortedPermutationUnique` | dollarwords.py:176-179 | when items of equal length are equal, the length-sorted arrangement of a list is unique |
| `DollarWords.StrictlyIncreasingIsSortFixpoint` | dollarwords.py:176 | a list in strictly increasing length order is the only length-sorted arrangement of its items |
| `DollarWordsExamples.DollarsAreDollarWords` | dollarwords.py:146-147 | 'yyyy', 'yyyax', 'yyy !y', 'b' * 50 and 'a' * 100 are each worth 100 |
| `DollarWordsExamples.ChangeHasNoDollarWord` | dollarwords.py:145 | no word of the list '', '  ', 'some', 'words', ..., 'dollar' is worth 100 |
| `DollarWordsExamples.FilterDollars` | dollarwords.py:153 | filtering the dollar list returns all of it |
| `DollarWordsExamples.FilterChange` | dollarwords.py:149-152 | filtering the empty list or the list without dollar words returns nothing |
| `DollarWordsExamples.FilterConcatenations` | dollarwords.py:154-156 | dollar + change filters to dollar; dollar + change + dollar filters to dollar + dollar |
| `DollarWordsExamples.FilterReplications` | dollarwords.py:158-159 | change * n filters to nothing; dollar * n filters to dollar * n, for every n |
| `DollarWordsExamples.FilterCharactersOfMoney` | dollarwords.py:161 | 'money' * n iterated as a string of one-character words filters to nothing |
| `DollarWordsExamples.ChainZip3Length` | dollarwords.py:155 | `chain.from_iterable(zip(a, b, c))` stops at the shortest of the three lists and holds three items per position of that list |
| `DollarWordsExamples.ChainZip3At` | dollarwords.py:155 | item k of that interleaving is item k / 3 of a, b or c, chosen by k % 3 |
| `DollarWordsExamples.FilterInterleaved` | dollarwords.py:155 | interleaving a list with two lists that hold no dollar word (and are at least as long) keeps exactly the first list's dollar words, in order |
| `DollarWordsExamples.FilterDollarsInterleavedWithChange` | dollarwords.py:155 | chain.from_iterable(zip(dollar, change, change)) filters to dollar |
| `DollarWordsExamples.SortedDollarsLengths` | dollarwords.py:147 | every length-sorted arrangement of the dollar list has lengths 4, 4, 5, 6, 50, 100 |
| `DollarWordsExamples.Reversed` | dollarwords.py:169 | `list(reversed(s))` has as many items as s |
| `DollarWordsExamples.ReversedAt` | dollarwords.py:169 | item k of the reversal is item k of s counted from the end |
| `DollarWordsExamples.ReversedReversed` | dollarwords.py:169 | reversing twice gives the list back |
| `DollarWordsExamples.ReversedMultiset` | dollarwords.py:169 | a reversed list holds the same items |
| `DollarWordsExamples.Twice` | dollarwords.py:171 | `list(chain.from_iterable(zip(s, s)))` has twice as many items as s |
| `DollarWordsExamples.TwiceAt` | dollarwords.py:171 | item k of a list with each item doubled in place is item k / 2 of the list |
| `DollarWordsExamples.TwiceMultiset` | dollarwords.py:171 | doubling each item in place holds the same items as the list appended to itself |
| `DollarWordsExamples.TwiceSorted` | dollarwords.py:171 | a length-sorted list stays length-sorted when each item is doubled in place |
| `DollarWordsExamples.SortOrderedAndTurned` | dollarwords.py:176-177 | sorting the ordered list, or its reversal, gives the ordered list |
| `DollarWordsExamples.SortOfSelfConcat` | dollarwords.py:178-179 | when items of equal length are equal, sorting a sorted list appended to itself or to its reversal gives each item twice in a row |
| `DollarWordsExamples.SortDoubled` | dollarwords.py:178-179 | sorted + sorted and sorted + turned both sort to each item of the ordered list twice in a row |

The test at dollarwords.py:173 (sorting an empty list gives an empty list)
follows from the contract of `SortByLength`: the array keeps its multiset of
items, so an empty array stays empty.

## Left out

- The `__main__` driver (dollarwords.py:182-186): it reads `american-words.80`, strips each line and prints the sorted words. File I/O and printing are not modelled. The model scores raw strings and does not strip them, as the source's comments at dollarwords.py:103-105 and 122 intend.
- The test functions as running code (dollarwords.py:143-179): they appear only as the lemmas of `DollarWordsExamples`. The 100000-fold replications are covered for every n by `FilterReplications`.
- The tuple item `(1, 2, 3)` in the sort tests (dollarwords.py:167), and the TypeError for items without a length: items are Dafny sequences and their length is `|x|`. `SortByLength` is generic in the element type, but one list cannot mix strings and tuples, so the sort examples use the test's string items only.
- Python's Timsort and its stability: `SortByLength` is an insertion sort. Only the order by length and the multiset of items are specified; the order of items of equal length is not (dollarwords.py:18).
- The timing notes and the alternative `ord` and `index` letter lookups in the module docstring (dollarwords.py:38-82) are commentary, not behaviour. The model's table is defined by that `ord` formula (a letter's distance from 'a' plus one). `LetterValuesAreZip` proves that this table is the source's dictionary `dict(zip(string.lowercase, range(1, 27)))`.
- Unicode and Python 2's locale-dependent `string.lowercase`: the alphabet is the 26 letters 'a' to 'z', and every other character is worth 0.
- Python's generic iterable input (a list, a tuple or a string): `GetDollarWords` takes a sequence of strings. A string passed as input is modelled by first turning it into its list of one-character words with `Characters`.
