# Flash card study tool — verified model

The tool keeps question/answer flash cards of two kinds, Vocabulary and Math,
quizzes the user on them, counts attempts, and keeps the cards in a CSV file.
This project models its core in Dafny:

- `Text` (text.dfy): Python's `str.strip()` and `str.lower()` over ASCII, with
  the exact characterisation of stripping (`StripExact`), the fact that padding
  with whitespace does not change the result, and the fact that lower-casing
  commutes with stripping.
- `FlashCards` (flashcards.dfy): the `Card` datatype and the answer checks. A
  vocabulary card accepts an answer when both sides are equal once stripped and
  lower-cased. A math card accepts when the parsed answer equals the evaluated
  stored expression, and rejects on any failure.
- `Progress` (progress.dfy): the `ProgressTracker` class with its two counters.
  It keeps the invariant `correctAttempts <= totalAttempts`. Its progress report
  divides only when there has been at least one attempt.
- `Store` (store.dfy): the row ↔ card conversion inside loading and saving. It
  has the filter-and-map the loader applies to rows, the row the saver writes
  per card, the loops of both, and the round trips between them.
- `Wrappers` (wrappers.dfy): an `Option` datatype.

`VocabularyFlashCard.check_answer` strips, then lower-cases (`strip().lower()`).
The model follows the code. `LowerStripCommute` shows that lower-casing before
stripping gives the same result on the ASCII model.

## Model

| member | source | states |
|---|---|---|
| `Text.LowerChar` | flashcards.py:49 | one character of `lower()`: A-Z move up by 32 to a-z, everything else is kept; the result is never upper case and is whitespace exactly when the input is |
| `Text.Lower` | flashcards.py:49 | `lower()` keeps the length and folds each character on its own |
| `Text.StripLeftSpec` | flashcards.py:49 | the left half of `strip()` keeps a suffix, drops only whitespace, and leaves no leading whitespace |
| `Text.StripRightSpec` | flashcards.py:49 | the right half of `strip()` keeps a prefix, drops only whitespace, and leaves no trailing whitespace |
| `Text.Strip` | flashcards.py:49 | `strip()` never lengthens a string and leaves whitespace at neither end |
| `Text.StripExact` | flashcards.py:49 | if `s[..i]` and `s[j..]` are all whitespace and `s[i..j]` is empty or starts and ends with a non-whitespace character, then `strip(s) == s[i..j]` |
| `Text.StripPadded` | flashcards.py:49 | adding whitespace before and after a string does not change its stripped form |
| `Text.LowerEqualIff` | flashcards.py:49 | two strings lower-case to the same string iff they differ only in the case of ASCII letters |
| `Text.LowerStripCommute` | flashcards.py:49 | lower-casing then stripping equals stripping then lower-casing |
| `FlashCards.Normalize` | flashcards.py:49 | the normalised form of an answer has no surrounding whitespace and no upper-case letter |
| `FlashCards.VocabularyAccepts` | flashcards.py:45-49 | the vocabulary check accepts an answer iff the stripped answer and the stripped stored answer are equal ignoring case |
| `FlashCards.CheckAnswer` | flashcards.py:28-68 | each card kind judges with its own rule: a vocabulary card accepts iff the stripped answers are equal ignoring case; a math card accepts iff the answer parses, the stored expression evaluates, and the two values are equal |
| `FlashCards.AcceptsOwnAnswer` | flashcards.py:45-49 | a vocabulary card accepts its own stored answer |
| `FlashCards.VocabularyAcceptsSymmetric` | flashcards.py:49 | swapping the stored answer and the user answer gives the same verdict |
| `FlashCards.VocabularyIgnoresPadding` | flashcards.py:49 | whitespace added around the user answer does not change the verdict |
| `FlashCards.VocabularyIgnoresCase` | flashcards.py:49 | changing the case of letters in the user answer does not change the verdict |
| `FlashCards.ParisExample` | flashcards.py:49 | a card whose answer is "Paris" accepts " paris " |
| `FlashCards.MathAccepts` | flashcards.py:61-68 | a math answer is accepted when the parsed answer equals the evaluated expression; any failure of the parse or the evaluation gives false |
| `Progress.ProgressTracker.constructor` | flashcards.py:75-80 | a new tracker has zero total and zero correct attempts and satisfies the invariant |
| `Progress.ProgressTracker.RecordAttempt` | flashcards.py:82-88 | total grows by exactly 1; correct grows by 1 iff the attempt was correct and is unchanged otherwise; `correct <= total` is preserved |
| `Progress.ProgressTracker.DisplayProgress` | flashcards.py:90-98 | reports no progress iff total is 0; otherwise reports both counters and accuracy with `accuracy * total == 100 * correct`, between 0 and 100 |
| `Progress.ExampleSession` | flashcards.py:71-98 | after three attempts with two correct, the report is 2/3 with accuracy 200/3 percent |
| `Store.RowCard` | flashcards.py:109-113 | a row gives a card iff it has exactly 3 fields and its first field is "Vocabulary" or "Math"; the card's question is field 1, its answer is field 2, and its kind is chosen by field 0 |
| `Store.CardRow` | flashcards.py:125-126 | the saved row of a card has 3 fields and loads back as that card |
| `Store.RowsToCards` | flashcards.py:104-113 | loading never produces more cards than there are rows |
| `Store.CardsToRows` | flashcards.py:124-126 | saving writes one row per card, in card order, each the card's own row |
| `Store.KeptRows` | flashcards.py:108-113 | a row is kept iff it is an input row that stands for a card; every kept row stands for a card |
| `Store.KeptRowsAppend` | flashcards.py:108-113 | kept rows keep their order: the rows kept from `a + b` are those kept from `a` followed by those kept from `b` |
| `Store.RowsToCardsAppend` | flashcards.py:108-113 | loading keeps row order: the cards of `a + b` are the cards of `a` followed by those of `b` |
| `Store.RowsToCardsMember` | flashcards.py:108-113 | a card is loaded iff some row of the input stands for it |
| `Store.RowsToCardsKeepsAll` | flashcards.py:108-113 | loading drops no row iff every row has 3 fields and a known kind |
| `Store.LoadAfterSave` | flashcards.py:108-126 | saving cards and loading the rows back yields the same cards in the same order |
| `Store.SaveAfterLoad` | flashcards.py:108-126 | loading rows and saving the cards writes back exactly the rows loading kept, unchanged |
| `Store.SaveIsStable` | flashcards.py:118-126 | saving what was saved and loaded back writes the same rows again |
| `Store.LoadCards` | flashcards.py:104-116 | the loader's loop over the rows produces exactly `RowsToCards(rows)` |
| `Store.SaveCards` | flashcards.py:122-126 | the saver's loop over the cards produces exactly `CardsToRows(cards)` |

## Left out

- File handling in `load_flashcards_from_csv` and `save_flashcards_to_csv`: opening the file, the `csv` module's quoting and escaping, and the "not found" message (flashcards.py:105-106, 114-115, 122-123). These are I/O through a library outside the model. Rows enter and leave as sequences of fields.
- `import_flashcards_from_api` (flashcards.py:128-143): an HTTP request, JSON decoding and `html.unescape`, all foreign calls.
- FlashCards.MathAccepts: the number parsing and the expression evaluation (`float` and `eval`) are caller-supplied functions that return `None` on failure. Floating-point equality and what `eval` can execute are not modelled.
- Progress.ProgressTracker.DisplayProgress: the accuracy is an exact `real`, not a Python float. The two-decimal formatting and the printed text are not modelled.
- The `display` methods of both card kinds (flashcards.py:39-43, 55-59): output only.
- `main` (flashcards.py:146-220): the interactive menu loop built on `input` and `print`.
- Unicode: `Text.Strip` and `Text.Lower` cover ASCII only. Whitespace is the ASCII characters Python's `str.isspace()` accepts, and only A-Z are lower-cased. Non-ASCII whitespace and non-ASCII case folding are not modelled.
- Card kinds: the source saves any card that is not a vocabulary card as "Math". The model has exactly two card kinds, so that branch covers math cards only.
