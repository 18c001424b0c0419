# Tweet text cleaning, modelled in Dafny

The cleaning script of this repository reads a table of tweets, adds a
`cleaned_text` column computed by `clean_tweet_text`, drops the rows whose
cleaned text is empty and reports how many it dropped. This project models
that step.

`clean_tweet_text` runs five stages in order. The model has one function
for each stage:

1. `Normaliser.Lowercase` lower-cases the text (`text.lower()`).
2. `Normaliser.StripUrls` deletes URLs: at each position where `http`,
   `www` or `https` is followed by at least one non-whitespace character,
   the whole run of non-whitespace characters there is deleted. This is the
   greedy `\S+` of the pattern.
3. `Normaliser.StripTags` deletes mentions and hashtags: an `@` or `#`
   followed by at least one word character is deleted together with the
   whole run of word characters after it.
4. `Normaliser.StripPunctuationAndDigits` deletes every character of
   Python's `string.punctuation + string.digits`.
5. `Whitespace.CollapseWhitespace` turns every run of whitespace into one
   space and strips both ends. `Whitespace.CollapseIsJoinOfWords` proves
   it equal to `' '.join(text.split())`.

`Normaliser.CleanTweetText` composes the five stages. Regular-expression
substitution is modelled as a left-to-right scan: where a match starts,
the matched text is deleted and the scan resumes after it; elsewhere the
character is kept. Whitespace is Python's `str.isspace()` set, which is
what both `\s` and `str.strip()` use.

The row filter is in module `RowFilter`:

- A row is a `Tweet` with the six columns the acquisition script writes.
- `AddCleanedText` adds the column.
- `KeepNonEmpty` keeps the rows with a non-empty cleaned text, in order.
- `CleanFrame` is the part of `main` that adds the column, counts rows,
  filters and computes `removed_count`.
- `RowFilterVectors` holds a worked two-row frame.

Cleaning is not idempotent, and its output can hold a URL match: stage 4
can join two pieces into `http…` after stage 2 has run.
`NormaliserVectors.NotIdempotent` proves that `ht.tpx` cleans to `httpx`,
and that `httpx` cleans to the empty string. Its output never holds a
mention or hashtag match, since stage 4 deletes every `@` and `#`. The
model proves that the output has no upper case, no punctuation or digits,
no tag match, whitespace in normal form, a length no greater than the
input's, and non-whitespace characters that are an order-preserving
subsequence of those of the lowered input. It also proves that the fixed
points of the normaliser are exactly the texts that are already
normalised.

## Model

| member | source | states |
|---|---|---|
| CharClasses.ToLower | src/data_cleaning.py:19 | on one character, upper-case ASCII letters move to the matching lower-case letter (code point plus 32) and every other character is unchanged |
| CharClasses.DeletionSetIsPythonConstants | src/data_cleaning.py:28 | the character ranges the model deletes in stage 4 are exactly the characters of `string.punctuation + string.digits`, both directions |
| Normaliser.Lowercase | src/data_cleaning.py:19 | the lowered text has the same length and no upper-case letter; each upper-case letter becomes its lower-case form and every other character stays in place |
| Normaliser.LowercaseIdentity | src/data_cleaning.py:19 | text without upper-case letters is unchanged by lowering |
| Normaliser.StripUrls | src/data_cleaning.py:22 | URL deletion only deletes: the result is an order-preserving subsequence of the input and no longer |
| Whitespace.LeadingToken | src/data_cleaning.py:22 | the greedy `\S+` run at the start of the text: a prefix with no whitespace, followed by whitespace or the end, and non-empty when the text starts with a non-whitespace character |
| Normaliser.StripUrlsLeavesNoMatch | src/data_cleaning.py:22 | after URL deletion no position of the text starts a match of `http\S+`, `www\S+` or `https\S+` |
| Normaliser.StripUrlsIdentity | src/data_cleaning.py:22 | text with no URL match is left unchanged |
| Normaliser.StripUrlsShortens | src/data_cleaning.py:22 | text with a URL match somewhere gets strictly shorter, so with `StripUrlsIdentity` the text is unchanged if and only if it has no match |
| Normaliser.StripUrlsKeepsPrefix | src/data_cleaning.py:22 | every character before the leftmost match is kept, and the rest of the text is processed as if it stood alone |
| Normaliser.StripUrlsLeftmost | src/data_cleaning.py:22 | at the leftmost match, the text before it is kept, the whole greedy non-whitespace run at the match is deleted and the scan goes on after that run; with `StripUrlsIdentity` this fixes the result of every input |
| Normaliser.StripUrlsAppend | src/data_cleaning.py:22 | a match never crosses whitespace: when the first part ends in whitespace, deleting URLs from a concatenation is deleting them from each part |
| Normaliser.StripUrlsAfterSpace | src/data_cleaning.py:22 | text starting with whitespace still starts with whitespace (or is empty) after URL deletion, so a deletion never glues two words |
| Normaliser.StripUrlsLeadingToken | src/data_cleaning.py:22 | URL deletion never lengthens the first word; what is left of it is a prefix of the original first word |
| Normaliser.WordRunLength | src/data_cleaning.py:25 | the length of the greedy `\w+` run: every character before it is a word character and the next one is not |
| Normaliser.StripTags | src/data_cleaning.py:25 | mention and hashtag deletion only deletes: the result is an order-preserving subsequence of the input and no longer |
| Normaliser.StripTagsLeavesNoMatch | src/data_cleaning.py:25 | after deletion no position starts `@` or `#` followed by a word character |
| Normaliser.StripTagsStart | src/data_cleaning.py:25 | text that does not start with a word character still does not after deletion, so removing a tag never makes an earlier sigil match |
| Normaliser.StripTagsIdentity | src/data_cleaning.py:25 | text with no mention or hashtag match is left unchanged |
| Normaliser.StripTagsShortens | src/data_cleaning.py:25 | text with a match somewhere gets strictly shorter, so the text is unchanged if and only if it has no match |
| Normaliser.StripTagsKeepsPrefix | src/data_cleaning.py:25 | every character before the leftmost match is kept, and the rest of the text is processed as if it stood alone |
| Normaliser.StripTagsLeftmost | src/data_cleaning.py:25 | at the leftmost match, the text before it is kept, the sigil and its whole word run are deleted and the scan goes on after the run; with `StripTagsIdentity` this fixes the result of every input |
| Normaliser.StripTagsAppend | src/data_cleaning.py:25 | when the first part ends in whitespace, deleting tags from a concatenation is deleting them from each part |
| Normaliser.WordRunAppend | src/data_cleaning.py:25 | a `\w+` run stops at whitespace, so text after the whitespace does not change its length |
| Normaliser.StripPunctuationAndDigits | src/data_cleaning.py:28 | the result is an order-preserving subsequence with no punctuation or digit, and every other character occurs exactly as often as in the input: exactly the set is deleted |
| Normaliser.StripPunctuationAndDigitsIdentity | src/data_cleaning.py:28 | text without punctuation or digits is unchanged |
| Normaliser.StripPunctuationAndDigitsAppend | src/data_cleaning.py:28 | the translation works character by character: it distributes over concatenation |
| Whitespace.TrimStart | src/data_cleaning.py:31 | `str.lstrip()`: the result is a suffix of the input that is empty or does not start with whitespace |
| Whitespace.TrimStartRemovesSpace | src/data_cleaning.py:31 | everything `lstrip` removes before the suffix it keeps is whitespace |
| Whitespace.TrimEnd | src/data_cleaning.py:31 | `str.rstrip()`: the result is a prefix of the input that is empty or does not end with whitespace |
| Whitespace.TrimEndRemovesSpace | src/data_cleaning.py:31 | everything `rstrip` removes after the prefix it keeps is whitespace |
| Whitespace.Strip | src/data_cleaning.py:31 | `str.strip()`: the result is no longer than the input, holds only characters of the input and has no leading or trailing whitespace |
| Whitespace.StripIsInnerSlice | src/data_cleaning.py:31 | `str.strip()` keeps the slice of the input between a leading and a trailing run of whitespace, unchanged, and removes only those two runs |
| Whitespace.ReplaceSpaceRuns | src/data_cleaning.py:31 | `re.sub(r'\s+', ' ', text)`: the result is no longer than the input, and starts with a space exactly when the input starts with whitespace, otherwise with the input's first character |
| Whitespace.ReplaceSpaceRunsNormal | src/data_cleaning.py:31 | after run replacement no two whitespace characters are adjacent and every whitespace character is a plain space: no run became more than one character |
| Whitespace.ReplaceSpaceRunsGap | src/data_cleaning.py:31 | a whitespace run, preceded by text without whitespace and followed by a non-whitespace character or the end, becomes exactly one `' '`; the text before it is kept |
| Whitespace.ReplaceSpaceRunsAfterToken | src/data_cleaning.py:31 | text without whitespace at the front is kept as it is by run replacement |
| Whitespace.ReplaceSpaceRunsEnd | src/data_cleaning.py:31 | the replaced text ends with a space exactly when the input ends with whitespace |
| Whitespace.NonSpaceReplaceSpaceRuns | src/data_cleaning.py:31 | run replacement keeps exactly the non-whitespace characters, in order |
| Whitespace.CollapseWhitespace | src/data_cleaning.py:31 | the result is in whitespace normal form: no leading or trailing whitespace, no two whitespace characters in a row, and only plain spaces; its non-whitespace characters are exactly those of the input, in order |
| Whitespace.NonSpaceCollapse | src/data_cleaning.py:31 | replacing whitespace runs and stripping keeps exactly the non-whitespace characters, in order |
| Whitespace.NonSpaceTrim | src/data_cleaning.py:31 | `lstrip` and `rstrip` keep exactly the non-whitespace characters |
| Whitespace.NonSpaceSubsequence | src/data_cleaning.py:22-28 | deleting characters, as stages 2 to 4 do, deletes from the non-whitespace content and keeps its order |
| Whitespace.Words | src/data_cleaning.py:31 | reference for line 31, which does not itself call `split()`: `str.split()` with no argument; every word is non-empty and holds no whitespace |
| Whitespace.JoinWordsCollapsed | src/data_cleaning.py:31 | joining words with single spaces gives text in whitespace normal form, starting with the first word's first character |
| Whitespace.CollapseIsJoinOfWords | src/data_cleaning.py:31 | stage 5 equals `' '.join(text.split())` for every input |
| Whitespace.WordsOfJoin | src/data_cleaning.py:31 | splitting words joined by single spaces gives the same words back |
| Whitespace.CollapseIdempotent | src/data_cleaning.py:31 | collapsing whitespace twice is the same as once |
| Whitespace.ReplaceSpaceRunsIdentity | src/data_cleaning.py:31 | text with no whitespace pair and only plain spaces is unchanged by replacing whitespace runs |
| Whitespace.CollapseFixedPoint | src/data_cleaning.py:31 | text is unchanged by stage 5 if and only if it is already in whitespace normal form |
| Normaliser.CleanTweetText | src/data_cleaning.py:14-33 | the cleaned text is no longer than the input and has no upper case, no punctuation, no digits, no mention or hashtag match, and whitespace in normal form; its non-whitespace characters are an order-preserving subsequence of those of the lowered input |
| Normaliser.CleanFixedPoints | src/data_cleaning.py:14-33 | cleaning leaves text unchanged if and only if it has no upper case, no URL match, no tag match, no punctuation or digit, and whitespace in normal form |
| Normaliser.CleanOfNoiseIsEmpty | src/data_cleaning.py:14-33 | text made only of whitespace, punctuation and digits cleans to the empty string |
| Normaliser.NoUrlMatchWithoutPOrW | src/data_cleaning.py:22 | text containing neither `p` nor `w` has no URL match |
| Normaliser.NoTagMatchWithoutSigil | src/data_cleaning.py:25 | text containing neither `@` nor `#` has no tag match |
| NormaliserVectors.MixedTweet | src/data_cleaning.py:14-33 | `Check this out! http://x.co #AI @bob 123` cleans to `check this out` |
| NormaliserVectors.LoweredMixedTweet | src/data_cleaning.py:22 | in the lowered example, stage 2 removes exactly the URL and keeps the spaces around it |
| NormaliserVectors.UrlFreeMixedTweet | src/data_cleaning.py:25 | in the example after stage 2, stage 3 removes `#ai` and `@bob` and keeps the spaces after them |
| NormaliserVectors.TagFreeMixedTweet | src/data_cleaning.py:28 | in the example after stage 3, stage 4 removes `!` and `123` |
| NormaliserVectors.UrlBetweenSpaces | src/data_cleaning.py:22 | a URL word between whitespace is deleted on its own, leaving the text on both sides |
| NormaliserVectors.TwoTagsBetweenSpaces | src/data_cleaning.py:25 | two tag words, each followed by a space, are deleted and leave only their trailing spaces |
| NormaliserVectors.NoiseBetween | src/data_cleaning.py:28 | runs of punctuation and digits between clean pieces are deleted and the pieces are kept |
| NormaliserVectors.PaddedCollapse | src/data_cleaning.py:31 | three words separated by single spaces and followed by whitespace collapse to the three words alone |
| NormaliserVectors.BareHttp | src/data_cleaning.py:14-33 | `http` alone is not a URL match (`\S+` needs one more character) and cleans to itself |
| NormaliserVectors.EmptyText | src/data_cleaning.py:14-33 | the empty text cleans to the empty string |
| NormaliserVectors.WhitespaceOnly | src/data_cleaning.py:14-33 | a text of spaces, a tab and a newline cleans to the empty string |
| NormaliserVectors.PunctuationOnly | src/data_cleaning.py:14-33 | `!!! ... ???` cleans to the empty string |
| NormaliserVectors.NotIdempotent | src/data_cleaning.py:14-33 | `ht.tpx` cleans to `httpx`, which holds a URL match and cleans to the empty string: cleaning is not idempotent |
| NormaliserVectors.FirstStagesIdentity | src/data_cleaning.py:19-25 | text with no upper case, no URL match and no tag match passes the first three stages unchanged |
| RowFilter.AddCleanedText | src/data_cleaning.py:59 | the new frame has one row per input row, in order; each keeps its columns and gets the cleaned form of its own text |
| RowFilter.ColumnsOfAddCleanedText | src/data_cleaning.py:59 | dropping the new column gives back the table that was read |
| RowFilter.KeepNonEmpty | src/data_cleaning.py:64 | the kept rows are an order-preserving subsequence of the frame, all with non-empty cleaned text, and their number is the frame's size minus the number of empty rows |
| RowFilter.KeepNonEmptyMembers | src/data_cleaning.py:64 | a row is kept if and only if it is in the frame and its cleaned text is non-empty |
| RowFilter.KeepNonEmptyIdentity | src/data_cleaning.py:64 | a frame with no empty cleaned text passes the filter unchanged |
| RowFilter.KeepNonEmptyIdempotent | src/data_cleaning.py:64 | filtering twice keeps the same rows as filtering once |
| RowFilter.KeepNonEmptyAppend | src/data_cleaning.py:64 | the filter and the count of empty rows distribute over concatenation of frames |
| RowFilter.RowKeptIff | src/data_cleaning.py:59-64 | a row of the raw table reaches the output if and only if its text does not clean to the empty string |
| RowFilter.CleanedTextOfKept | src/data_cleaning.py:59-64 | every kept row carries the cleaned form of its own text |
| RowFilter.CleanFrame | src/data_cleaning.py:59-65 | the output frame is the filter applied to the frame with the new column: an order-preserving subsequence of the frame with the new column, every row has non-empty cleaned text equal to the cleaning of its text, and `removed_count` is the number of rows dropped, equal to the number of rows whose text cleans to empty |
| RowFilterVectors.TwoRowExample | src/data_cleaning.py:59-65 | of a tweet `http` and a tweet `!!! ... ???`, only the first is kept (cleaned text `http`) and one row is counted as removed |

The `Tweet` datatype has the columns of the records built at
src/data_acquisition.py:77-84: `id`, `author_id`, `created_at`, `text`,
`retweets` and `likes`.

## Left out

- Downloading the NLTK data sets and importing the unused stop-word list and lemmatizer (src/data_cleaning.py:4-6, 11-12): they do not affect the output.
- Paths, reading the CSV file, writing the cleaned CSV file and every message printed (src/data_cleaning.py:39-58, 66, 70-78): these are I/O. The rows read are the input of `CleanFrame` and the frame it returns is what would be written.
- The error path when the input file cannot be read (src/data_cleaning.py:52-54): it only prints and returns, and reading is not modelled.
- The acquisition script (src/data_acquisition.py): it calls the external search API and writes files. Only the shape of its records is used, as the `Tweet` datatype.
- Normaliser.Lowercase: models `str.lower()` on ASCII letters only. Other letters keep their case, though Python lower-cases them, and Python's `lower()` can lengthen the text (`'İ'` becomes two characters). So `|r| == |s|` here, and the length bound of `CleanTweetText`, hold of this ASCII model only.
- Normaliser.WordRunLength: the word class `\w` is `[A-Za-z0-9_]`. Python's `\w` on `str` also matches other Unicode letters and digits.
- Empty or missing text cells (pandas `NaN`) are not modelled: every row's text is a string. In Python `NaN` would make `text.lower()` raise.
- Pandas updates the frame in place when the column is added and rebinds it when filtering. The model treats the frame as a sequence value, so aliasing of the frame is not captured.
- Normaliser.CleanTweetText: does not promise idempotence, or that its output has no URL match, because neither holds for the code: see `NormaliserVectors.NotIdempotent`.
- Whitespace.TrimStart: the function's own contract does not say that only whitespace is removed. `TrimStartRemovesSpace` proves it for every input, as a lemma, so that proofs that only need the shape of the result do not carry the quantified fact.
- Whitespace.TrimEnd: the function's own contract does not say that only whitespace is removed. `TrimEndRemovesSpace` proves it for every input, as a lemma, for the same reason.
- Whitespace.Strip: the function's own contract does not say that the result is the untouched middle slice of the input. `StripIsInnerSlice` proves it for every input, for the same reason.
- Whitespace.ReplaceSpaceRuns: the function's own contract does not say that every whitespace run becomes one space. `ReplaceSpaceRunsGap` proves it for every run (the text before the run is kept and the run becomes one `' '`), with `ReplaceSpaceRunsAfterToken` for the text between runs; `ReplaceSpaceRunsNormal`, `ReplaceSpaceRunsEnd` and `NonSpaceReplaceSpaceRuns` add the normal form, the last character and the non-whitespace content. They are lemmas for the same reason.
