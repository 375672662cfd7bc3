# Corpus normalizer and word-list writer, modelled in Dafny

Two batch scripts of a linguistic-corpus project.

- `src/tmp.py` is the **corpus normalizer**. For each subject, it reads every file of the subject's
  directory with `readlines()`. It splits each line on the tab character and skips a line that
  has no tab. Otherwise it drops the last character of the last segment (`d[-1] = d[-1][:-1]`),
  which is meant to remove the `"\n"` terminator, and appends the fields to the subject's
  `data` list. Module `CorpusNormalizer` (`corpus_normalizer.dfy`) models this. `ParseLine`,
  `ParseLines` and `ParseListing` are the specification functions. `NormalizeSubject` is the
  nested loop itself, proved equal to `ParseListing`. `NormalizeSubjects` is the loop over
  subjects, and it starts every subject's table empty.
- `src/tmp3.py` is the **word-list writer**. It opens a file for writing and calls `f.write(word)`
  and then `f.write('\n')` for each word. Module `WordList` (`word_list.dfy`) models the file as a
  class `TextFile` that starts empty and only appends. `WriteWordList` is the loop, proved equal
  to the specification function `Serialize`.
- Module `Text` (`text.dfy`) holds the Python string operations the scripts use: `str.split`
  with a one-character separator (`Split`), `s[:-1]` (`DropLast`) and `readlines()`
  (`SplitLines`). It also defines `Join`, which behaves like `sep.join`. Neither script calls
  `join`. The model uses it only to state what `split` undoes, in the round-trip lemmas.

The directory listing is an arbitrary given sequence of file texts in listing order. Nothing
sorts it. A record is a `seq<string>` because the script does not check how many fields a line
has.

Two behaviours of the code depart from the four-column corpus format; the model follows the code:

- A well-formed corpus line has four fields, and `pd.DataFrame(..., columns=['Word', 'POS',
  'Lemma', 'Root'])` (src/tmp.py:28) names four columns. The code still keeps every
  tab-separated segment, so a record has one field per segment (number of tabs + 1, at least
  two).
- The code trims one character from the last segment whether or not it is a `"\n"`. Take a file
  that ends in neither `"\n"` nor a tab. If its last line holds a tab, that line's record drops
  a final character that is not `"\n"`. The model reproduces this (`FinalLineLosesCharacter`,
  `ExampleUnterminatedLastLine`). A last line that ends in a tab loses nothing, because its
  last segment is empty. A last line with no tab gives no record at all. A terminated line is
  stored without loss (`TerminatedLineLossless`).

## Model

| member | source | states |
|---|---|---|
| `CorpusNormalizer.NormalizeSubject` | src/tmp.py:11-26 | the nested loop over files and lines, with `data` starting empty, ends with `data` equal to the records of the whole listing (`ParseListing`) |
| `CorpusNormalizer.NormalizeSubjects` | src/tmp.py:10-26 | one table per subject, in subject order; each is built from an empty `data` and equals that subject's `ParseListing` |
| `CorpusNormalizer.ParseLine` | src/tmp.py:22-25 | a line's record, when there is one, has at least two fields; `ParseLineFilter`, `ParseLineFields` and `ParseLineRoundTrip` say which lines give a record and what it holds |
| `CorpusNormalizer.ParseLines` | src/tmp.py:21-26 | the records of a file's lines, at most one per line; `ParseLinesInOrder`, `ParseLinesPrefix` and `ParseLinesAppend` state their order |
| `CorpusNormalizer.ParseListing` | src/tmp.py:14-26 | a subject's table has at most one record per line of its files; `ParseListingAllLines` and `ParseListingPrefix` relate it to the lines file by file |
| `CorpusNormalizer.ParseLineFilter` | src/tmp.py:22-24 | a line gives no record exactly when it holds no tab; otherwise the record has number-of-tabs + 1 fields |
| `CorpusNormalizer.ParseLineFields` | src/tmp.py:22-25 | every field but the last is the split segment unchanged; the last is the last segment minus one final character (empty stays empty); no field contains a tab |
| `CorpusNormalizer.ParseLineRoundTrip` | src/tmp.py:22-25 | when the last segment is not empty, the record's fields joined by tabs are the line minus its final character |
| `CorpusNormalizer.TerminatedLineLossless` | src/tmp.py:19-25 | a tabbed line ending in `"\n"` is stored without loss: fields joined by tabs, plus `"\n"`, give the line back |
| `CorpusNormalizer.FinalLineLosesCharacter` | src/tmp.py:19-25 | in a file ending in neither `"\n"` nor a tab, a last line that holds a tab gives a record whose fields, joined by tabs, are that line minus a final character that is not `"\n"` |
| `CorpusNormalizer.ParseLinesInOrder` | src/tmp.py:21-26 | records keep line order: those of earlier lines, then line i's record if any, then those of later lines |
| `CorpusNormalizer.ParseLinesPrefix` | src/tmp.py:21-26 | append only: the records of the first i lines are a prefix of the records of all lines |
| `CorpusNormalizer.ParseListingAllLines` | src/tmp.py:14-26 | a subject's table is the parse of all lines taken file by file in listing order, with at most one record per line |
| `CorpusNormalizer.ParseListingPrefix` | src/tmp.py:14-26 | append only across files: the table after the first k files is a prefix of the final table |
| `CorpusNormalizer.ParseLinesAppend` | src/tmp.py:21-26 | parsing two consecutive runs of lines concatenates their records |
| `CorpusNormalizer.ParseFourFields` | src/tmp.py:22-25 | a line of four tab-free fields yields exactly those fields, the last trimmed by one character |
| `CorpusNormalizer.ExampleBlankLineSkipped` | src/tmp.py:21-26 | `"run\tVERB\trun\trun\n"` followed by a blank line gives the single record `run, VERB, run, run` |
| `CorpusNormalizer.ExampleUnterminatedLastLine` | src/tmp.py:25 | the unterminated line `"run\tVERB\trun\troot"` gives `run, VERB, run, roo` |
| `Text.DropLast` | src/tmp.py:25 | `s[:-1]`: the empty string stays empty; otherwise the result is one shorter and, with the dropped character appended, is `s` again |
| `Text.Split` | src/tmp.py:22 | `split('\t')` gives at least one piece; `SplitCount`, `SplitPiecesFree` and `JoinSplit` give the number of pieces, their contents and the text they come from |
| `Text.SplitCount` | src/tmp.py:22 | `split('\t')` gives one piece more than there are tabs |
| `Text.SplitPiecesFree` | src/tmp.py:22 | no piece of a split contains the separator |
| `Text.JoinSplit` | src/tmp.py:22 | joining the pieces of a split with the separator restores the text |
| `Text.SplitJoin` | src/tmp.py:22 | fields that do not contain the separator, once joined by it, split back into the same fields; `SerializeRoundTrip` rests on it |
| `Text.SplitLines` | src/tmp.py:19 | `readlines()` gives no more lines than the text has characters, and no lines exactly when the text is empty; `SplitLinesConcat`, `SplitLinesTerminated`, `SplitLinesInnerFree` and `SplitLinesLastLine` give the lines' contents |
| `Text.SplitLinesConcat` | src/tmp.py:19 | `readlines()` gives non-empty lines whose concatenation is the file text |
| `Text.SplitLinesTerminated` | src/tmp.py:19 | every line but the last ends in `"\n"` |
| `Text.SplitLinesInnerFree` | src/tmp.py:19 | `"\n"` occurs in a line only as its final character |
| `Text.SplitLinesLastLine` | src/tmp.py:19 | the last line ends with the text's last character, so it is terminated exactly when the file is |
| `WordList.WriteWordList` | src/tmp3.py:7-10 | the write loop over a freshly truncated file leaves exactly `Serialize(words)` in it |
| `WordList.TextFile.Create` | src/tmp3.py:7 | opening with mode `'w'` gives an empty file |
| `WordList.TextFile.Write` | src/tmp3.py:9-10 | `write` appends its argument and changes nothing else |
| `WordList.Serialize` | src/tmp3.py:8-10 | the text written for a non-empty word list ends in `"\n"`; the `Serialize*` lemmas below give its contents |
| `WordList.SerializeIsConcat` | src/tmp3.py:8-10 | the output is the concatenation, in order, of each word followed by one `"\n"` |
| `WordList.SerializeShape` | src/tmp3.py:8-10 | the output is empty exactly when there are no words, ends in `"\n"` otherwise, and its length is the sum of the word lengths plus the number of words |
| `WordList.SerializeAppend` | src/tmp3.py:8-10 | writing two runs of words one after the other concatenates their texts |
| `WordList.SerializePrefix` | src/tmp3.py:8-10 | append only: the text after the first i words is a prefix of the final text |
| `WordList.SerializeNewlineCount` | src/tmp3.py:8-10 | if no word contains `"\n"`, the output has exactly one `"\n"` per word |
| `WordList.SerializeAsJoin` | src/tmp3.py:8-10 | the output is the words and a final empty piece joined by `"\n"` |
| `WordList.SerializeRoundTrip` | src/tmp3.py:8-10 | if no word contains `"\n"`, splitting the output on `"\n"` gives the words and then one empty piece; dropping that piece gives the words back |
| `WordList.ExampleTwoWords` | src/tmp3.py:8-10 | the words `cat`, `dog` are written as `"cat\ndog\n"` |

## Left out

- Directory handling: `os.getcwd`, `os.path.join` and `os.listdir` (src/tmp.py:6, 12-15; src/tmp3.py:4). This is file-system I/O. The listing is a given sequence of file texts in whatever order the platform returns them.
- Opening and decoding files as UTF-8, with a failed open or decode aborting the run (src/tmp.py:17; src/tmp3.py:7). This is I/O. The model starts from already-decoded text.
- Python's universal-newline translation of `"\r\n"` and `"\r"` to `"\n"` on read. This is done by the I/O layer. `SplitLines` models `readlines()` on text where that translation has already happened.
- Newline translation on write: a file opened with mode `'w'` in text mode writes each `"\n"` as `os.linesep` (src/tmp3.py:7). `TextFile.contents` is the text passed to `write`, before that translation. This is done by the I/O layer.
- `print` of file names and of `Finished!` (src/tmp.py:18, 31; src/tmp3.py:12). This is console output with no effect on the data.
- `pd.DataFrame(data, columns=[...])` and `to_csv` (src/tmp.py:28-29). These are foreign library calls. CSV quoting is not modelled, and neither is how pandas treats records with more or fewer than four fields. The model stops at the list of records.
- `pd.read_csv(...)['Word'].to_numpy()` (src/tmp3.py:5). This is a foreign library call. The model starts from the word sequence as strings. Missing cells that pandas reads as NaN, on which `write` would fail, are not modelled.
- The unused `re` and `seaborn` imports (src/tmp.py:1, 4).
