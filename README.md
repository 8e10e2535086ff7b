# CoNLL corpus layer of the Covington parser

This project models the corpus layer of the non-projective Covington dependency parser,
`bcovington/utils.py`. The layer reads and writes the tab-separated CoNLL-X / CoNLL-U
format and covers:

- token normalisation and the `ConllEntry` record;
- the sentence reader `read_conll` and the writer `write_conll`;
- the vocabulary builder `vocab`;
- the lookup table that sets multiword-range (`n-m`) and empty-node (`n.k`) lines aside
  and the dump that splices them back (`lookup_conll_extra_data`,
  `dump_lookup_extra_into_conll`);
- the single-root repair (`get_rooted`, `get_new_single_root`,
  `transform_to_single_root`).

A file is a sequence of lines, each still ending in its newline, as iterating a Python
file yields them. A file written is a sequence of strings whose concatenation is the
text written. It does not always match the `write` calls one to one: `write_conll`
writes a token line and its newline in two calls, and the model has one string for the
pair. The source is Python 2, so strings are byte strings. Module `Text` models
`strip`, `split`, `lower` and `int` on them, with the limits listed under "Left out".
`int` accepts surrounding whitespace, an optional sign, whitespace after the sign, and
then decimal digits.

Modules, one per file:

- `Text` (text.dfy): the string built-ins, such as `Strip`, `Split`, `Join`, `ParseInt`
  (`int(s)`, `None` for the `ValueError`), `IntToString` (`str(n)`) and `Lower`. It also
  has `FileLines`, which cuts a written text back into the lines a reader sees.
- `Conll` (conll.dfy): `Normalize`, the `ConllEntry` datatype, `NewEntry` (the
  constructor), the dummy `Root`, and `CovingtonConfiguration`. That last one is the
  parser configuration, kept as a plain record: `l1`, `b`, `sentence`, and the arc set
  `arcs` (the source's `A`).
- `Reader` (reader.dfy): `read_conll`. The method `ReadConll` is proved equal to the
  function `Read`, and the lemmas about the sentences read are proved about `Read`.
- `Writer` (writer.dfy): `write_conll` and the write-then-read round trip.
- `Vocabulary` (vocabulary.dfy): `vocab`, its `Counter` updates and its index maps.
- `ExtraLines` (extra_lines.dfy): the lookup table, the dump and their round trip.
- `SingleRoot` (single_root.dfy): the single-root repair.

The loops of the source are methods with loop invariants. Each is proved equal to a
function built line by line from the front of the input (`Read`, `Lookup`, `Dumped`,
`RootedOf`, `Transformed`, `Written`). The properties are lemmas about those functions.

## Model

| member | source | states |
|---|---|---|
| Conll.Normalize | bcovington/utils.py:136-138 | the result is `NUM` exactly when the word starts with a digit; otherwise it is the word lower-cased; the result never starts with a digit |
| Conll.NormalizeIdempotentIff | bcovington/utils.py:136-138 | normalising twice equals normalising once if and only if the word does not start with a digit |
| Conll.NormalizeNum | bcovington/utils.py:138 | `NUM` itself normalises to `num`, so normalisation is not idempotent on numbers |
| Conll.NewEntry | bcovington/utils.py:38-53 | a new entry stores id, form, coarse and fine tag, features, head and relation as given; lemma and norm are the normalised lemma and form; the prediction starts at head 0 with relation `root` |
| Conll.Root | bcovington/utils.py:94 | the dummy root has id 0, form and norm `*root*`, lemma `*root-lemma*`, tags `ROOT-POS`/`ROOT-CPOS` in the source's order, features `FEATS-ROOT`, head 0 and relation `rroot` |
| Reader.BlankFields | bcovington/utils.py:99-100 | a line splits to `['']` exactly when it is whitespace only |
| Reader.TokenFields | bcovington/utils.py:108-110 | a line read as a token is not a comment, not blank and not a multiword or empty-node line, and has at least 8 fields; its id is the first field's integer and is not negative; columns are taken in order; a head `_` is read as -1; the prediction starts at the root |
| Reader.ClassifyLine | bcovington/utils.py:98-114 | the reading loop's tests, in the source's order, classify a line as `Kind` does; a line is a comment exactly when it starts with `#`, and blank exactly when it is not a comment and is whitespace only |
| Reader.ReadConll | bcovington/utils.py:86-120 | the loop yields exactly `Read(lines)` for every file on which `int` raises no uncaught error |
| Reader.ReadAtBlank | bcovington/utils.py:100-105 | a blank line ends a sentence: what is read from `a`, a blank line and `b` is what is read from `a` followed by what is read from `b`, so runs of blank lines yield no empty sentence |
| Reader.ReadSkips | bcovington/utils.py:98-114 | comment lines, multiword and empty-node lines, and token lines with fewer than 8 fields can be removed without changing what is read |
| Reader.ReadWithoutBlank | bcovington/utils.py:116-118 | lines with no blank line among them form exactly one sentence (none if they hold no token), so the last sentence is yielded without a closing blank line |
| Reader.ReadTokens | bcovington/utils.py:96-118 | the real tokens of all the sentences, in order, are exactly the entries of the file's token lines, none lost, added or reordered |
| Reader.ReadShape | bcovington/utils.py:94-118 | every sentence read starts with the dummy root and has at least one real token |
| Writer.WriteConll | bcovington/utils.py:123-132 | the loop writes exactly `Written(sentences)`: per sentence, one line per entry after the root, then a blank line |
| Writer.EntryLineFields | bcovington/utils.py:130 | a written line ends in its only newline and splits back into the ten columns: id, form, lemma, coarse and fine tag, features, predicted head and relation, `_`, `_` |
| Writer.KindOfEntryLine | bcovington/utils.py:109-130 | the reader reads a written line as a token whose id, form, tags and features are the entry's; its head and relation are the written predicted ones |
| Writer.ReadWritten | bcovington/utils.py:96-132 | reading the written lines gives, per sentence, the root followed by the re-read entries |
| Writer.WriteReadRoundTrip | bcovington/utils.py:109-132 | the text written for sentences that each have a real token, with non-negative ids and no tab or newline in a written field, is read without error, and reading it back gives exactly `Reread(ss)` |
| Vocabulary.Update | bcovington/utils.py:73-78 | `Counter.update` adds one to each element's count for every occurrence and adds the new keys |
| Vocabulary.Enumerate | bcovington/utils.py:80-81 | the index map is a bijection from the keys onto `0..k-1` |
| Vocabulary.BuildVocab | bcovington/utils.py:61-83 | the word and lemma counters count every occurrence over all sentences read; the two index maps are bijections onto `0..k-1`; the tag, feature and relation results are exactly the distinct values seen |
| Vocabulary.OccurrencesSplit | bcovington/utils.py:73-78 | over sentences that start with the root, every count is the root's value once per sentence plus the values of the real tokens |
| Vocabulary.VocabCounts | bcovington/utils.py:71-78 | over a file, each counted column holds the root's value once per sentence read plus the column's values over the file's token lines |
| ExtraLines.ClassOf | bcovington/utils.py:156-167 | the lookup's test `tok == ['']` holds exactly on the lines that are whitespace only and do not start with `#`; comment lines are exactly those starting with `#` |
| ExtraLines.LookupConllExtraData | bcovington/utils.py:147-169 | the loop builds exactly `Lookup(lines)` |
| ExtraLines.LookupCounters | bcovington/utils.py:150-167 | the sentence number is the number of blank lines; the insertion key is one plus the number of ordinary token lines since the last blank line; the table has a sentence entry for each number from 0 to the number of blank lines |
| ExtraLines.LookupExtraLine | bcovington/utils.py:164-165 | a multiword or empty-node line is stored, as written, in the current sentence under one plus the number of ordinary token lines before it in that sentence |
| ExtraLines.LookupBlankLine | bcovington/utils.py:159-162 | a blank line opens the next sentence number with an empty table and changes nothing else |
| ExtraLines.LookupOtherLine | bcovington/utils.py:156-167 | comment and ordinary token lines leave the table unchanged |
| ExtraLines.StoreOverwrites | bcovington/utils.py:165 | storing twice under one key keeps only the second line |
| ExtraLines.LookupOverwrites | bcovington/utils.py:165 | of two consecutive multiword or empty-node lines, only the later one is kept in the table |
| ExtraLines.DumpLookupExtraIntoConll | bcovington/utils.py:175-199 | the loop writes exactly `Texts(Dumped(lines, lookup))` |
| ExtraLines.DumpCounters | bcovington/utils.py:177-196 | the dump's sentence number is the number of blank lines; its word number is one plus the number of non-blank lines since the last blank line |
| ExtraLines.DumpPlacesStored | bcovington/utils.py:186-197 | each line is written after everything written for the lines before it; a blank line is written alone; a non-blank line is written immediately after the line stored for its sentence and word number, if any |
| ExtraLines.DumpKeepsOriginals | bcovington/utils.py:197 | removing the inserted lines from the output gives back the input, line for line |
| ExtraLines.DumpEmptyTable | bcovington/utils.py:193-197 | with an empty table the output is the input unchanged |
| ExtraLines.DumpUnreached | bcovington/utils.py:193-195 | changing the line stored under a key the dump never looks up changes nothing it writes |
| ExtraLines.ClosedSentence | bcovington/utils.py:189-196 | once a blank line closes a sentence, no key of that sentence at or after its last word number is ever looked up, so a line stored after the last token is never written |
| ExtraLines.KeptCounters | bcovington/utils.py:159-196 | in a restorable file, removing the multiword and empty-node lines keeps the blank-line count, and turns the lookup's token count into the dump's non-blank count |
| ExtraLines.LookupDumpRoundTrip | bcovington/utils.py:147-199 | for a restorable file, dumping the lookup table into the file without its multiword and empty-node lines gives back the file, line for line |
| SingleRoot.GetRooted | bcovington/utils.py:202-217 | the loop returns exactly `RootedOf` of the block's lines, one element per line, in line order |
| SingleRoot.RootedAppend | bcovington/utils.py:209-214 | the elements collected from `a + b` are those from `a` followed by those from `b` |
| SingleRoot.RootedSound | bcovington/utils.py:212-214 | every collected element comes from a line with an integer id and head equal to the dummy root |
| SingleRoot.RootedComplete | bcovington/utils.py:212-214 | every line with an integer id and head equal to the dummy root is collected |
| SingleRoot.FirstRootedVerb | bcovington/utils.py:225-227 | returns nothing exactly when no element is a root-attached verb; otherwise it returns the id of the first such element |
| SingleRoot.NewSingleRoot | bcovington/utils.py:220-228 | on a non-empty list: the result is the id of some element; it is the first root-attached verb's id, or the first element's id when there is no such verb |
| SingleRoot.MovesTest | bcovington/utils.py:248-249 | the repair's test, which converts the head only when it is not `_`, holds exactly for a root-attached token other than the chosen one |
| SingleRoot.RepairFields | bcovington/utils.py:246-250 | the fields written have the line's length and columns; only the head column can change; it becomes the chosen id exactly on the tokens that move |
| SingleRoot.RepairLeavesChosenRoot | bcovington/utils.py:249-250 | after the repair, a token still attached to the dummy root is the chosen one |
| SingleRoot.RepairLineKept | bcovington/utils.py:246-252 | a line the repair does not touch is written back stripped of surrounding whitespace |
| SingleRoot.RepairLineFields | bcovington/utils.py:246-252 | the written line of a token splits back into exactly the repaired fields |
| SingleRoot.BlockKept | bcovington/utils.py:253-255 | a block with at most one root-attached token is written unchanged, followed by a blank line |
| SingleRoot.BlockRepaired | bcovington/utils.py:242-255 | in a block with several root-attached tokens, the chosen id is one of theirs, and the line of that token is written with its id and its head still on the dummy root; one line is written per line of the block, then a blank line; read again, each token line has the repaired fields, and no other token stays on the dummy root, so exactly one does |
| SingleRoot.RootedLineFields | bcovington/utils.py:211-251 | a line that `get_rooted` collects, with id and head taken from the raw split, is neither blank nor a comment for the repair, has a head column after stripping, and its stripped id and head have the same integer values as the raw ones |
| SingleRoot.ChosenStaysRoot | bcovington/utils.py:244-250 | the repair writes the chosen token's line with its head still on the dummy root and its id unchanged |
| SingleRoot.TransformToSingleRoot | bcovington/utils.py:232-256 | the loop writes exactly `Transformed` of the file's blocks |
| SingleRoot.WriteBlock | bcovington/utils.py:241-255 | one iteration: an empty block writes nothing; otherwise the block's output is written |
| SingleRoot.RepairLines | bcovington/utils.py:245-252 | the repair loop writes one repaired line for each line of the block, in order |
| SingleRoot.RepairOne | bcovington/utils.py:246-252 | the loop body for one line writes exactly `RepairLine` |

## Left out

- `bcovington/src/parser.py` is not part of this model. It is the command-line driver:
  argument parsing, pickling, directories, and external evaluation scripts.
- The Covington transition system is not part of this model. Its code, its oracle and
  its scorer are in a module that is not available. `CovingtonConfiguration` is kept as a
  record with no behaviour, as in the source.
- File handles, opening and closing files, and `codecs` (used but never imported) are
  left out. A file read is a sequence of lines; a file written is a sequence of
  strings whose concatenation is what was passed to `write`.
- The `print` statements and the `read`, `tokens_read` and `i` counters are left out.
  They feed only printing or nothing.
- The constants `UD_ID_COLUMN`, `UD_CTAG_COLUMN`, `UD_HEAD_COLUMN`, `DUMMY_ROOT` and
  `UD_CTAG_VERB` are not defined in the source. They are taken as the CoNLL-U values 0,
  3, 6, 0 and `VERB`.
- Uncaught exceptions are not modelled as behaviour. They become preconditions:
  `WellFormed` for `ValueError` in the reader; `RootedSafe` for `IndexError` in
  `get_rooted`; `RepairSafeLine` and `BlockSafe` for the repair. The specification
  functions themselves are total.
- Unicode lower-casing and the regular-expression engine are left out. `Lower` is ASCII
  lower-casing of byte strings. The number pattern is reduced to the test "first
  character is a digit", which is what an anchored match of that pattern decides.
- Vocabulary.Enumerate: the dictionary's key order is not modelled. Any bijection onto
  `0..k-1` is accepted, which is weaker than the single numbering Python 2 produces.
- The sharing of one root object by every sentence yielded is not modelled. Entries are
  values, and nothing in this file changes an entry after it is built.
- The `__str__` methods are left out. So are the `None` defaults of the `ConllEntry`
  constructor: every caller here passes all arguments.
- The test `not tok` is never true, because `split` always returns at least one piece.
  Only `tok == ['']` is modelled.
- SingleRoot.RepairLeavesChosenRoot: when the chosen id is itself the dummy root's number
  (0), moved tokens also end up on 0. The lemma allows that case rather than excluding it.
- ExtraLines.LookupDumpRoundTrip holds only for `Restorable` files, and the model does
  not state it for any other file:
  - a multiword or empty-node line followed by another is overwritten
    (`LookupOverwrites`);
  - one that ends its sentence is never written back (`ClosedSentence`);
  - comment lines are skipped by the lookup but counted by the dump.
  The dump is applied to the same file without those lines, not to what the parser
  wrote.
