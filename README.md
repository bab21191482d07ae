# Netflix catalogue to Cypher: a verified model

`script.py` reads the Netflix titles CSV and turns every record into Cypher
statements for a graph database: one `CREATE (s:Show {...})` node statement
per record and, for each director, cast member, country and genre named in
the record's comma-separated fields, one two-line `MERGE` statement that
creates the related node and links it to the show. Titles and descriptions
are first normalized (Unicode NFKD, then a chain of replacements aimed at
three mojibake sequences, of which only line 20's apostrophe and dash patterns
can match after NFKD, then em dashes to `--`) and every single
quote in them, as in every related name, is replaced by the six characters
`\u0027`.

The project models that transformation in three modules:

- `PyStr` (`pystr.dfy`): the two Python string operations the script calls,
  `str.replace` (lines 14 and 19-21) and `str.split` (lines 52, 62, 72 and
  82), together with `str.join` as the partner of `split`; `Contains` (a
  substring test) and `CountChar` (occurrences of one character) are
  predicates the contracts are written with, not operations of the script.
  The laws the rest relies on: `replace` removes a non-empty pattern when
  the replacement is non-empty and shares no character with the pattern; with a
  non-empty pattern and a non-empty replacement that shares no character
  with a non-empty text `q`, `replace` never creates an occurrence of `q`
  (an empty replacement can: `"aXb".replace("X", "")` creates `"ab"`);
  `split` and `join` invert each other, the join-of-split always and the
  split-of-join when no part contains the separator's first character;
  splitting on a one-character separator yields one piece more than there
  are separators.
- `Text` (`text.dfy`): `escape_quotes` and `normalize_text`. NFKD is an
  arbitrary function passed in as `nfkd`; the replacement chain after it is
  modelled exactly, with the code points written in the source.
- `Cypher` (`cypher.dfy`): one record is a map from column to text; the
  statements of a record are spelled out as functions, and the
  `for row in reader` loop is a method whose result is proved equal to a
  specification function `Generate`. A record without a column the loop
  body reads raises `KeyError`, which aborts the whole conversion; the model
  returns `KeyError(column)` for the first such column of the first such
  record, columns taken in the order the loop body reads them.

Behaviour of the script worth noting:

- Line 20 is not a repeat of line 19. Line 19 matches precomposed mojibake
  (U+201A U+00C4 followed by U+00F4, U+00EE or U+00B6); line 20 matches the
  canonically decomposed forms of the dash and apostrophe patterns (U+201A,
  `A`, U+0308, then `i` or `o`, U+0302) and maps the dash to a single `-`.
  Since NFKD decomposes U+00C4, line 19 never fires on its output while line
  20 does; the decomposed ellipsis mojibake has no entry and survives.
- A multi-valued field is split on `", "` and every piece yields a statement,
  empty pieces included: `"a, "` gives two statements, the second with an
  empty name. Only a field that is empty as a whole yields nothing.
- `escape_quotes` is applied to the title, the description and the related
  names only. `show_id`, `type`, `rating` and `duration` are embedded between
  quotes unescaped and `release_year` without quotes, so a quote in one of
  those fields breaks the statement's quoting; `Cypher.NodeQueryQuotes`
  counts exactly how.

## Model

| member | source | states |
|---|---|---|
| Text.EscapeQuotes | script.py:12-14 | the result contains no single quote, a quote-free text is returned unchanged, and the result is five characters longer per quote in the input |
| Text.EscapeQuotesCons | script.py:12-14 | escaping works character by character: a leading quote becomes `\u0027`, any other character is kept, then the rest is escaped |
| Text.EscapeRoundTrip | script.py:12-14 | reading `\u0027` back as a quote recovers the original text whenever it did not already contain the six characters `\u0027` |
| Text.EscapeNotInjective | script.py:12-14 | a lone quote and the literal text `\u0027` escape to the same output, so the round trip needs its precondition |
| Text.RepairMojibake | script.py:19 | defined as line 19's three replacements in order: precomposed mojibake apostrophe to a quote, em dash to `--`, ellipsis to `...`; its properties are stated by `Text.RepairMojibakeClears` and `Text.RepairMojibakeInertWithoutPrecomposed` |
| Text.RepairDecomposedMojibake | script.py:20 | defined as line 20's two replacements in order: decomposed mojibake dash to `-`, then decomposed apostrophe to a quote; its effect is stated by `Text.DecomposedDashOutcome` and `Text.DecomposedApostropheOutcome` |
| Text.ReplaceEmDash | script.py:21 | defined as line 21's replacement of every em dash by `--`; `Text.ChainRepairs` states that no em dash remains |
| Text.ReplacementChain | script.py:19-21 | defined as lines 19, 20 and 21 applied in that order; its properties are stated by `Text.ChainRepairs`, `Text.ChainFixesRepaired`, `Text.ChainIdempotent` and `Text.ChainIdentityOnPlainText` |
| Text.RepairMojibakeClears | script.py:19 | after line 19 none of the three precomposed mojibake sequences occurs in the text |
| Text.RepairMojibakeInertWithoutPrecomposed | script.py:19 | line 19 leaves unchanged every text without U+00C4, which includes every NFKD result |
| Text.ChainRepairs | script.py:19-21 | after lines 19 to 21 none of the six sequences they replace occurs |
| Text.ChainFixesRepaired | script.py:19-21 | the chain is the identity on a text in which none of its targets occurs |
| Text.ChainIdempotent | script.py:19-21 | applying the replacement chain twice gives the same as applying it once |
| Text.ChainIdentityOnPlainText | script.py:19-21 | a text without U+201A and without an em dash passes through the chain unchanged |
| Text.DecomposedDashOutcome | script.py:20 | the decomposed dash mojibake becomes a single `-`, so line 20 does take effect |
| Text.DecomposedApostropheOutcome | script.py:20 | the decomposed apostrophe mojibake becomes a single quote |
| Text.DecomposedEllipsisOutcome | script.py:19-21 | the decomposed ellipsis mojibake has no entry and survives the chain unchanged |
| Text.NormalizeText | script.py:16-22 | for every NFKD function, the normalized text contains none of the five sequences the chain targets and no em dash |
| Cypher.MissingColumn | script.py:39-81 | reports no column exactly when the record has all eleven columns the loop body reads, and a reported column is missing from the record |
| Cypher.NodeStatement | script.py:43-47 | defined as the f-string of lines 43-47 over already escaped title and description: its thirteen segments joined by single quotes, with `release_year` unquoted; `Cypher.NodeStatementSegments` and `Cypher.NodeStatementQuotes` state what it contains |
| Cypher.NodeQuery | script.py:39-47 | defined as `Cypher.NodeStatement` of a record with title and description normalized and then escaped and the other fields as they are; `Cypher.NodeQuerySegments` and `Cypher.NodeQueryQuotes` state what it contains |
| Cypher.NodeStatementSegments | script.py:43-47 | when no field holds a quote, cutting the node statement at its quotes gives back the thirteen segments: fixed text, with the field values at the odd positions |
| Cypher.NodeStatementQuotes | script.py:43-47 | the node statement holds the twelve quotes that delimit its literals plus every quote of the seven values, which are embedded as they are |
| Cypher.NodeQuerySegments | script.py:39-47 | for a record whose unescaped fields are quote-free, the quoted literals of its node statement are its show id, type, escaped normalized title, rating, duration and escaped normalized description, with the release year unquoted in between |
| Cypher.NodeQueryQuotes | script.py:39-47 | for any record, the node statement has twelve quotes plus those of show id, type, release year, rating and duration, and splits into thirteen pieces plus that number; the escaped title and description add none |
| Cypher.RelationshipQuery | script.py:54-57 | defined as the two-line `MERGE` text of lines 54-57 (and of 64-67, 74-77, 84-87 for the other categories) with the escaped name between quotes; `Cypher.RelationshipQuerySegments` states what it contains |
| Cypher.RelationshipQuerySegments | script.py:54-57 | a relationship statement has exactly two quotes, the escaped name sits between them, and unescaping it gives the name back when the name did not contain `\u0027` |
| Cypher.FieldStatements | script.py:51-58 | an empty field yields no statement, any other field one statement per piece of its split on `", "` |
| Cypher.FieldStatementNames | script.py:51-58 | the pieces of a field joined with `", "` give the field back, none contains `", "`, and the k-th statement is the statement of the k-th piece with that piece, escaped, as its only quoted literal |
| Cypher.TrailingSeparator | script.py:51-58 | a name followed by a trailing `", "` yields two statements, the second with an empty name |
| Cypher.SingleName | script.py:61-68 | a non-empty field without a comma yields exactly the statement for that one name |
| Cypher.TwoNames | script.py:61-68 | two comma-free names separated by `", "` yield their two statements in order |
| Cypher.RowStatements | script.py:50-88 | a record contributes as many relationship statements as its director, cast, country and genre fields contribute together |
| Cypher.FirstMissingSpec | script.py:37-88 | no record lacks a column exactly when all are complete, and otherwise the reported column is missing from a record all of whose predecessors are complete |
| Cypher.Generate | script.py:37-90 | defined as the `KeyError` of the first missing column, or both statement lists of complete records in record order; `Cypher.GenerateSpec`, `Cypher.GenerateConcat` and `Cypher.GenerateOne` state its properties and `Cypher.GenerateCypherQueries` is proved equal to it |
| Cypher.GenerateSpec | script.py:37-90 | the conversion succeeds exactly when every record is complete, with one node statement per record in record order; otherwise it fails on a column missing from the first incomplete record |
| Cypher.GenerateConcat | script.py:37-90 | converting two runs of records in a row is converting each: the first KeyError wins, otherwise both statement lists are concatenated in order |
| Cypher.GenerateOne | script.py:37-90 | a single record gives its node statement and its relationship statements, or the KeyError of its first missing column |
| Cypher.QueriesSnoc | script.py:37-88 | one more complete record appends exactly its node statement and its relationship statements |
| Cypher.OneDirectorTwoActorsExample | script.py:37-88 | a record with one director, two cast members, one country and one genre gives one node statement and five relationship statements, ordered director, cast, country, genre |
| Cypher.AppendRelationships | script.py:51-58 | the inner loop appends exactly the field's statements to the list, in piece order, and leaves the list alone for an empty field |
| Cypher.AppendRow | script.py:38-88 | the loop body appends the record's node statement to the node list and its relationship statements to the relationship list |
| Cypher.GenerateCypherQueries | script.py:30-90 | the loop computes exactly `Generate`: both statement lists for complete records, the first KeyError otherwise |
| PyStr.Replace | script.py:14 | defined as Python's `str.replace` (also used on lines 19-21): leftmost, non-overlapping occurrences replaced left to right, an empty pattern inserting the replacement before every character and at the end; its laws are `PyStr.ReplaceAbsent`, `PyStr.ReplaceRemoves`, `PyStr.ReplaceKeepsAbsent` and `PyStr.ReplaceCharLength` |
| PyStr.Split | script.py:52 | Python's `str.split(sep)` for a non-empty separator (also on lines 62, 72, 82): always at least one piece; `PyStr.JoinSplit`, `PyStr.SplitJoin` and `PyStr.SplitCount` state its laws |
| PyStr.ReplaceAbsent | script.py:14 | replacing a non-empty pattern that does not occur leaves the text unchanged |
| PyStr.ReplaceRemoves | script.py:19-21 | after replacing a non-empty pattern by a non-empty text sharing no character with it, the pattern no longer occurs |
| PyStr.ReplaceKeepsAbsent | script.py:19-21 | replacing a non-empty pattern by a non-empty text sharing no character with a non-empty `q` never creates an occurrence of `q` |
| PyStr.ReplaceCharLength | script.py:14 | replacing a single character changes the length by the replacement's length minus one per occurrence |
| PyStr.SplitCount | script.py:52 | splitting on a one-character separator yields one piece more than the separator's occurrences |
| PyStr.JoinSplit | script.py:52 | joining the pieces of a split with the separator gives back the split text |
| PyStr.SplitJoin | script.py:52 | splitting a join gives back the parts when no part contains the separator's first character |

## Left out

- `detect_encoding` and the `chardet` package (lines 5-10): file I/O and a foreign library; the model starts from decoded text.
- NFKD (line 18): Unicode normalization data is not modelled; `NormalizeText` takes the normalization as a parameter `nfkd`, and results that depend on NFKD removing U+00C4 are stated under that assumption (`Text.RepairMojibakeInertWithoutPrecomposed`).
- Opening the file and `csv.DictReader` (lines 33-35): CSV parsing is not modelled; records arrive as maps from column to text. A short row, for which the reader fills the missing fields with `None` and the script then fails or skips the field, is not modelled; a column absent from the map stands for a header without that column.
- The `print` of the detected encoding (line 27), the example driver and the writing of the two `.cypher` files (lines 92-105): I/O.
- What the statements mean to a Cypher database: statements are modelled as text only.
- Cypher.GenerateCypherQueries: checks all eleven columns of a record before appending anything for it, where the source appends the node statement before reading the later columns; the difference cannot be observed because a KeyError discards both lists.
