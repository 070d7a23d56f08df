# mutect-vcf-selector, modelled in Dafny

`mutect-vcf-selector.py` filters the data lines of a MuTect or MuTect2 VCF
against a COSMIC VCF. It reads the COSMIC file into a dictionary keyed by
`CHROM,POS,REF,ALT`. It then walks the caller's VCF line by line, tracking
which caller version the header announces, and prints every data line that
`check_mutect_variant` answers with 1, without its last character.

The model has four modules, one file each:

- `Wrappers` (`wrappers.dfy`): `Option` and `Result`. An `Err` stands for a Python exception.
- `PyStrings` (`py_strings.dfy`): the Python 2 string operations the script relies on.
  These are `split("\t")` and `split(";")` (`Split`), `split()` with no argument (`Words`),
  `startswith`, substring `in` (`Contains`) and `[:-1]` (`DropLast`).
  Python 2 strings are bytes, so whitespace is the six ASCII characters ` \t\n\r\v\f`.
  `Split` is proved inverse to `Join`. `Words` is pinned down on every string by two lemmas (a single run is one piece; a whitespace character splits the string in two), and is proved to agree with a tab split when the leading columns hold no whitespace.
- `Records` (`records.dfy`): `Variant` and `Cosmic_Mutation`.
  Both constructors only assign fields while they run, so the records are datatypes.
  A constructor that raises returns `Err(TooFewColumns)` (an `IndexError`) or `Err(NoGeneMatch)` (the `AttributeError` of `m.groups()` on a failed match).
  The anchored pattern `^GENE=(\S+?);` is written out as `Gene`.
  Its contract states the regular expression's meaning: a match exists exactly when some end position qualifies (`GeneEndsAt`), and the lazy group ends at the first such position.
- `Selector` (`selector.dfy`): `check_mutect_variant` (`Classify`), `build_cosmic_dictionary` and the line loop of `main`.
  `build_cosmic_dictionary` is the method `BuildCosmicDictionary` with a `while` loop over the file's lines.
  The loop of `main` is the method `SelectVariants`, with the `mutectVersion` variable and both of its identical branches.
  Each method is proved equal to a recursive specification function (`CosmicIndex`, `Drive`).
  Lemmas then state what those functions compute.

Files are sequences of lines, each still carrying its terminator as Python's
file iteration yields it. Standard output is the sequence of printed strings.
An exception during the loop ends the run after the lines already printed.
`Printout(lines, failure)` records both.

Behaviour modelled as written:

- The INFO column of an eight-column COSMIC line still ends in the line's newline.
  So a final `;SNP` token reads as `SNP\n` and does not set the SNP flag (`Records.SnpFlagBeforeNewline`).
- A COSMIC line whose INFO does not begin with `GENE=<non-blank>;` aborts the whole build.
  A missing gene is an error here, not an absent value.
- Under MuTect2, a line that is neither `PASS` nor `germline_risk` gets no verdict (`None`).
  The driver compares the verdict with 1, so such a line is dropped.
- The key of a caller line comes from a whitespace split, but a COSMIC key comes from a tab split.
  For any line of at least eight tab columns whose first seven are non-empty and contain no whitespace, the caller key is columns 0, 1, 3 and 4 joined by commas, the same key a COSMIC record read from those columns is stored under (`Selector.CallerKeyIsCosmicIdentifier`).
- The script has no ClinVar lookup, no gene-list gate, no self-annotated mode and no header echo, so none is modelled.

## Model

| member | source | states |
|---|---|---|
| `PyStrings.Split` | mutect-vcf-selector.py:9 | a split yields at least one piece, and no piece contains the separator |
| `PyStrings.JoinSplit` | mutect-vcf-selector.py:9 | joining the pieces of a split with the separator gives back the string |
| `PyStrings.SplitJoin` | mutect-vcf-selector.py:9 | splitting a join of separator-free pieces gives back the pieces |
| `PyStrings.SplitConcat` | mutect-vcf-selector.py:35 | the split of `a;b` is the split of `a` followed by the split of `b` |
| `PyStrings.Words` | mutect-vcf-selector.py:47 | a whitespace split yields only non-empty pieces free of whitespace |
| `PyStrings.WordsOfRun` | mutect-vcf-selector.py:47 | a non-empty string without whitespace splits into exactly itself |
| `PyStrings.WordsAtWhitespace` | mutect-vcf-selector.py:47 | for every a, b and whitespace c, the whitespace split of `a c b` is that of a followed by that of b; with `WordsOfRun` this fixes the pieces as the maximal non-whitespace runs in order |
| `PyStrings.WordsAgreeWithSplit` | mutect-vcf-selector.py:47 | for a whitespace separator such as tab: when the first k pieces are non-empty and free of whitespace and another piece follows them, the whitespace split begins with those same k pieces |
| `PyStrings.DropLast` | mutect-vcf-selector.py:94 | `line[:-1]` is the line without its last character, and the empty string stays empty |
| `Records.ParseVariant` | mutect-vcf-selector.py:8-20 | parsing fails exactly when there are fewer than 8 tab columns (COSMIC) or 9 (caller); on success the record's columns are the tab pieces in VCF order, columns 0-7 for a COSMIC record and all of them, samples from column 9 on, for a caller record |
| `Records.ParseFormatted` | mutect-vcf-selector.py:9-20 | a record printed as a tab-separated line parses back to the same record, when no column holds a tab |
| `Records.SnpFlagBeforeNewline` | mutect-vcf-selector.py:31-39 | a final INFO token `SNP\n` never sets `is_snp`, while a bare `SNP` token does |
| `Records.GeneEnd` | mutect-vcf-selector.py:40-41 | the lazy scan stops at the first `;` before any whitespace, or reports that no `;` precedes whitespace |
| `Records.Gene` | mutect-vcf-selector.py:40-42 | `^GENE=(\S+?);` matches exactly when some end position qualifies, and the group is the shortest such run |
| `Records.ParseCosmicColumns` | mutect-vcf-selector.py:24-42 | a COSMIC line parses exactly when it has 8 columns and a leading `GENE=<non-blank>;`; then INFO is column 7 unchanged, `is_snp` and `gene` are read from it and the identifier is `col0,col1,col3,col4`; the error names the step that failed |
| `Records.ParseCosmic` | mutect-vcf-selector.py:24-42 | a parsed COSMIC record keeps no FORMAT or sample columns, and its gene is a non-empty run without whitespace |
| `Records.Describe` | mutect-vcf-selector.py:30-31 | `__str__` followed by INFO's last character is identifier, comma and INFO; for empty INFO it is identifier and comma |
| `Selector.Classify` | mutect-vcf-selector.py:46-62 | raises exactly below 7 whitespace-separated fields, always with the `IndexError`; no verdict (`None`) occurs only under MuTect2 |
| `Selector.ClassifyDecisionTable` | mutect-vcf-selector.py:46-62 | raises exactly below 7 fields; `PASS` gives 1 whatever the index and version; with `germline_risk` or under MuTect, 1 for a non-SNP COSMIC hit and 0 otherwise; else `None` |
| `Selector.Mutect2KeepsLess` | mutect-vcf-selector.py:51 | a line kept under MuTect2 is also kept under MuTect |
| `Selector.VersionDecidesUnflaggedHit` | mutect-vcf-selector.py:49-62 | a filtered line without `germline_risk` that hits a non-SNP record is kept under MuTect and gets no verdict under MuTect2 |
| `Selector.LargerIndexKeepsMore` | mutect-vcf-selector.py:57-60 | a larger index that agrees on the shared keys keeps every line a smaller one keeps |
| `Selector.EmptyIndexKeepsOnlyPass` | mutect-vcf-selector.py:46-61 | against an empty index a line is kept exactly when it has 7 fields and a `PASS` tag |
| `Selector.CallerKeyIsCosmicIdentifier` | mutect-vcf-selector.py:52-56 | for any line of at least 8 tab columns whose first seven are non-empty and free of whitespace, the key is `col0,col1,col3,col4`, which is the `identifier` when the line also parses as COSMIC |
| `Selector.OwnEntryDecides` | mutect-vcf-selector.py:46-61 | under MuTect, such a caller line, against an index storing any record m under its key, is kept exactly when it passes or m is not flagged SNP |
| `Selector.CosmicIndexFrom` | mutect-vcf-selector.py:64-72 | a successful build keeps every key it started from |
| `Selector.BuildCosmicDictionary` | mutect-vcf-selector.py:64-72 | the loop that fills `d` yields `CosmicIndex` of the lines, including the error of the first bad line |
| `Selector.IndexFailsOnBadLine` | mutect-vcf-selector.py:67-70 | the build fails exactly when some non-`#` line is not a valid COSMIC record |
| `Selector.IndexKeys` | mutect-vcf-selector.py:67-70 | the keys are exactly the identifiers of the non-`#` lines (plus those already present) |
| `Selector.IndexKeepsUntouched` | mutect-vcf-selector.py:67-70 | a key no data line carries keeps its earlier value |
| `Selector.IndexLastWins` | mutect-vcf-selector.py:70 | a key maps to the record of the last data line carrying it |
| `Selector.HeaderOnlyIndexIsEmpty` | mutect-vcf-selector.py:66-68 | a file of `#` lines only gives the empty dictionary |
| `Selector.VersionAfterMarker` | mutect-vcf-selector.py:85-90 | MuTect2 is in force exactly when some earlier `#` line contains `##Mutect Version=` |
| `Selector.VersionNeverReverts` | mutect-vcf-selector.py:85-90 | once MuTect2 is in force it stays in force |
| `Selector.Drive` | mutect-vcf-selector.py:87-97 | prints at most one line per input line, and the only exception it can end with is the `IndexError` |
| `Selector.SelectVariants` | mutect-vcf-selector.py:85-97 | the loop, with both of its version branches, prints and raises exactly as `Drive` from the MuTect state |
| `Selector.KeptIndicesExact` | mutect-vcf-selector.py:87-96 | the listed positions are exactly the data lines answered 1 under the version in force at that line |
| `Selector.DrivePrintsKeptLines` | mutect-vcf-selector.py:87-97 | without an exception, output line j is kept line j minus its last character, in input order; headers are never printed |
| `Selector.DriveFailsOnShortLine` | mutect-vcf-selector.py:46-48 | the loop raises exactly when some data line has fewer than seven whitespace-separated fields |
| `Selector.DriveStopsAtShortLine` | mutect-vcf-selector.py:87-97 | at the first such line, the output is what the lines before it print |
| `Selector.RunSelector` | mutect-vcf-selector.py:82-97 | a failed build prints nothing and reports its error; otherwise the run is `Drive` over the caller VCF with the built dictionary |

## Left out

- Argument parsing, opening and closing files, and `print`: the files are line sequences and the output is a string sequence. An unreadable file is not modelled.
- The regular-expression engine: only the one anchored pattern `^GENE=(\S+?);` is modelled, as a direct scan.
- `info_dictionary`: `__get_info` returns nothing, so the field is always `None`.
- Quality, FORMAT and the sample columns are parsed and stored but take part in no decision.
- Characters are Dafny `char`s standing for the bytes of Python 2 strings. No encoding is modelled.
- `mutectVersion` only ever holds `"mutect"` or `"mutect2"`, so it is the two-valued `Version`.
- A dictionary entry is a record object, which Python always treats as true, so `if cosmic_entry` is "the key is present".
- `IsSnp` is a predicate without a contract of its own; what it decides about INFO is stated by `Records.SnpFlagBeforeNewline` and `PyStrings.SplitConcat`.
