# Deleterious-variant filter, modelled in Dafny

This project models the decision core of `vcf2deleterious.py`. The script reads a VCF file and writes only the records predicted to damage a protein. For each record it walks the SnpEff `ANN` annotations, which are strings of `|`-separated fields. A consequence field naming a high-impact category keeps the record at once. A `missense_variant` annotation gets its protein-change notation parsed (for example `p.Leu55Arg`, or several packed substitutions such as `p.LeuGly55ArgSer`). The resulting substitutions are then looked up in a per-gene score table. The table is SIFT (confident row, `score <= 0.05`) or sequence-UNET (`pred >= 0.5`), and the last loaded table is kept in a one-gene cache.

Modules, following the script's stages:

- `Options`: `Option` and `Result`.
- `Text`: Python's `in`, `split('|')`, clamped slicing, `s[1:-1]`, `strip()` blank test and `int()`, on `seq<char>`.
- `Config`: choosing SIFT or UNET from the two directory options.
- `Notation`: the protein-change parser: underscore rejection, the strip loop that finds the numeral, the chunk loop that reads the codes.
- `Scoring`: table rows, the first-matching-row rule, thresholds, and the substitution loop.
- `Cache`: the single slot keyed by gene.
- `Annotation`: consequence categories and one pass of the annotation loop.
- `RecordFilter`: the fold over annotations and over records, and the whole run.

The central proved facts are these:

- The cache is transparent. A slot that only ever holds what loading would give (`Coherent`) stays that way. Under it, the stateful step decides exactly as a cache-free `Verdict` does.
- The record fold keeps a record exactly when some annotation's `Verdict` holds. The early exit on high impact does not change this.
- The parser is characterised completely. The strip loop exits at the first round whose middle is a numeral or blank. A notation of `3k` letters, a numeral and `3k` letters yields `k` substitutions at consecutive positions. Re-encoding substitutions and parsing them again gives them back.

## Model

| member | source | states |
|---|---|---|
| Config.SelectMethod | workflow/scripts/vcf2deleterious.py:31-40 | The run proceeds iff exactly one of the SIFT and UNET directories is given. Neither and both are the two distinct usage errors. The method is SIFT iff the SIFT directory was given, and the setting carries that directory. The two errors' messages are `Diagnostic`'s. |
| Text.Contains | workflow/scripts/vcf2deleterious.py:56-71 | The substring test behind `'x' in kind` holds iff the needle occurs at some index of the string. |
| Text.Split | workflow/scripts/vcf2deleterious.py:54 | Splitting on `|` yields at least one field, and no field holds a separator. |
| Text.JoinSplit | workflow/scripts/vcf2deleterious.py:54 | Joining the fields of a split with `|` gives back the annotation, so no character is lost or added. |
| Text.SplitJoin | workflow/scripts/vcf2deleterious.py:54 | The other direction: joining separator-free fields and splitting again returns the same fields. |
| Text.Slice | workflow/scripts/vcf2deleterious.py:114-115 | Python's clamped `s[lo:hi]`. By `SliceChars`, the slice reads `s` from `lo` on, holds at most `hi - lo` characters and never passes the end of `s`. It is empty once `lo` reaches the end, and it is exactly `s[lo..hi]` within bounds. |
| Text.DropEnds | workflow/scripts/vcf2deleterious.py:97 | `pos[1:-1]` is empty for a string of at most two characters. Otherwise it is two characters shorter and keeps every inner character in place. |
| Text.NumeralNotBlank | workflow/scripts/vcf2deleterious.py:98-106 | A middle that `int()` accepts is never blank, so the loop's numeral exit is not undone by the later blank test. |
| Scoring.NonSynonymous | workflow/scripts/vcf2deleterious.py:121-124 | Skipping synonymous triples keeps exactly the triples whose two residues differ. |
| Annotation.Categorize | workflow/scripts/vcf2deleterious.py:55-71 | A consequence is high-impact iff it contains one of the five listed terms. It is missense iff it is not high-impact and contains `missense_variant`. |
| Annotation.StopGainedIsHighImpact | workflow/scripts/vcf2deleterious.py:65-67 | Any consequence containing `stop_gained` is high-impact, whatever else it names. |
| Notation.Locate | workflow/scripts/vcf2deleterious.py:94-104 | The strip loop terminates (its measure is the middle's length) after at least one round. It exits on a middle that is a numeral or blank. |
| Notation.LocateFirstStop | workflow/scripts/vcf2deleterious.py:92-104 | The loop's middle at exit equals `core[i..|core|-i]` for its round count `i`. No earlier round's middle was a numeral or blank. |
| Notation.Collect | workflow/scripts/vcf2deleterious.py:109-119 | The chunk loop, counting `j` up by 3 from 0, yields nothing when `i` is 0. Otherwise it runs until `j` first reaches `i`, which gives `ceil(i/3)` triples. |
| Notation.CollectAt | workflow/scripts/vcf2deleterious.py:113-119 | The `m`-th triple reads `core[3m:3m+3]` and `core[i+n+3m:i+n+3m+3]` with clamped slicing, at position `int(pos)+m`. Here `n` is the numeral's length. |
| Notation.LocateUnique | workflow/scripts/vcf2deleterious.py:92-104 | When round `t` is the first whose middle is a numeral, the strip loop exits after exactly `t` rounds with that numeral as `pos`. |
| Notation.Parse | workflow/scripts/vcf2deleterious.py:89-119 | A notation holding `_` never parses. A successful parse yields at least one triple, since the strip loop runs at least one round, and the triples' positions are consecutive. `ParseCharacterized` states when it succeeds and its exact output. |
| Notation.ParseAt | workflow/scripts/vcf2deleterious.py:89-119 | A notation without `_` whose strip loop first stops on a numeral at round `t` parses to the `ceil(t/3)` triples read around that numeral. |
| Notation.ParseCharacterized | workflow/scripts/vcf2deleterious.py:89-119 | Parsing succeeds iff the notation has no underscore and the strip loop first stops on a numeral at some round `t`. It then yields exactly the `ceil(t/3)` triples read around that numeral. |
| Notation.ParseWellFormed | workflow/scripts/vcf2deleterious.py:92-119 | Take a two-character prefix, `3k` letters, a numeral and `3k` letters. This parses to `k` triples at positions N..N+k-1, with wild-type code `core[3m..3m+3]` and mutant code taken from the same offset of the mutant run. |
| Notation.ParseSingleExample | workflow/scripts/vcf2deleterious.py:92-119 | `p.Leu55Arg` parses to the single triple (Leu, 55, Arg). |
| Notation.ParseEncode | workflow/scripts/vcf2deleterious.py:92-119 | Writing substitutions as prefix, codes, start and codes, then parsing, returns the same codes at positions start, start+1, and so on. |
| Scoring.Selects | workflow/scripts/vcf2deleterious.py:128-135 | A selected row is keyed on the substitution's position, wild-type and mutant residue, and has the shape of the run's method. A SIFT row whose median IC is 3.25 or more is never selected. |
| Scoring.Passes | workflow/scripts/vcf2deleterious.py:139-144 | The thresholds: a SIFT score of at most 0.05 or a UNET prediction of at least 0.5, both bounds included. By `PassesMonotone`, a passing row still passes with a lower SIFT score or a higher UNET prediction. |
| Scoring.FirstMatch | workflow/scripts/vcf2deleterious.py:126-138 | The query result is the first row the filter selects, with no selected row before it. The result is absent iff no row is selected, which is the `IndexError` case. |
| Scoring.FirstRowDecides | workflow/scripts/vcf2deleterious.py:128-135 | When the first row is selected, it alone decides the substitution. Later rows are not consulted. |
| Scoring.ThresholdExamples | workflow/scripts/vcf2deleterious.py:128-144 | SIFT with median IC 3.0 passes at score 0.05 and fails at 0.06. Median IC 3.25 and 3.3 fail the confidence gate, which is strict. UNET passes at 0.5 and fails at 0.499999. |
| Scoring.Evaluate | workflow/scripts/vcf2deleterious.py:121-125 | Synonymous triples are skipped before any lookup, so no looked-up triple is synonymous. |
| Scoring.EvaluateDecides | workflow/scripts/vcf2deleterious.py:121-144 | The loop is deleterious iff some triple is decisive: non-synonymous, with a first selected row that passes the method's threshold. |
| Scoring.EvaluateLooksUpAll | workflow/scripts/vcf2deleterious.py:121-138 | Without a pass, every non-synonymous triple is looked up, in order. |
| Scoring.EvaluateStopsAtFirst | workflow/scripts/vcf2deleterious.py:121-144 | The triples looked up are a prefix of the non-synonymous triples of `ts`, in order. With a pass, the last one looked up is decisive and none before it is, so the loop breaks at the first decisive triple of `ts`. |
| Cache.Fetch | workflow/scripts/vcf2deleterious.py:74-86 | A load is attempted iff the slot does not hold the gene. A hit returns the held table. A successful load replaces the slot with the gene and its table. A missing file leaves the slot unchanged and yields no table. |
| Cache.FetchTransparent | workflow/scripts/vcf2deleterious.py:74-86 | From a coherent slot, a fetch returns exactly what loading the gene returns, and the slot stays coherent. |
| Cache.FetchTwice | workflow/scripts/vcf2deleterious.py:74-86 | Two fetches of one gene whose file exists load at most once. When the file is missing and not cached, both fetches try to load. |
| Cache.FetchEvicts | workflow/scripts/vcf2deleterious.py:74-86 | Fetching a gene other than the held one always attempts a load. It evicts the held table when the new file exists. |
| Annotation.Examine | workflow/scripts/vcf2deleterious.py:53-144 | High impact stops the scan and sets the flag, with no load and no lookup. Other categories change nothing. Lookups are never synonymous. From a coherent slot, the step keeps the slot coherent and is deleterious iff `Verdict` holds. |
| Annotation.UnderscoreSkips | workflow/scripts/vcf2deleterious.py:74-90 | A missense notation with `_` yields no lookups and no verdict. The gene's table has still been fetched into the slot first. |
| Annotation.MissingTableSkips | workflow/scripts/vcf2deleterious.py:74-86 | A missense annotation whose gene is not cached and has no file attempts a load. It is then skipped with the slot unchanged. |
| Annotation.MissenseLeu55Arg | workflow/scripts/vcf2deleterious.py:71-144 | With a confident SIFT row for L55R, a `p.Leu55Arg` missense annotation is deleterious iff the row's score is at most 0.05. |
| RecordFilter.ScanAnnotations | workflow/scripts/vcf2deleterious.py:52-71 | The keep flag is never cleared. The scan stops right after the first high-impact annotation, with the flag set, and visits every annotation when there is none. |
| RecordFilter.ScanMeaning | workflow/scripts/vcf2deleterious.py:52-144 | From a coherent slot, the scan keeps the record iff the flag was already set or some annotation's cache-free `Verdict` holds. The slot ends coherent. |
| RecordFilter.Select | workflow/scripts/vcf2deleterious.py:146-147 | The reference output holds exactly the wanted records (those with `ANN` and some deleterious annotation), each drawn from the input. |
| RecordFilter.FilterRecords | workflow/scripts/vcf2deleterious.py:46-147 | Only records with an `ANN` field are written. From a coherent slot, the written records are exactly `Select` of the input, in order, and the slot stays coherent. |
| RecordFilter.FilterVcf | workflow/scripts/vcf2deleterious.py:31-147 | A usage error comes iff not exactly one directory is given, and it is decided before any record. Otherwise the output is `Select` under the chosen method's loader, starting from an empty cache. |
| RecordFilter.UnannotatedDropped | workflow/scripts/vcf2deleterious.py:47-51 | A record without an `ANN` field is never written. |
| RecordFilter.HighImpactStopsScan | workflow/scripts/vcf2deleterious.py:56-70 | A record whose first annotation is high-impact is kept after one annotation, with the cache untouched. |

## Behaviour of the script worth noting

- The underscore test runs on the whole notation, prefix included, not on the prefix-stripped core.
- A high-impact annotation ends the record's annotation loop. A missense pass only ends that annotation's substitution loop, so later annotations are still examined and can still reload the cache.
- A missing table file leaves the cache slot exactly as it was.
- When the strip loop's round count is not a multiple of 3, the code still reads `ceil(i/3)` chunks with clamped slices. It does not skip the notation.
- The table is fetched before the notation is checked, so an unparsable notation can still replace the cached table.

## Left out

- Argument parsing (`get_options`), opening the VCF, and writing the header and records are I/O. The run is a function from records (text plus optional `ANN` values) to the records written.
- Reading tables (`pd.read_csv`), the `{gene}.tsv` and `{gene}.tsv.gz` file names and `os.path.join` are not modelled. The storage is an abstract function from (method, directory, gene) to an optional table, and `None` stands for `FileNotFoundError`. Tables are assumed not to change during the run.
- Biopython's `seq1` is a foreign call. It is the parameter `letter: string -> char`, applied also to the shorter chunks clamped slicing can produce. For a chunk shorter than three characters `seq1` returns `''`, not a letter. The model is faithful when `letter` maps every such chunk to one fixed character that is no one-letter amino-acid code. Two short chunks then compare equal, as two `''` do, and neither can match a table row.
- Scores are `real`. Float rounding and NaN are not modelled.
- `int()` is reduced to "non-empty run of ASCII digits". Signs, surrounding whitespace, digit-group underscores and non-ASCII digits are not accepted.
- The blank test `strip() == ''` recognises ASCII whitespace only.
- An annotation with too few fields raises `IndexError` in the script. The model instead requires field 1 on every annotation the scan reaches, and fields 3 and 10 on missense ones (`Indexable`, `ScanSafe`).
- Tables with missing columns raise `KeyError` in the script and are not modelled. A row of the other method's shape is never selected.
- Element-type coercions in the pandas comparisons are not modelled. Positions compare as integers and residues as characters.
