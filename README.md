# AutoPing: a verified model of the host checker

`ping_automatico.py` reads a hosts-style file and pings every address and domain in it. It writes an
Excel report and logs a final summary. The file's comment lines name categories. This project models
the parts of the program that compute something:

- **Parsing the hosts file** (`parse_hosts_file`). Each line is stripped. A `#` line names the
  category of the entries that follow, unless its text is empty or starts like a commented-out
  address (`10.`, `5.`, `22.`). Blank lines are skipped. Every other line has its whitespace
  collapsed and is matched against the address pattern, then against the hostname pattern. Each
  alias that does not start with `-` gives one `(first field, alias, category)` entry. The address
  `00.00.00.00` is refused. The model works in modules: `Text` (strip, split, the `\s+`
  substitution), `HostsParser` (the loop and its specification) and `HostsProperties` (what the
  parser does, stated on the tokens of a line and on pieces of a file).
- **Removing duplicates** (module `Dedup`). The first entry with a given `(ip, domain)` pair is
  kept, in file order.
- **The connectivity check** (module `Probing`). The entries are numbered. Each job pings its
  address, and its domain whenever that is a different string. The thread pool hands the outcomes
  back in any order, and they are sorted back by number.
- **The figures of the report** (module `Report`). These are the global summary (total, online,
  offline) and the per-category sheet: one row per category, in ascending name order, with its
  total, online and offline counts.
- **`main`** (module `Pipeline`) puts these together, including the size of the thread pool.

A ping is a parameter: `probe(index, host)` is the answer that job `index` gets from pinging
`host`. The file is given as its sequence of lines. Everything else of the outside world is left
out (see below).

Where the code and its comments disagree, the model follows the code:

- The default category is `SEM CATEGORIA`.
- Only the literal `00.00.00.00` is refused. `0.0.0.0` is accepted (`ZeroAddressAccepted`).
- The comment in `ping_with_info` says the domain is tried only after the address fails. The code
  pings the domain whenever it differs from the address. `DomainPingedRegardless` proves that this
  changes nothing but the domain column, and never a host's status.

## Model

| member | source | states |
|---|---|---|
| Text.IsSpace | ping_automatico.py:69-91 | definition: the ASCII characters `str.isspace()` accepts (9-13 and 28-32), the whitespace of `strip()`, of the regex class `\s` and of `split()` |
| Text.TrimStart | ping_automatico.py:69 | definition of `lstrip()`: leading whitespace removed; the result is never longer, and shorter when the text starts with whitespace |
| Text.TrimEnd | ping_automatico.py:69 | definition of `rstrip()`: trailing whitespace removed; the result is never longer |
| Text.Strip | ping_automatico.py:69 | definition: `strip()` is `rstrip()` applied after `lstrip()` |
| Text.Split | ping_automatico.py:91 | definition of `split()`: the maximal runs of non-whitespace characters, in order |
| Text.TokenLen | ping_automatico.py:91 | the first token runs up to the first whitespace character: no whitespace before it, whitespace at it |
| Text.TrimStartShape | ping_automatico.py:69 | `lstrip` leaves a suffix that starts with a non-blank, and removes only whitespace |
| Text.TrimEndShape | ping_automatico.py:69 | `rstrip` leaves a prefix that ends with a non-blank, and removes only whitespace |
| Text.StripShape | ping_automatico.py:69 | `strip` leaves text that is blank at neither end; it is empty exactly when the line is all whitespace; a string without whitespace is unchanged |
| Text.SplitTokens | ping_automatico.py:91 | every token of `split()` is non-empty and has no whitespace |
| Text.Collapse | ping_automatico.py:85 | the substitution empties only the empty string and keeps whether the text starts with whitespace |
| Text.CollapseLast | ping_automatico.py:85 | the substitution keeps whether the text ends with whitespace |
| Text.CollapseBlanks | ping_automatico.py:85 | every whitespace character left by `re.sub(r'\s+', ' ', …)` is a single space |
| Text.CollapseSingles | ping_automatico.py:85 | no two whitespace characters are adjacent after the substitution |
| Text.CollapseNormalizes | ping_automatico.py:69-85 | a stripped line whose whitespace is collapsed is in the form the two patterns are applied to |
| Text.TrimHashes | ping_automatico.py:74 | definition of `lstrip('#')`: leading `#` characters removed; the result is never longer |
| Text.TrimHashesShape | ping_automatico.py:74 | `lstrip('#')` leaves a suffix that does not start with `#`, and everything it removes is `#` |
| Text.StartsWith | ping_automatico.py:72-75 | definition of `startswith`: the text begins with the given prefix |
| Text.UpperChar | ping_automatico.py:77 | definition: `a`-`z` become `A`-`Z`, every other character is kept |
| Text.Upper | ping_automatico.py:77 | `upper()` keeps the length and maps each character through the ASCII upper-case map |
| Text.SplitOfSpaces | ping_automatico.py:91 | a whitespace-only string splits into no tokens |
| Text.SplitOfToken | ping_automatico.py:91 | a non-empty string without whitespace splits into itself |
| Text.SplitAtSpace | ping_automatico.py:91 | splitting at a whitespace character splits both sides independently |
| Text.SplitStrip | ping_automatico.py:91 | `strip().split()` gives the same tokens as `split()` |
| Text.SplitTrimStart | ping_automatico.py:91 | leading whitespace does not change the tokens |
| Text.SplitTrimEnd | ping_automatico.py:91 | trailing whitespace does not change the tokens |
| Text.SplitCollapse | ping_automatico.py:85-91 | collapsing whitespace does not change the tokens |
| Text.SplitNormalized | ping_automatico.py:85-91 | on a collapsed line, the tokens are the first token followed by the tokens of the text after the first space |
| HostsParser.IsDigit | ping_automatico.py:61 | definition: the class `\d`, restricted to the ASCII digits `0`-`9` |
| HostsParser.DigitRun | ping_automatico.py:61 | the longest prefix of digits: all digits, and followed by a non-digit or the end |
| HostsParser.DigitGroups | ping_automatico.py:61 | definition: the whole text is the given number of groups of 1-3 ASCII digits separated by `.` |
| HostsParser.IsIPv4Shape | ping_automatico.py:61 | definition: group 1 of the address pattern, `\d{1,3}\.\d{1,3}\.\d{1,3}\.\d{1,3}`: the whole text is four groups of 1-3 ASCII digits separated by `.` |
| HostsParser.IsHostnameChar | ping_automatico.py:62 | definition: the class `[a-zA-Z0-9\-\.]`: an ASCII letter, a digit, `-` or `.` |
| HostsParser.IsHostnameShape | ping_automatico.py:62 | definition: group 1 of the hostname pattern: a non-empty text of hostname characters |
| HostsParser.MatchFields | ping_automatico.py:61-62 | on a stripped, collapsed line (the only kind `EntryKind` receives), a pattern matches exactly when the first token has the pattern's shape and more text follows; then the line is group 1, one whitespace character and group 2, and group 1 is a non-empty, whitespace-free text of the pattern's shape |
| HostsParser.MatchOnNormalized | ping_automatico.py:61-62 | on a collapsed line, group 1 is the first token and group 2 is the non-empty text after the single space that follows it |
| HostsParser.LooksLikeCommentedIp | ping_automatico.py:75 | definition: the text starts with `10.`, `5.` or `22.` |
| HostsParser.MarkerText | ping_automatico.py:74 | definition: the text of a `#` line is the line without its leading `#` characters, then stripped |
| HostsParser.CommentKind | ping_automatico.py:72-78 | definition: a `#` line names the upper-cased category when its text is non-empty and does not look like a commented-out address; otherwise it is an ignored comment |
| HostsParser.EntryKind | ping_automatico.py:88-110 | definition: the address pattern first, with `00.00.00.00` refused, then the hostname pattern; the aliases are group 2 stripped and split |
| HostsParser.Classify | ping_automatico.py:69-88 | definition: the line is stripped; a `#` line is a comment or a category, a blank line is skipped, and any other line is collapsed and given to `EntryKind` |
| HostsParser.Emit | ping_automatico.py:97-100 | definition: one entry per alias, stripped, that is non-empty and does not start with `-`, in order |
| HostsParser.IsAlias | ping_automatico.py:99 | definition: an alias is kept when it is non-empty and does not start with `-` |
| HostsParser.LineEntries | ping_automatico.py:97-110 | definition: an entry line gives the entries `Emit` keeps; every other line gives none |
| HostsParser.NextCategory | ping_automatico.py:72-78 | definition: a category line sets the category to its name; every other line keeps it |
| HostsParser.Kinds | ping_automatico.py:67-110 | definition: every line classified on its own, in file order |
| HostsParser.CategoryAfter | ping_automatico.py:64-78 | definition: the category in effect after a run of lines is the name of its last category line, or the start category when it has none |
| HostsParser.EntriesFrom | ping_automatico.py:67-110 | definition: the entries of each line in turn, read under the category in effect before that line |
| HostsParser.Parse | ping_automatico.py:54-112 | definition: the entries of the classified lines, starting from `SEM CATEGORIA` |
| HostsParser.ParseStep | ping_automatico.py:67-110 | one more line extends the entries by that line's entries, read under the category in effect before it, and updates the category |
| HostsParser.AppendAliases | ping_automatico.py:97-100 | the alias loop appends exactly the entries of the kept aliases, in order |
| HostsParser.ParseHostsFile | ping_automatico.py:54-112 | the loop over the lines returns exactly the entries the specification `Parse` gives |
| HostsProperties.DigitGroupsAreHostname | ping_automatico.py:61-62 | text made of dot-separated digit groups also fits the hostname pattern |
| HostsProperties.IPv4IsHostname | ping_automatico.py:61-62 | every first field of the address pattern also fits the hostname pattern |
| HostsProperties.NullRouteIsIPv4 | ping_automatico.py:88-95 | `00.00.00.00` has the address form, so it is refused and never retried as a hostname |
| HostsProperties.ZeroAddressAccepted | ping_automatico.py:94 | `0.0.0.0` fits both patterns and is not the refused address |
| HostsProperties.FirstFieldAccepted | ping_automatico.py:88-110 | the two patterns in turn, with the refusal, accept a first field exactly when it fits the hostname pattern and is not `00.00.00.00` |
| HostsProperties.EmitTokens | ping_automatico.py:97-110 | on the tokens of `split()`, the alias loop keeps each alias unchanged unless it starts with `-`, in order |
| HostsProperties.EntryKindMatch | ping_automatico.py:88-110 | a line is an entry line exactly when whitespace follows its first token, and that token fits the hostname pattern and is not `00.00.00.00` |
| HostsProperties.EntryKindFields | ping_automatico.py:90-106 | the entries then come from the first token and the tokens of the rest |
| HostsProperties.EntryKindByTokens | ping_automatico.py:85-110 | on a collapsed line, the patterns yield the entries of the token-based reference |
| HostsProperties.LineEntriesByTokens | ping_automatico.py:67-110 | every line yields exactly the entries of the reference: at least two tokens, an accepted first token, one entry per alias not starting with `-`; blank, `#`, single-token and unmatched lines yield none |
| HostsProperties.MarkerLine | ping_automatico.py:72-78 | only a category line changes the category; it yields no entries; a line is a category line exactly when its stripped text starts with `#` and its text is non-empty and is not a commented-out address |
| HostsProperties.KindsAppend | ping_automatico.py:67 | each line is classified on its own |
| HostsProperties.EntriesAppend | ping_automatico.py:64-110 | reading a file in two pieces: the second piece is read from the category the first leaves in effect |
| HostsProperties.CategoryScope | ping_automatico.py:64-78 | lines without category lines keep the category, and all their entries carry it |
| HostsProperties.LineCategory | ping_automatico.py:100 | every entry of a line carries the category it was read under |
| HostsProperties.EmitCategory | ping_automatico.py:97-110 | every entry of a line carries the line's first field and category |
| HostsProperties.MarkerStep | ping_automatico.py:72-78 | a category line yields nothing and sets the category to its name |
| HostsProperties.MarkerScope | ping_automatico.py:64-110 | the lines after a category line, up to the next one, are under its name, whatever came before it |
| HostsProperties.DefaultScope | ping_automatico.py:64 | with no category line, every entry is under `SEM CATEGORIA` |
| HostsProperties.KeptWellFormed | ping_automatico.py:97-110 | entries kept from accepted tokens are well formed |
| HostsProperties.LineWellFormed | ping_automatico.py:67-110 | every entry of any line is well formed |
| HostsProperties.EntriesWellFormed | ping_automatico.py:54-112 | every entry from any prefix of the file is well formed |
| HostsProperties.ParsedWellFormed | ping_automatico.py:54-112 | every parsed entry has an accepted first field that is not `00.00.00.00`, and a non-empty domain without whitespace that does not start with `-` |
| Dedup.KeyOf | ping_automatico.py:380 | definition: the key of an entry is its `(ip, domain)` pair |
| Dedup.Keys | ping_automatico.py:380-382 | definition: the set of the keys of a list of entries, which is what `seen` holds after them |
| Dedup.Unique | ping_automatico.py:376-383 | definition: an entry is kept when no earlier entry has the same `(ip, domain)` key |
| Dedup.KeysStep | ping_automatico.py:379-383 | one more entry adds its key to the seen set, and is kept exactly when its key was not seen |
| Dedup.RemoveDuplicates | ping_automatico.py:376-383 | the loop with its `seen` set returns exactly the first-occurrence specification `Unique` |
| Dedup.UniqueKeys | ping_automatico.py:376-383 | no key is lost and none is made up |
| Dedup.KeysOfAppend | ping_automatico.py:380 | the keys of two pieces are the keys of each |
| Dedup.UniqueDistinct | ping_automatico.py:376-383 | no two kept entries share an `(ip, domain)` key |
| Dedup.UniqueFirstOccurrence | ping_automatico.py:376-383 | an entry is kept exactly when it occurs at a position that no earlier entry with the same key precedes |
| Dedup.UniquePrefix | ping_automatico.py:376-383 | the kept entries of a prefix are a prefix of the result, so order is kept |
| Dedup.UniqueOfDistinct | ping_automatico.py:376-383 | a list with distinct keys is left unchanged |
| Dedup.UniqueIdempotent | ping_automatico.py:376-383 | removing duplicates twice removes nothing more |
| Dedup.UniqueShorter | ping_automatico.py:376-383 | duplicate removal never adds entries |
| Probing.Jobs | ping_automatico.py:400 | definition: entry i (from 0) becomes the job `(i + 1, n, ip, domain, category)` |
| Probing.JobsNumbered | ping_automatico.py:400 | jobs are numbered 1 to n in entry order, each carries the total and its entry unchanged |
| Probing.JobsRoundTrip | ping_automatico.py:400 | reading the entries back from the jobs gives the entries again |
| Probing.PingWithInfo | ping_automatico.py:141-172 | the outcome carries the job's number, address, domain and category; the address column is the address's answer; the domain column is the domain's answer when it is a different string and false otherwise; the status is online exactly when either column is |
| Probing.PingDomainOnFailure | ping_automatico.py:151 | definition of the check the comment describes: the domain is pinged only when the address failed and the domain is a different string |
| Probing.DomainPingedRegardless | ping_automatico.py:151-156 | pinging the domain even after the address answered never changes the status, changes nothing but the domain column, and differs from the commented intent exactly when both answer |
| Probing.Outcomes | ping_automatico.py:400-414 | definition: the outcome of every job, in job order |
| Probing.TakeOut | ping_automatico.py:409-414 | one finished job takes exactly its own outcome out of the outstanding ones |
| Probing.CollectResults | ping_automatico.py:408-416 | whatever the completion order, the results are exactly the outcomes of the jobs, each once |
| Probing.Insert | ping_automatico.py:212 | one insertion step of the sort adds exactly that outcome |
| Probing.InsertElements | ping_automatico.py:212 | an insertion step adds no other outcome |
| Probing.InsertSorted | ping_automatico.py:212 | inserting into a sorted list keeps it sorted by number |
| Probing.SortByIndex | ping_automatico.py:212 | `sorted(results, key=index)` is a permutation of the results and is ordered by number |
| Probing.SortedHead | ping_automatico.py:212 | the first outcome of a sorted permutation of consecutively numbered outcomes is the lowest-numbered one |
| Probing.DropHead | ping_automatico.py:212 | removing equal first elements from two permutations of each other leaves permutations |
| Probing.SortedPermutationUnique | ping_automatico.py:212 | a sorted permutation of consecutively numbered outcomes is those outcomes in order |
| Probing.CollectedInEntryOrder | ping_automatico.py:212-215 | whatever order the pool finishes in, the sorted rows are the outcomes in entry order |
| Report.Count | ping_automatico.py:279 | definition: the number of results a filter selects, by status and optionally by category |
| Report.Totals | ping_automatico.py:278-280 | definition: the total is the number of results, online the number that succeeded, offline the difference |
| Report.CountAppend | ping_automatico.py:279 | a count over two pieces is the sum of the counts |
| Report.CountRemove | ping_automatico.py:279 | removing one result removes it from every count |
| Report.CountPermutation | ping_automatico.py:279 | a count does not depend on the order the results arrived in |
| Report.CountOnlineOffline | ping_automatico.py:279-280 | every result is online or offline and not both, overall and within a category |
| Report.CountMember | ping_automatico.py:296-300 | a result counts towards its own category |
| Report.TotalsMeaning | ping_automatico.py:278-280 | offline, computed as a difference, is the number of failed results and never negative; online plus offline is the total; the summary does not depend on completion order |
| Report.StatsStep | ping_automatico.py:296-304 | one more result raises its category's total and its online or offline count by one, and leaves every other category alone |
| Report.Tally | ping_automatico.py:300-304 | definition: one more result raises the total, and either the online or the offline figure, by one |
| Report.StatsEmpty | ping_automatico.py:299 | a category of no results has all figures zero |
| Report.NotMetCounts | ping_automatico.py:298-299 | a category not yet met has nothing counted, so creating it at zero is right |
| Report.GroupByCategory | ping_automatico.py:295-304 | the dictionary has exactly the categories of the results, each with its total, online and offline counts; its key order lists each category once |
| Report.GroupStep | ping_automatico.py:296-304 | counting one more result keeps the dictionary equal to the figures of the results read so far |
| Report.StrLess | ping_automatico.py:317 | definition of Python's string order: character by character, with a proper prefix first |
| Report.StrLessIrreflexive | ping_automatico.py:317 | no name sorts before itself |
| Report.StrLessTransitive | ping_automatico.py:317 | the string order is transitive |
| Report.StrLessTotal | ping_automatico.py:317 | of two different names one sorts first |
| Report.InsertName | ping_automatico.py:317 | one insertion step of the sort adds exactly that name |
| Report.InsertNameSorted | ping_automatico.py:317 | inserting a new name into a strictly sorted list keeps it strictly sorted |
| Report.SortNames | ping_automatico.py:317 | sorting keeps exactly the same names |
| Report.SortNamesSorted | ping_automatico.py:317 | sorting distinct names orders them strictly and keeps the same names |
| Report.CategoryReport | ping_automatico.py:295-351 | the category sheet has one row per category, in strictly ascending name order, with that category's figures |
| Report.RowsReport | ping_automatico.py:317-331 | one row per sorted name, each holding that name's figures, is the sheet |
| Report.FirstRowLeast | ping_automatico.py:317 | the first row names the least category |
| Report.SameFirstRow | ping_automatico.py:317 | two sheets for the same results start with the same row |
| Report.CategoriesEmpty | ping_automatico.py:295-304 | there are no categories exactly when there are no results |
| Report.ReportEmpty | ping_automatico.py:317 | the sheet is empty exactly when there are no categories |
| Report.CategoryReportUnique | ping_automatico.py:295-351 | the sheet is determined by the results: two sheets for the same results are equal |
| Report.CategoriesSnoc | ping_automatico.py:297 | one more result adds its category |
| Report.StatsSnoc | ping_automatico.py:296-304 | one more result of another category leaves a category's figures alone |
| Report.RestOfCategories | ping_automatico.py:317 | removing one category's results keeps every other category |
| Report.RestOfStats | ping_automatico.py:317-331 | removing one category's results keeps every other category's figures |
| Report.RestOfMeaning | ping_automatico.py:317-331 | both of the above together |
| Report.RestOfDrops | ping_automatico.py:317 | removing a category's results removes that category |
| Report.RestIsReport | ping_automatico.py:317-351 | the sheet without its first row is the sheet of the other categories |
| Report.CategoriesPermutation | ping_automatico.py:295-304 | the categories do not depend on completion order |
| Report.ReportPermutation | ping_automatico.py:295-351 | the sheet does not depend on the order in which the pool returned the results |
| Report.RowFigures | ping_automatico.py:338 | every row counts at least one host, so the percentage never divides by zero, and its total is its online plus offline counts |
| Report.CountSplitOff | ping_automatico.py:279 | the results of one category plus all the others are all the results |
| Report.ReportSums | ping_automatico.py:278-331 | each column of the sheet adds up to the matching overall count |
| Report.ReportCoversAll | ping_automatico.py:278-331 | the totals column adds up to the number of results; the online and offline columns add up to the summary's online and offline |
| Report.CountEvery | ping_automatico.py:278 | counting every result gives their number |
| Pipeline.MaxWorkersAsWritten | ping_automatico.py:404 | definition: `min(50, total)`, the as-written half of the finding below |
| Pipeline.AsWrittenRefusesNoEntries | ping_automatico.py:404-408 | as written, a file with no usable entry makes the pool refuse `max_workers=0` |
| Pipeline.AsWrittenRefusesEmptyFile | ping_automatico.py:404-408 | as written, an empty file makes the pool refuse to start |
| Pipeline.MaxWorkers | ping_automatico.py:404 | the corrected count is between 1 and 50, at most the number of hosts when there is one, and equal to `min(50, total)` then |
| Pipeline.PoolAlwaysStarts | ping_automatico.py:404-408 | with the corrected count the pool starts for every file, with at most 50 workers |
| Pipeline.Run | ping_automatico.py:365-432 | the pool is created with the corrected worker count and starts with 1 to 50 workers; the first sheet holds the outcomes of the unique entries in entry order; the summary and the final summary are the totals of those outcomes; the second sheet is their category sheet |
| Pipeline.RowsAreEntries | ping_automatico.py:400-415 | row i of the first sheet is unique entry i + 1 with its outcome |
| Pipeline.EmptyFileReport | ping_automatico.py:278-304 | an empty file gives no rows, all-zero figures and an empty category sheet |

## Left out

- `ping_host` (lines 115-138) runs the system `ping` with platform-specific flags and a timeout. It
  is the parameter `probe`, so any mix of answers is covered, but the subprocess, the flags and the
  timeouts are not modelled.
- Threads, the print lock and `ThreadPoolExecutor` scheduling: completion order is a free choice
  in `CollectResults`. Nothing about timing or parallelism is modelled.
- Pipeline.StartPool: the behaviour of `ThreadPoolExecutor`'s constructor (line 408), which
  refuses a worker count that is not positive, is taken as given and not proved.
- The `except` branch at lines 415-416 is not modelled. `ping_host` catches its own exceptions
  (lines 135-138), so no future raises there.
- Reading the file (`open` with `errors='ignore'`, UTF-8 decoding, line splitting) is left out.
  The file is given as its sequence of lines.
- Logging, timestamps, the elapsed time and the file names built from the clock are left out.
- The workbook: cell values, fills, fonts, borders, column widths and saving. Only the figures the
  sheets hold are modelled.
- The percentage column (line 338) is left out because it is floating point, and so are its
  colour thresholds (lines 342-349). `RowFigures` proves its division is always defined.
- The category listing that `main` logs (lines 389-393) is left out, because it is only logged.
- Character classes are ASCII only. Whitespace is the characters 9-13 and 28-32 that
  `str.isspace` accepts below 128; digits are `0`-`9`; `upper()` maps only `a`-`z`. Unicode
  whitespace, digits and case mapping are not modelled.
- Python's string order is modelled as lexicographic order on characters, for the category names
  sorted at line 317.

## Findings

| source | as written | input that shows it | evidently intended | confidence | as-written member | corrected member |
|---|---|---|---|---|---|---|
| ping_automatico.py:404-408 | `max_workers = min(50, total)` is 0 when no entry survives parsing, and `ThreadPoolExecutor(max_workers=0)` raises `ValueError`, so `main` stops before writing any report | an empty hosts file, or one holding only comment lines | at least one worker, so the empty report and the zero summary are produced | not executed | Pipeline.AsWrittenRefusesEmptyFile | Pipeline.PoolAlwaysStarts |
