# SSH process cost report

`sshCost.py` and its near-twin `sshCost2.py` report what the SSH processes
on a host cost. They run `ps -eo pid,user,pcpu,pmem,rss,vsz,cmd`. Each
output line that mentions "ssh" in any case, and mentions neither "grep"
nor "ps -eo", is stripped. It is split on runs of whitespace into at most
seven pieces. A line that gives exactly seven pieces becomes a record of
pid, user, cpu%, mem%, RSS (KB), VSZ (KB) and command. Any other line is
skipped without a message. The script then:

- stops with "No SSH processes found." when no record was collected;
- otherwise totals the records;
- prints one row per record, highest cpu% first, with the sizes shown in
  KB, MB, GB or TB;
- prints a summary of the totals.

The two scripts differ only in how they call `ps` and how they print, so
one model covers both.
The table below cites `sshCost.py`. The same code sits in `sshCost2.py` at
these lines:

- the parsing loop: 14-29 (22-37 in the first script);
- `get_ssh_processes`: 5-32 (12-40);
- `calculate_totals`: 34-50 (42-58);
- `format_size`: 52-58 (60-66);
- the sort: 75 (83);
- `main`: 60-92 (68-94).

The project has six modules:

- `Results` (`results.dfy`): the `Option` and `Result` wrappers.
- `Text` (`text.dfy`): the string operations the parser relies on.
  - `str.lower`, `in` on strings and `str.strip`.
  - `re.split(r'\s+', s, maxsplit=n)`, given as index scans over the
    string.
  - `int` and `float` on plain decimal text.
- `Processes` (`processes.dfy`): the loop of `get_ssh_processes`. It is
  given as a method, `GetSshProcesses`, proved against the specification
  function `SshProcesses`. A `float`/`int` rejection is a `ValueError`
  that nothing catches, so it is a `Failure` result.
- `Totals` (`totals.dfy`): `calculate_totals`, given as a loop over the
  records.
- `SizeFormat` (`size_format.dfy`): `format_size`, given as a loop over
  the units. Its result is the number and unit before `%.1f` rounding.
- `Report` (`report.dfy`): the stable descending sort by cpu%, and `main`
  as `RunScript` against the reference function `RunOf`. It also holds a
  worked example: a heading and one `ps` row, parsed and reported.

Percentages are exact reals. Sizes are natural numbers of KB.

## Model

| member | source | states |
|---|---|---|
| Text.Lower | sshCost.py:24 | `line.lower()`: a string of the same length in which exactly the letters A to Z change, each to its lower case |
| Text.Contains | sshCost.py:24 | `sub in s`: sub is a prefix of s or of one of its suffixes; a contained string is never longer than s |
| Text.LowerSshAt | sshCost.py:24 | the lower-cased line has "ssh" at position i exactly when the line has s/S, s/S, h/H there |
| Text.ContainsIffOccurs | sshCost.py:24 | a string contains a substring exactly when the substring occurs at some index |
| Text.Strip | sshCost.py:26 | `strip()` yields a string with no leading or trailing whitespace that is a slice of the line with only whitespace cut on either side |
| Text.StripKeepsStripped | sshCost.py:26 | stripping an already stripped string changes nothing |
| Text.StripPadded | sshCost.py:26 | a non-empty stripped string with whitespace added on both sides strips back to itself |
| Text.SplitFrom | sshCost.py:26 | from position k, cuts off the word up to the next whitespace run and skips the run, at most `splits` times, and keeps the rest whole as the last piece |
| Text.SplitWs | sshCost.py:26 | `re.split(r'\s+', s, maxsplit=n)` on a stripped line: `SplitFrom` from the start; the Split rows below state its properties |
| Text.SeparatorsAreRuns | sshCost.py:26 | every separator `re.split(r'\s+')` cuts at is a non-empty run of whitespace |
| Text.SplitRejoin | sshCost.py:26 | the pieces interleaved with the separators give back the split string |
| Text.SplitWordsHaveNoSpace | sshCost.py:26 | every piece but the last contains no whitespace |
| Text.SplitLastPiece | sshCost.py:26 | there are between 1 and maxsplit+1 pieces, and the last piece is a suffix of the string |
| Text.SplitStopsAtLastRun | sshCost.py:26 | when fewer than maxsplit cuts were made, the last piece contains no whitespace either |
| Text.SplitCutsWholeRuns | sshCost.py:26 | every piece after the first starts right after a whole whitespace run |
| Text.SplitStrippedPieces | sshCost.py:26 | splitting a stripped non-empty string yields non-empty pieces that are themselves stripped |
| Text.SplitCount | sshCost.py:26-27 | the number of pieces is min(whitespace runs, maxsplit) + 1, so `len(parts) == 7` means at least six runs |
| Text.SplitInterleave | sshCost.py:26 | joining non-empty words with whitespace gaps and splitting the result again gives back the words |
| Text.ParseInt | sshCost.py:33-34 | `int()`: a non-empty string of ASCII digits gives its decimal value; anything else is the ValueError case |
| Text.ParseFloat | sshCost.py:31-32 | `float()`: digits, optionally a '.' and more digits, at least one digit in all, give the exact value; anything else is the ValueError case |
| Text.ParseIntShowNat | sshCost.py:33-34 | `int` of a number's decimal digits gives back the number |
| Text.ParseFloatOfInt | sshCost.py:31-32 | `float` accepts every text `int` accepts, with the same value |
| Text.ParseFloatOneDecimal | sshCost.py:31-32 | `float` reads "n.d" as n + d/10 |
| Text.ParseFloatTenths | sshCost.py:31-32 | `float` of a percentage printed to one decimal gives back that many tenths |
| Processes.Selected | sshCost.py:24 | the filter: "ssh" occurs in the lower-cased line, and neither "grep" nor "ps -eo" occurs in the line as it is |
| Processes.SelectedIff | sshCost.py:24 | a line passes the filter exactly when it has s/S, s/S, h/H at some index and "grep" and "ps -eo" occur at no index, so a line with "GREP" is kept |
| Processes.ParseLine | sshCost.py:24-36 | the loop body: skipped unless the line passes the filter and its stripped text splits into exactly seven pieces; otherwise the record the pieces build, or the ValueError they raise |
| Processes.BuildRecord | sshCost.py:28-36 | the dict literal on seven pieces: `float` on pieces 3 and 4, then `int` on pieces 5 and 6, in that order; the result is never a skip |
| Processes.Convert | sshCost.py:31-36 | the dict once the four conversions are known: the first rejected conversion in literal order raises with its piece, otherwise the record; the result is never a skip |
| Processes.ParseLineUsed | sshCost.py:24-27 | a line yields a record or raises exactly when it passes the filter and its stripped text has at least six whitespace runs |
| Processes.ParseLineFields | sshCost.py:28-36 | a record's fields are the seven pieces, with pieces 3 and 4 read by `float` and pieces 5 and 6 by `int` |
| Processes.ParseLineTextFields | sshCost.py:26-36 | pid and user are non-empty and whitespace-free, and cmd is a non-empty, stripped tail of the stripped line |
| Processes.ParseLineRaises | sshCost.py:31-34 | a used line raises exactly when one of the four numeric pieces is rejected, and then with the first rejected piece |
| Processes.BuildRecordRaises | sshCost.py:28-36 | the dict literal raises exactly when some numeric piece is rejected, and the error carries the first rejected piece, as a float error for cpu%/mem% and an int error for rss/vsz |
| Processes.PsColumnsRecord | sshCost.py:28-36 | the columns `ps` prints for a process convert back to exactly that process |
| Processes.ParsePsRow | sshCost.py:24-36 | a `ps` row with any whitespace runs between its columns, before the right-aligned PID and after the command, parses back to the process it was printed from when it passes the filter, and is skipped otherwise |
| Processes.Collect | sshCost.py:22-37 | the loop over the per-line outcomes: a skip keeps the list, a record is appended, a raise ends the loop with its error |
| Processes.ParseLines | sshCost.py:22-37 | the loop over the lines: `Collect` of the loop body's outcome on each line, in order |
| Processes.SshProcesses | sshCost.py:14-40 | `get_ssh_processes`: no records when the `ps` call fails, otherwise `ParseLines` of its lines |
| Processes.CollectResult | sshCost.py:22-37 | with no raising line the result is all records in order, otherwise the error of the first raising line |
| Processes.CollectAppend | sshCost.py:23-36 | processing a + b is processing a and, unless that raised, continuing with b |
| Processes.ParseLinesResult | sshCost.py:22-37 | the lines give a list exactly when no line raises; the list is every record in input order, each from a selected line; otherwise the first raising line's error |
| Processes.GetSshProcesses | sshCost.py:14-40 | the loop computes the specification's result; a failed `ps` gives an empty list |
| Totals.Sum | sshCost.py:42-58 | the totals' count is the number of records |
| Totals.CalculateTotals | sshCost.py:42-58 | the loop's totals are the count plus the field-wise sums over all records |
| Totals.SumAppend | sshCost.py:52-56 | totalling a + b is adding the totals of a and of b |
| Totals.SumPermutation | sshCost.py:52-56 | the totals do not depend on the order of the records |
| Totals.SumBounds | sshCost.py:55-56 | every record's RSS and VSZ are at most the totals |
| SizeFormat.UnitFor | sshCost.py:62-66 | the unit the loop stops at: KB below 1024 KB, MB below 1024² KB, GB below 1024³ KB, TB otherwise |
| SizeFormat.SizeOf | sshCost.py:60-66 | magnitude × unit scale equals the KB given; below 1024 unless TB; at least 1 unless KB |
| SizeFormat.FormatSize | sshCost.py:60-66 | the unit loop yields exactly `SizeOf` |
| SizeFormat.SizeOfUnique | sshCost.py:62-66 | any magnitude/unit pair with those three properties is the one `format_size` picks |
| SizeFormat.UnitMonotone | sshCost.py:62-66 | a larger size never gets a smaller unit |
| SizeFormat.Boundaries | sshCost.py:62-66 | 1023 KB stays KB; 1024 KB, 1024² KB and 1024³ KB become 1.0 MB, GB and TB |
| Report.ByCpuDescending | sshCost.py:83 | `sorted(processes, key=cpu%, reverse=True)`: an insertion sort that places each record before the first one whose cpu% is not above its own; same length as its input |
| Report.ByCpuNonIncreasing | sshCost.py:83 | the sorted list has cpu% non-increasing |
| Report.ByCpuPermutation | sshCost.py:83 | the sorted list is a permutation of the records |
| Report.ByCpuStable | sshCost.py:83 | records with equal cpu% keep their input order (Python's sort is stable) |
| Report.RunOf | sshCost.py:68-94 | `main`'s reference outcome: a crash on the ValueError, the no-processes message on an empty list, otherwise the sorted rows and the summary of the totals |
| Report.RunScript | sshCost.py:68-94 | `main` computes the reference run: crash on a ValueError, the no-processes message on an empty list, otherwise sorted rows and the summary |
| Report.RunShows | sshCost.py:72-94 | a run crashes exactly when parsing raised and prints the message exactly when no record was found; otherwise it has one row per record, cpu% non-increasing, and the totals of the rows as shown |
| Report.ExampleHeadingSkipped | sshCost.py:24 | the `ps` heading line is filtered out |
| Report.ExampleLineParsed | sshCost.py:24-36 | an ssh client's `ps` row, with the PID right-aligned after leading spaces, parses to its record |
| Report.ExampleRun | sshCost.py:68-94 | heading plus that row: one row with sizes 10.0 MB and 20.0 MB, and a summary of one process |

## Left out

- The `ps` call itself is a parameter. Its output is already split into lines, so `splitlines` is not modelled. A `CalledProcessError` gives the empty list; the message printed for it is not modelled.
- Printing is not modelled: the banner, the column heading, `%.1f` rounding and the column widths. The model stops at the values printed (rows, summary, size magnitude and unit).
- Percentages are exact rationals, not IEEE doubles. In floating point, the sum of cpu% can depend on the order of addition; in the model it does not (`Totals.SumPermutation`).
- Text.ParseFloatOfInt: `float` is modelled only on unsigned decimal text (digits, or digits '.' digits). Signs, exponents, "inf"/"nan", underscores and surrounding whitespace, which Python also accepts, are rejected. `ps` never prints them in these columns.
- Text.ParseIntShowNat: `int` is modelled on unsigned digit strings only, so "-5" or "+5" raise in the model though Python accepts them. RSS and VSZ are never negative.
- Text.Strip: whitespace is tab, line feed, vertical tab, form feed, carriage return and space, which is what Python 2 byte strings use. Python 3's `str.strip` and `\s` also match the separators `\x1c`-`\x1f` and Unicode whitespace such as `\x85` and `\xa0`; those are not covered. `lower()` is modelled on ASCII letters only.
- Text.SplitCount: `SplitWs` with `splits == 0` means "no cut", whereas Python's `maxsplit=0` means "no limit". Only `maxsplit=6` is used.
- `sshCost2.py` calls `check_output` without `universal_newlines`. Under Python 3 it gets bytes, and `'ssh' in line.lower()` raises TypeError. The model follows Python 2 semantics for that script (str lines), where it behaves like the first.
