# Manifest reconciliation, modelled in Dafny

Two utility scripts reconcile a directory of artifact files against a JSON
manifest of identifiers (`repos.json`). Each script derives a key from every
identifier: the text after its last `.`. It strips the extension from the
names of regular files; cleanup_input.py compares any other entry by its full
name, and filter.py skips it. Then it decides which entries stay and which go.

- `filter.py` collects names from the manifest with a fallback chain of field
  names. It lower-cases both sides unless `--case-sensitive` is given, and it
  classifies regular files only. It exits with status 1, 2 or 3 on an unreadable
  manifest, an empty manifest or a missing input directory. It deletes the
  non-matching files only under `--delete-non-matching`.
- `cleanup_input.py` upper-cases the manifest segments but compares entry names
  as they are. It considers files and directories alike and never schedules
  `.DS_Store`. It asks for a `y`/`Y` before deleting anything, then counts the
  successes and failures of the deletions.

The model keeps the two scripts apart, because they differ. Everything the
scripts learn from the outside becomes an input:

- the decoded JSON value, with a three-way manifest state: absent, unreadable or
  decoded;
- the directory listing, with a four-way directory state: missing, not a
  directory, a directory whose listing fails, or a listing of entries with their
  kinds;
- the reply to the prompt, or end of file when standard input is closed;
- an oracle saying whether each deletion succeeds;
- a function `pyStr` standing for Python's `str()` on a JSON value that is not
  a string.

Modules:

- `Text` (text.dfy) holds Python's `strip`, `rfind`, `split(".")[-1]` and
  ASCII `lower`/`upper`.
- `Seqs` (seqs.dfy) holds order-preserving deduplication, filtering, filter-map,
  set building and "first candidate that applies".
- `Json` (json.dfy) holds the decoded JSON value.
- `Paths` (paths.dfy) holds the base that `os.path.splitext` returns (not the
  extension) and `PurePath.stem`.
- `Workspace` (workspace.dfy) holds entries, the directory and manifest states,
  and the best-effort deletion loop.
- `Filter` (filter.dfy) models filter.py.
- `Cleanup` (cleanup.dfy) models cleanup_input.py.

## Model

| member | source | states |
|---|---|---|
| Text.Strip | filter.py:9 | `str.strip()`: the result is a contiguous middle of the input with only whitespace (Python's `isspace` set) cut from each end; it has no surrounding whitespace and is empty exactly when the input is all whitespace |
| Text.StripOfStripped | filter.py:9 | text that has no surrounding whitespace is left unchanged, so stripping twice is stripping once |
| Text.RFind | filter.py:44 | the index of the last occurrence of the character, or -1 when it does not occur: no occurrence lies after the index |
| Text.AfterLastDot | filter.py:44 | the ending holds no `.`, is a suffix of the name, and is either the whole name or is preceded by a `.` |
| Text.AfterLastDotUnique | filter.py:44 | those three facts determine the ending: any dot-free suffix that is the whole name or follows a `.` is the ending |
| Text.AfterLastDotExample | filter.py:40 | `a.b.c` gives `c`, not `b.c`; `abc` gives `abc` |
| Text.StripIsUnique | filter.py:9 | those facts determine `strip()`: any non-empty text without surrounding whitespace that sits in the input with only whitespace around it is the stripped input |
| Text.Lower | filter.py:81 | `str.lower()` on ASCII: every upper-case letter becomes the letter 32 code points above it, every other character stays, and the length is unchanged |
| Text.Upper | cleanup_input.py:22 | `str.upper()` on ASCII: every lower-case letter becomes the letter 32 code points below it, every other character stays, and the length is unchanged |
| Text.LowerFacts | filter.py:81 | lower-casing leaves no upper-case ASCII letter, keeps every other character in place, and is idempotent |
| Text.UpperFacts | cleanup_input.py:22 | upper-casing leaves no lower-case ASCII letter and keeps every other character, `.` in particular, in place |
| Text.LowerEqualIff | filter.py:81-93 | two strings lower-case to the same text exactly when they have the same length and agree character by character up to ASCII case |
| Seqs.Dedup | filter.py:30-37 | the `seen`-set loop: no duplicates, exactly the input's elements, no longer than the input, in first-occurrence order |
| Seqs.DedupOfDistinct | filter.py:30-37 | a list without duplicates is its own deduplication, so deduplication is idempotent |
| Seqs.Select | cleanup_input.py:70-74 | the list a loop builds by appending the elements that pass a test: exactly those elements, no longer than the input |
| Seqs.SelectOfOne | cleanup_input.py:70-74 | one element is kept exactly when it passes the test |
| Seqs.SelectConcat | cleanup_input.py:70-74 | filtering a concatenation is concatenating the filtered parts, so the loop keeps the passing elements in input order and as often as they occur |
| Seqs.SelectCounts | filter.py:88-97 | each passing element occurs in the result as often as in the input, and no other element occurs |
| Seqs.SelectSelect | cleanup_input.py:66-74 | filtering the listing and then filtering again is one filter by the conjunction of the two tests |
| Seqs.SelectPartition | filter.py:88-97 | two disjoint tests that together cover a third split its selection into two lists with the same elements, counted with multiplicity |
| Seqs.FilterMap | filter.py:14-22 | the `names.append` loop over a list, each element appending at most one value: never longer than the list; `FilterMapOfOne`, `FilterMapConcat` and `FilterMapMembers` fix its contents, order and repetitions |
| Seqs.FilterMapOfOne | filter.py:13-22 | one element contributes its value when it yields one, and nothing otherwise |
| Seqs.FilterMapConcat | filter.py:13-22 | mapping a concatenation is concatenating the mapped parts, so values come in element order with every repetition |
| Seqs.FilterMapMembers | filter.py:13-22 | a name is collected from a list exactly when some item of the list yields it |
| Seqs.SetOf | cleanup_input.py:57-60 | the `valid_names.add` loop, one value per element: the set has no more values than the list has elements; `SetOfMembers` fixes its contents |
| Seqs.SetOfMembers | cleanup_input.py:57-60 | a value is in the set a loop fills exactly when some element yields it |
| Seqs.FirstWhere | filter.py:19-22 | the `for ... break` loop: the index found passes the test and no earlier one does; with no index found, none passes |
| Seqs.FirstWhereIs | filter.py:25-28 | the first passing candidate is the only one the loop can stop at |
| Paths.SplitExtBase | filter.py:92 | `os.path.splitext` base: a prefix of the name; it is shorter only when it is cut at the last `.` and something other than dots precedes that `.` |
| Paths.Stem | cleanup_input.py:33 | `Path.stem`: a prefix of the name; it is shorter only when it is cut at the last `.` and that dot is neither the first nor the last character |
| Paths.StemMatchesSplitExt | cleanup_input.py:33 | on names with no dot, or whose first and last characters are not dots, `stem` and the `splitext` base coincide |
| Paths.StemSplitsPlainName | cleanup_input.py:25-34 | such a name with a dot is its non-empty stem, a `.` and its final extension; a name without a dot is its own stem |
| Paths.StemExample | cleanup_input.py:30 | `cve-2024-56827.json` has the stem `cve-2024-56827` |
| Workspace.DeleteEach | cleanup_input.py:99-110 | every scheduled item is attempted exactly once, in order; a failure does not stop the rest; each outcome is the filesystem's |
| Workspace.Tally | cleanup_input.py:96-110 | the removed count is the number of successful attempts, the failed count the number of failures, and together they count every attempt |
| Filter.Candidates | filter.py:18-24 | the fields tried: the given key alone when it is non-empty; the defaults when no key is given or the key is the empty string, which Python treats as false |
| Filter.EmptyKeyKeepsDefaults | filter.py:15-24 | `--json-key ""` keeps the default item and wrapper fields, yet a bare string still yields no name because the key is not `None` |
| Filter.Added | filter.py:6-11 | `None` adds nothing; any other value adds nothing exactly when its text (the string itself, or `str()` of it) is all whitespace, and otherwise adds a non-empty middle part of that text with no surrounding whitespace and only whitespace around it, which `Text.StripIsUnique` shows is its `strip()` |
| Filter.ItemName | filter.py:13-22 | an item yields a name only if it is a bare string with no key given, or an object; a bare string with no key yields nothing exactly when it is all whitespace, and otherwise its stripped middle |
| Filter.ObjectItemUsesFirstPresentField | filter.py:17-22 | an object item takes what `add` makes of its first present candidate field, even when that adds nothing |
| Filter.ObjectItemWithoutFields | filter.py:17-22 | an object item with none of the candidate fields yields nothing |
| Filter.ListNames | filter.py:13-22 | the raw names of a list: each is non-empty and stripped, and a name occurs exactly when some item yields it |
| Filter.ListNamesOfItem | filter.py:13-22 | an empty list names nothing; a one-item list names what that item yields |
| Filter.ListNamesConcat | filter.py:13-22 | the names of two lists read in turn are the first list's names followed by the second's, duplicates included |
| Filter.ArrayNames | filter.py:30-37 | the distinct names of a list: no duplicates, the same names as the raw list, in first-occurrence order |
| Filter.CollectNames | filter.py:3-37 | `collect_names`: no duplicates, every name non-empty and stripped; a list yields exactly the names its items yield, in order of first occurrence among the raw names; a value that is neither a list nor an object yields nothing |
| Filter.WrapperNames | filter.py:23-37 | the names of a wrapping object are distinct, non-empty and stripped |
| Filter.WrapperUsesFirstListField | filter.py:23-28 | a wrapping object yields what its first list-valued candidate field yields, read with the same key; later candidates are not looked at |
| Filter.WrapperWithoutList | filter.py:23-28 | a wrapping object with no list-valued candidate field yields nothing |
| Filter.EndingsFromNames | filter.py:39-48 | the endings are distinct, dot-free, exactly the endings of the names, in first-occurrence order, no more than the names, and non-empty for a non-empty list of names |
| Filter.EndingsFromNamesIsStable | filter.py:39-48 | deriving endings again from a list of endings returns that list |
| Filter.Fold | filter.py:78-93 | the mode switch: the string itself in case-sensitive mode; otherwise a string equal to it up to ASCII case with no upper-case ASCII letter |
| Filter.FoldMatchIff | filter.py:78-94 | two strings fold to the same key exactly when they are equal (case-sensitive mode) or equal up to ASCII case (default mode) |
| Filter.CaseFoldingExample | filter.py:78-94 | `ABC` and `abc` match by default and do not match in case-sensitive mode |
| Filter.Allowed | filter.py:78-81 | the allowed set holds exactly the folded endings; in case-sensitive mode it holds exactly the endings |
| Filter.EntryKey | filter.py:92-93 | the looked-up key is the `splitext` base itself in case-sensitive mode; otherwise it equals the base up to ASCII case and holds no upper-case ASCII letter |
| Filter.AllowedOfOne | filter.py:78-81 | one ending gives the allowed set holding that ending, lower-cased unless the comparison is case-sensitive |
| Filter.Classify | filter.py:88-97 | the scan loop is the pair of order-preserving selections: regular files whose folded base is allowed, and regular files whose folded base is not |
| Filter.ClassifyPartitionsFiles | filter.py:88-97 | `kept` and `removed` together hold exactly the regular files of the listing, each once; directories and other entries are in neither |
| Filter.KeptIffBaseIsAnEnding | filter.py:78-97 | a file is kept exactly when its folded base equals some folded ending and is removed exactly when it equals none |
| Filter.KeptIffBaseIsSameTextAsEnding | filter.py:78-97 | a file is kept exactly when its base equals some ending, up to ASCII case unless the comparison is case-sensitive |
| Filter.EndingIsAnEndingOfSomeName | filter.py:43-47 | every derived ending is the ending of some name |
| Filter.EndingOfANameIsDerived | filter.py:43-47 | the ending of every name is among the derived endings |
| Filter.EndingMatchIffNameMatch | filter.py:73-81 | some derived ending folds to a key exactly when the ending of some name does |
| Filter.KeptIffBaseMatchesName | filter.py:73-97 | classifying against the endings of a list of names keeps exactly the regular files whose folded base is the folded ending of some name and removes the other regular files |
| Filter.FinishedRunKeepsMatchingFiles | filter.py:67-97 | end to end: a finished run keeps exactly the regular files of the listing whose folded base is the folded ending of some manifest name, and removes exactly the other regular files |
| Filter.RunFilter | filter.py:59-105 | the script's own exits use status 1, 2 or 3; its `sys.exit(1)` happens exactly when the manifest is unreadable; the run crashes in `os.scandir` exactly when there are names and the input directory exists but cannot be listed; a finished run saw a listing; a dry run deletes nothing; otherwise exactly the removed files are attempted, in order |
| Filter.ExitStatuses | filter.py:59-89 | exit 2 exactly when the manifest yields no names, exit 3 exactly when it yields names and the input path is missing or not a directory, and the run finishes exactly when it yields names and the directory can be listed; the later check for no endings never decides the outcome |
| Filter.DeletesOnlyRemovedFiles | filter.py:99-105 | deletions happen only under `--delete-non-matching`, and only for removed files, never for kept ones |
| Filter.SingleIdentifierNames | filter.py:13-48 | a list holding one stripped identifier yields that identifier, and its ending as the only ending |
| Filter.SingleIdentifierRun | filter.py:59-97 | a dry run on a one-identifier manifest keeps the files whose folded base is the identifier's folded ending and lists the other files as removed |
| Filter.CveEndingAndBases | filter.py:92 | the ending of `pkg.x86.CVE-2024-1234` is `CVE-2024-1234`; the bases of `cve-2024-1234.json` and `other.txt` are `cve-2024-1234` and `other` |
| Filter.BaseDropsLastExtension | filter.py:92 | a name that does not start with a dot and ends in `.ext` has the `splitext` base without `.ext` |
| Filter.CveFolds | filter.py:81 | the case-insensitive fold of `CVE-2024-1234` and of `cve-2024-1234` is `cve-2024-1234` |
| Filter.CveFileSelected | filter.py:88-97 | with the allowed ending `CVE-2024-1234`, `cve-2024-1234.json` is kept and `other.txt` is removed |
| Filter.CveFileKeptCaseInsensitively | filter.py:59-97 | the whole dry run on manifest `["pkg.x86.CVE-2024-1234"]` keeps `cve-2024-1234.json` and removes `other.txt` |
| Cleanup.ExtractLastSegment | cleanup_input.py:15-22 | the segment is the text after the last `.` (the whole item without one), character by character upper-cased: no `.` and no lower-case ASCII letter in it |
| Cleanup.ExtractLastSegmentIsIdempotent | cleanup_input.py:22 | a segment is its own segment |
| Cleanup.SegmentExample | cleanup_input.py:19-20 | `secb.x86_64.openjpeg.cve-2024-56827` gives `CVE-2024-56827` |
| Cleanup.UpperExample | cleanup_input.py:22 | `cve-2024-56827` and `cve-1` upper-case to `CVE-2024-56827` and `CVE-1` |
| Cleanup.ShortSegmentExample | cleanup_input.py:22 | `o.cve-1` gives `CVE-1` |
| Cleanup.NameWithoutExtension | cleanup_input.py:25-34 | a directory or other entry keeps its full name; a file's name loses its final extension, which the stem and the ending rebuild for names with no leading or trailing dot; a file name without a dot is kept whole |
| Cleanup.NameWithoutExtensionExample | cleanup_input.py:29-30 | the file `cve-2024-56827.json` compares as `cve-2024-56827`, a directory of that name as its full name |
| Cleanup.ValidNames | cleanup_input.py:57-60 | iterating over a list succeeds exactly when every item is a string, and the set is then exactly the items' segments; an object gives exactly its keys' segments; a string gives exactly the segments of its characters; a null, boolean or number cannot be iterated; no valid name holds a `.` |
| Cleanup.ListSegments | cleanup_input.py:58-60 | iterating over a list succeeds exactly when every item is a string (`split` fails on anything else), and the set is then exactly the items' segments |
| Cleanup.Segments | cleanup_input.py:58-60 | every string of the list contributes its segment and nothing else is in the set |
| Cleanup.KeySegments | cleanup_input.py:58-60 | iterating over an object gives exactly the segments of its keys |
| Cleanup.CharSegments | cleanup_input.py:58-60 | iterating over a string gives exactly the segments of its characters |
| Cleanup.ValidNamesOfOne | cleanup_input.py:57-60 | a one-string manifest gives exactly that string's segment |
| Cleanup.ValidNamesExample | cleanup_input.py:57-60 | the manifest `["o.cve-1"]` gives the valid names `{"CVE-1"}` |
| Cleanup.ToRemove | cleanup_input.py:66-74 | an entry is scheduled exactly when it is listed, is not `.DS_Store`, and its name without extension is not a valid name; listing order is kept |
| Cleanup.ConfirmedIff | cleanup_input.py:89-90 | the reply confirms exactly when it is `y` or `Y` |
| Cleanup.RunCleanup | cleanup_input.py:42-110 | a missing manifest or input directory ends the run first; a cancelled run got a reply that does not confirm, and a completed run got one that does; both had something scheduled; a completed run attempted each scheduled entry once, in order, and its counts add up to the number scheduled |
| Cleanup.PromptAndDeletionGuards | cleanup_input.py:42-92 | the prompt is answered exactly when the run gets as far as a non-empty removal list and standard input is not at end of file; deletion happens exactly when that list exists and the answer is `y` or `Y`, and on exactly that list; the run reports nothing to remove exactly when the list is empty, and crashes exactly when both paths exist but the manifest cannot be decoded or iterated, the input path is not a directory or cannot be listed, or the prompt meets end of file |
| Cleanup.UnlistableOrClosedInputCrashes | cleanup_input.py:53-89 | with the manifest present, an input directory that cannot be listed crashes at `iterdir()` whatever the manifest holds, and end of file at the prompt crashes `input()` once something is scheduled |
| Cleanup.DeletionCounts | cleanup_input.py:94-110 | after a confirmed run the attempts are the deletion loop over the scheduled entries, and the counts are the numbers of successes and failures |
| Cleanup.StemsExample | cleanup_input.py:32-33 | the files `cve-1.json` and `CVE-1.json` compare as `cve-1` and `CVE-1` |
| Cleanup.RemovalTestExample | cleanup_input.py:66-74 | against the valid name `CVE-1`, `cve-1.json` fails to match, `CVE-1.json` matches, `.DS_Store` is exempt |
| Cleanup.RemovalExample | cleanup_input.py:66-74 | of those three entries only `cve-1.json` is scheduled |
| Cleanup.EntryNamesAreNotCaseFolded | cleanup_input.py:57-74 | with the manifest `["o.cve-1"]`, the file `cve-1.json` is scheduled for removal while `CVE-1.json` stays: segments are upper-cased, entry names are not |

## Left out

- JSON decoding (`json.load`) is not modelled. Both scripts receive a decoded
  `JsonValue`, and a file that cannot be opened or decoded is the `Unreadable`
  manifest state.
- Python's `str()` of a non-string JSON value (numbers, booleans, lists, objects
  passed to `add` in filter.py) is the parameter `pyStr`. The model does not
  define how Python formats such values.
- Filesystem calls (`os.path.isdir`, `os.scandir`, `Path.exists`, `iterdir`,
  `is_file`, `is_dir`, `os.remove`, `unlink`, `shutil.rmtree`) are replaced by
  the directory state, the entry kinds and the deletion oracle `deletes`.
  - The scan order of the directory is the order of the listing given.
  - The choice between `rmtree` and `unlink` is not modelled: both are one
    attempt whose outcome the oracle decides.
  - Symbolic links count as whatever kind they resolve to.
- The command-line parsing (`argparse`), the interactive `input()` prompt and
  all console output are not modelled. This includes the summary lines, the
  20-item preview, the progress throttling (first 10, then every 100th) and the
  `KEEP`/`REMOVE`/`DELETED` report. Flags and the reply are parameters.
- Text.Lower, Text.Upper: `lower()` and `upper()` are modelled on
  ASCII letters only. Python's full Unicode case mapping is not modelled;
  non-ASCII characters are left as they are.
- Paths.Stem: follows `PurePath.stem` as CPython 3.8 to 3.12 define it. Later
  versions treat a name ending in `.` differently, and that rule is not
  modelled. The two notions of extension are proved to agree only on names whose
  first and last characters are not dots.
- Filter.RunFilter: a run that reaches the deletion loop is reported as
  `Finished`. The exit status 0 and the printed paths are not modelled. A listing
  failure on an existing directory is the outcome `Crashed`; the interpreter's
  exit status 1 for that traceback is not folded into `Exit(1)`, which stands
  only for the script's own `sys.exit(1)`.
- Cleanup.RunCleanup: every uncaught exception gives the single outcome
  `Crashed`. This covers JSON that cannot be decoded, a manifest that cannot be
  iterated, a list item that is not a string, an input path that exists but
  is not a directory or cannot be listed, and end of file at the prompt. The
  exception types are not modelled.
- Re-running a dry run on an unchanged directory gives the same result. This
  holds because every operation here is a function of its inputs; there is no
  separate lemma for it.
- No single behaviour is modelled for the two scripts together, because they
  differ:
  - filter.py ignores directories and does not exempt `.DS_Store`;
    cleanup_input.py considers directories and never schedules `.DS_Store`.
  - filter.py lower-cases both sides unless asked not to; cleanup_input.py
    upper-cases only the manifest side and compares entry names as they are.
  - filter.py exits with status 1, 2 or 3 on a fatal error; cleanup_input.py
    prints a message and returns normally when a path is missing.
