# sda-admin gateway: result normalisation

The sda-admin gateway (`app/app.py`) is a small HTTP service in front of the
`sda-admin` command-line tool of a secure data archive. Each of the six
endpoints that call `sda-admin` builds one argument list `[SDA_SCRIPT, "--sda-config", CONF, action, args...]`, runs
the script, and reshapes what the run left behind into a JSON answer.

This project models that reshaping and proves what it promises:

- `run_cmd` classifies a finished run. Exit status 0 gives the stripped
  standard output, or the stripped standard error when the output is blank.
  Any other status gives the failure record `{"success": False, "output":
  <stripped stderr>, "code": <status>}`.
- The listing endpoints `list_inbox` and `list_accession` turn the text of a
  run into its non-blank lines, stripped, in order, with a message that
  carries their count. Because `run_cmd` falls back to the standard error,
  a run with blank output lists the non-blank lines of its standard error.
- `list_dataset` holds the same listing code (app/app.py:97-101), but line 95
  calls `.get` on the text of a successful run, so that code never runs: the
  handler raises instead (see Findings).
- `ingest_file` wraps the outcome in `{"success", "message"}`.
- `accession_file` and `map_dataset` return the outcome of the run as it is.

Python's `str.strip()` and `str.splitlines()` are defined explicitly in module
`PyText`, and `f"{n}"` for a count in module `Decimal`:

- Whitespace is the full set for which `str.isspace()` holds.
- Line boundaries are the full set `str.splitlines()` splits on: `\n`, `\r`,
  `\r\n` (one boundary), `\v`, `\f`, `\x1c`, `\x1d`, `\x1e`, `\x85`,
  `\u2028` and `\u2029`.

Module `Gateway` holds the handlers. Module `Scenarios` holds concrete runs,
and the dataset listing handler as written next to the one evidently intended.

The process is not launched. A finished run is a `ProcessResult(stdout,
stderr, exitCode)`. Each handler receives the runner as a function from
argument list to result, so the model fixes which command each handler runs
and what it makes of every possible result.

Two exceptions escape the handlers unhandled in the code. Line 95 raises
AttributeError on every successful dataset listing, before the listing of
lines 97-101 is reached. Line 21 catches only `CalledProcessError`, so a
script that cannot be launched raises out of `run_cmd` and of every handler.
The model follows the code in both.

## Model

| member | source | states |
|---|---|---|
| PyText.Strip | app/app.py:17 | `s.strip()` has no whitespace at either end, and is empty exactly when `s` is all whitespace |
| PyText.StripIsTrim | app/app.py:17 | `s.strip()` is a piece of `s` whose prefix and suffix in `s` are whitespace only |
| PyText.StripOfStripped | app/app.py:17 | a string with no whitespace at either end is left unchanged by `strip()` |
| PyText.StripIdempotent | app/app.py:17 | stripping twice is stripping once |
| PyText.StripFinalNewline | app/app.py:17 | a text clean at both ends (the empty text included) followed by one "\n" strips back to that text |
| PyText.SplitLines | app/app.py:40 | `splitlines()` of a text has no lines exactly when the text is empty |
| PyText.SplitLinesHaveNoBreaks | app/app.py:40 | no line that `splitlines()` returns contains a line boundary |
| PyText.SplitLinesOfLine | app/app.py:40 | a non-empty text without boundaries is one line |
| PyText.SplitLinesOfDelimited | app/app.py:40 | lines each followed by its own boundary, any of the boundary characters or "\r\n", split back into exactly those lines, empty ones included, in order, unless a lone "\r" is followed by an empty line ended by "\n" (the two read as one "\r\n") |
| PyText.SplitLinesOfTerminated | app/app.py:40 | splitting lines written one per line, each followed by "\n", gives back exactly those lines, empty ones included, in order |
| PyText.SplitLinesFinalNewline | app/app.py:40 | one "\n" after a last character that is not a boundary adds no line |
| PyText.SplitLinesOfStrippedTerminated | app/app.py:40 | a listing written one entry per line, then stripped as `run_cmd` does, splits back into all its entries when the first entry starts and the last ends with a non-whitespace character |
| PyText.StrippedNonBlank | app/app.py:40 | the comprehension's result has at most as many entries as there are lines, each non-empty and stripped |
| PyText.NonBlankFrom | app/app.py:40 | the indices of the non-blank lines: all of them, each once, in increasing order |
| PyText.StrippedNonBlankFrom | app/app.py:40 | the k-th listed entry is the k-th non-blank line, stripped, so the order is kept and the count is the number of non-blank lines |
| PyText.StrippedNonBlankKeepsClean | app/app.py:40 | entries that are already non-empty and stripped pass the comprehension unchanged |
| Decimal.NatToString | app/app.py:42 | `f"{n}"` is at least one decimal digit, with no leading zero unless `n` is 0 |
| Decimal.ValueOfNatToString | app/app.py:42 | reading the numeral back gives `n` |
| Decimal.NatToStringInjective | app/app.py:42 | different counts are written differently |
| Gateway.Command | app/app.py:31 | the argument list is the script, "--sda-config", the configuration file, the subcommand, then the arguments in order (the same construction is at lines 52, 66, 83, 93 and 105) |
| Gateway.CommandInjective | app/app.py:31 | the argument list `[SDA_SCRIPT, "--sda-config", CONF, action, *args]` determines the action and the arguments in order (the same construction is at lines 52, 66, 83, 93 and 105) |
| Gateway.RunCmd | app/app.py:14-22 | exit status 0 gives text, any other status a failure record; the text is stripped stdout when stdout is not blank, else stripped stderr, and is empty only when both are blank; the failure record holds stripped stderr and the status |
| Gateway.CountMessageReportsCount | app/app.py:42 | the message of a non-empty listing is a decimal numeral without leading zero whose value is the count, followed by " file(s) available for <noun>." (also lines 77 and 99) |
| Gateway.CountMessageInjective | app/app.py:41-44 | the listing message of one action determines the count it reports |
| Gateway.CountMessage | app/app.py:41-44 | the listing message is never empty and starts with a decimal digit exactly when files were listed (also lines 76-79 and 98-101) |
| Gateway.EmptyListingMessages | app/app.py:44 | the empty-listing messages for ingestion, accession and dataset (also lines 79 and 101) |
| Gateway.ListFiles | app/app.py:40 | the comprehension lists at most one file per line, each non-empty, stripped and free of line boundaries, and lists none exactly when the text is blank |
| Gateway.ListFilesOfStrip | app/app.py:40 | listing the text after `run_cmd` stripped it (line 17) lists the same files as listing the text the command wrote |
| Gateway.ListFilesAreNonBlankLines | app/app.py:40 | the listed files are the non-blank lines of the text, stripped, in order, and as many |
| Gateway.ListFilesOfOneNamePerLine | app/app.py:40 | clean names written one per line are listed as exactly those names |
| Gateway.ListingEnvelope | app/app.py:33-44 | success exactly for a text; a failure record gives no files and its output as message; a text gives its listed files and the message for their count, "No files ..." exactly when none |
| Gateway.ListingOfTerminated | app/app.py:31-44 | a successful run that prints any entries without line boundaries, one per line, is answered with the non-blank entries, stripped, in order, and their count; when every entry is blank, the files listed are those of the standard error |
| Gateway.ListInbox | app/app.py:29-44 | `list_inbox` runs `ingest` with no arguments; success exactly on status 0; a failure gives no files and the stripped stderr; a success lists the files of the stdout as written, or of the stderr when the stdout is blank, none exactly when both are blank, with the message for their count for the word "ingestion" |
| Gateway.IngestFile | app/app.py:50-57 | `ingest_file` runs `ingest <file_name>`; success exactly on status 0, and the message is the text of `run_cmd` unsplit, or the stripped stderr of a failure |
| Gateway.ListAccession | app/app.py:64-79 | `list_accession` runs `accession` with no arguments and answers as `list_inbox` does, for the word "accession" |
| Gateway.AccessionFile | app/app.py:81-83 | `accession_file` runs `accession <unique_id> <file_name>` and returns the outcome of `run_cmd` unchanged |
| Gateway.ListDataset | app/app.py:91-101 | `list_dataset` as written raises AttributeError exactly when the run succeeds; only a failure gives an envelope, with no files and the stripped stderr |
| Gateway.ListDatasetFixed | app/app.py:97-101 | the dataset listing as evidently intended: runs `dataset` with no arguments and answers as `list_inbox` does, for the word "dataset" |
| Gateway.MapDataset | app/app.py:103-105 | `map_dataset` runs `dataset <dataset_id> <file_name>` and returns the outcome of `run_cmd` unchanged |
| Scenarios.KeepTwoNamesWithGap | app/app.py:40 | an empty line between two clean names is dropped |
| Scenarios.ListInboxTwoFiles | app/app.py:30-42 | two clean names with an empty line between them list as those two names with a count of two |
| Scenarios.TwoFilesMessage | app/app.py:42 | the message for two files to ingest is "2 file(s) available for ingestion." |
| Scenarios.ExampleInboxText | app/app.py:40 | "a.txt\n\nb.txt\n" is "a.txt", an empty line and "b.txt", one per line |
| Scenarios.ListInboxExample | app/app.py:30-42 | the output "a.txt\n\nb.txt\n" lists "a.txt" and "b.txt" with the message "2 file(s) available for ingestion." |
| Scenarios.ListInboxPaddedEntry | app/app.py:30-42 | the output "\n  a.txt \n", an empty line and then a padded entry, lists "a.txt" with the message for one file |
| Scenarios.PaddedEntryText | app/app.py:40 | "\n  a.txt \n" is an empty line and "  a.txt ", one per line |
| Scenarios.PaddedEntryListed | app/app.py:40 | the comprehension keeps "a.txt" alone from an empty line and "  a.txt " |
| Scenarios.IngestFileFailure | app/app.py:53-54 | a failed ingest answers with success false and the error text |
| Scenarios.IngestFileFallsBackToStderr | app/app.py:17 | a successful ingest with blank stdout answers with the stripped stderr |
| Scenarios.HandlersDependOnlyOnTheirCommand | app/app.py:31 | each handler gives the same answer under two runners that agree on its own command alone, whatever they do with the other commands (lines 52, 66, 83, 93 and 105 alike) |
| Scenarios.SplitLinesCrLf | app/app.py:40 | "a.txt\r\nb.txt\r\n" splits into "a.txt" and "b.txt": "\r\n" is one boundary |
| Scenarios.SplitLinesCrThenCrLf | app/app.py:40 | "a.txt\r\r\nb.txt\n" splits into "a.txt", an empty line and "b.txt" |
| Scenarios.ListDatasetRaisesOnListing | app/app.py:95 | a successful dataset listing of one clean name raises, where the intended handler lists that name |
| Scenarios.OneDatasetFileMessage | app/app.py:99 | the message for one file to map is "1 file(s) available for dataset." |
| Scenarios.ListDatasetExample | app/app.py:95-99 | the output "f.c4gh\n" makes `list_dataset` raise, where the intended handler answers with ["f.c4gh"] and "1 file(s) available for dataset." |
| Scenarios.ListDatasetAgreesOnFailure | app/app.py:95-96 | on a failed run the dataset listing as written and as intended give the same envelope |

## Left out

- Launching the process (`subprocess.run`). A finished run is an input. A run that cannot be started raises `FileNotFoundError` or `OSError`, which `run_cmd` does not catch, so the model gives it no outcome.
- Decoding of the output under `text=True`, and the translation of "\r\n" and "\r" to "\n" that goes with it. The model accepts any string, so it also covers texts that this translation would not produce.
- FastAPI routing, the pydantic request models and the JSON serialisation of answers, including `read_root`. An empty `file_name`, `unique_id` or `dataset_id` is passed on like any other string.
- `get_public_key`: a file read inside a catch-all handler, with no logic to prove.
- The debug `print` in `list_accession` (app/app.py:68): output only.
- The `isinstance` checks at app/app.py:37, 55 and 72, and the `ERROR_MESSAGE` default of `.get("output", ...)`. `run_cmd` returns only a string or the failure record, and the record always holds "output", so neither can fire.
- `SHARED_DIR`, which only `get_public_key` uses. The values of `CONF` and `SDA_SCRIPT` are copied into the model, but no property depends on them beyond being the same in every command.

## Findings

| source | as written | input that shows it | evidently intended | confidence | as-written member | corrected member |
|---|---|---|---|---|---|---|
| app/app.py:95 | `output.get("success", True)` is called before the type of `output` is checked, and on success `output` is a `str`, which has no `get`: every successful dataset listing raises AttributeError | exit status 0 with stdout "f.c4gh\n" | the listing of lines 97-101 (files ["f.c4gh"], message "1 file(s) available for dataset."), as in `list_inbox` and `list_accession` | not executed | Scenarios.ListDatasetExample | Gateway.ListDatasetFixed |
