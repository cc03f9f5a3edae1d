/** The command gateway of the sda-admin HTTP service (app/app.py): each
    endpoint builds one argument list for the external `sda-admin` script, runs
    it, and turns what the run produced into the JSON-shaped answer of that
    endpoint.

    Launching the process is not modelled. A finished run is given as its
    captured standard output, standard error and exit status (ProcessResult),
    and every handler receives the runner as a function from the argument list
    to that triple, so the model says which command each handler runs and
    what it makes of any possible result. */
module Gateway {
  import opened PyText
  import opened Decimal

  /** Path of the external administration script. */
  const SdaScript: string := "./scripts/sda-admin"
  /** Flag that introduces the configuration file. */
  const ConfigFlag: string := "--sda-config"
  /** Configuration file handed to the script. */
  const Conf: string := "s3cmd.conf"

  /** The subcommands of sda-admin the gateway uses. */
  datatype Action = Ingest | Accession | Dataset {
    /** The subcommand as written on the command line. */
    function Name(): string {
      match this
      case Ingest => "ingest"
      case Accession => "accession"
      case Dataset => "dataset"
    }

    /** The word that ends a listing message ("... available for <noun>."). */
    function Noun(): string {
      match this
      case Ingest => "ingestion"
      case Accession => "accession"
      case Dataset => "dataset"
    }
  }

  /** What a finished run of the script left behind. */
  datatype ProcessResult = ProcessResult(stdout: string, stderr: string, exitCode: int)

  /** Runs an argument list to completion. */
  type Runner = seq<string> -> ProcessResult

  /** What `run_cmd` returns: the text of a successful run, or the dictionary
      `{"success": False, "output": ..., "code": ...}` for a failed one (its
      "success" entry is always False, so it is not stored). */
  datatype CommandOutcome = Text(text: string) | Failure(output: string, code: int)

  /** `{"success": ..., "files": [...], "message": ...}` of the listing endpoints. */
  datatype ListEnvelope = ListEnvelope(success: bool, files: seq<string>, message: string)

  /** `{"success": ..., "message": ...}` of the ingest endpoint. */
  datatype MessageEnvelope = MessageEnvelope(success: bool, message: string)

  /** What the dataset listing handler does: return an envelope, or raise
      AttributeError (a str has no `get`), which reaches the HTTP layer as an
      unhandled exception. */
  datatype DatasetListing = Returned(envelope: ListEnvelope) | AttributeErrorRaised

  /** `[SDA_SCRIPT, "--sda-config", CONF, action, *args]`: the script, the
      configuration it is given, the subcommand, then the arguments in order. */
  function Command(action: Action, args: seq<string>): (cmd: seq<string>)
    ensures |cmd| == 4 + |args| && cmd[..3] == [SdaScript, ConfigFlag, Conf]
    ensures cmd[3] == action.Name() && cmd[4..] == args
  {
    [SdaScript, ConfigFlag, Conf, action.Name()] + args
  }

  /** Distinct requests become distinct command lines: the script can tell
      which subcommand was asked for and with which arguments, in order. */
  lemma CommandInjective(a: Action, args: seq<string>, b: Action, brgs: seq<string>)
    requires Command(a, args) == Command(b, brgs)
    ensures a == b && args == brgs
  {
    var c, d := Command(a, args), Command(b, brgs);
    assert c[3] == a.Name() && d[3] == b.Name();
    assert c[4..] == args && d[4..] == brgs;
  }

  /** `run_cmd`: a zero exit status gives the stripped standard output, or the
      stripped standard error when the output is blank; any other status gives
      a failure record with the stripped standard error and the status. */
  function RunCmd(p: ProcessResult): (r: CommandOutcome)
    ensures r.Text? <==> p.exitCode == 0
    ensures r.Text? ==> IsStripped(r.text)
    ensures r.Text? && !IsBlank(p.stdout) ==> r.text == Strip(p.stdout)
    ensures r.Text? && IsBlank(p.stdout) ==> r.text == Strip(p.stderr)
    ensures r.Text? ==> (r.text == [] <==> IsBlank(p.stdout) && IsBlank(p.stderr))
    ensures r.Failure? ==> r.output == Strip(p.stderr) && r.code == p.exitCode
  {
    if p.exitCode == 0 then
      Text(if Strip(p.stdout) != [] then Strip(p.stdout) else Strip(p.stderr))
    else
      Failure(Strip(p.stderr), p.exitCode)
  }

  /** The message that accompanies a successful listing of `n` files: it
      starts with the count, written in decimal, exactly when there are files,
      and is "No files ..." otherwise. */
  function CountMessage(n: nat, action: Action): (msg: string)
    ensures msg != [] && (IsDigit(msg[0]) <==> n > 0)
  {
    if n == 0 then
      assert NoFilesMessage(action)[0] == 'N';
      NoFilesMessage(action)
    else
      var numeral := NatToString(n);
      assert (numeral + AvailableSuffix(action))[0] == numeral[0];
      numeral + AvailableSuffix(action)
  }

  /** "No files available for <noun>." */
  function NoFilesMessage(action: Action): string {
    "No files available for " + action.Noun() + "."
  }

  /** What follows the count: " file(s) available for <noun>." */
  function AvailableSuffix(action: Action): string {
    " file(s) available for " + action.Noun() + "."
  }

  /** The message tells the count: two listings of the same action with the
      same message list the same number of files. */
  lemma CountMessageInjective(n: nat, m: nat, action: Action)
    requires CountMessage(n, action) == CountMessage(m, action)
    ensures n == m
  {
    if n > 0 && m > 0 {
      SuffixCancel(NatToString(n), NatToString(m), AvailableSuffix(action));
      NatToStringInjective(n, m);
    }
  }

  /** A message of a non-empty listing reads "<n> file(s) available for
      <noun>.", where <n> is a decimal numeral without leading zero whose value
      is the count. */
  lemma CountMessageReportsCount(n: nat, action: Action)
    requires n > 0
    ensures exists d :: |d| >= 1 && AllDigits(d) && d[0] != '0' && Value(d) == n
                        && CountMessage(n, action) == d + " file(s) available for " + action.Noun() + "."
  {
    var d := NatToString(n);
    ValueOfNatToString(n);
    assert CountMessage(n, action) == d + " file(s) available for " + action.Noun() + ".";
  }

  lemma SuffixCancel(a: string, b: string, t: string)
    requires a + t == b + t
    ensures a == b
  {
    assert |a| == |b|;
    assert a == (a + t)[..|a|];
    assert b == (b + t)[..|b|];
  }

  /** The message of an empty listing, for each action. */
  lemma EmptyListingMessages()
    ensures CountMessage(0, Ingest) == "No files available for ingestion."
    ensures CountMessage(0, Accession) == "No files available for accession."
    ensures CountMessage(0, Dataset) == "No files available for dataset."
  {
  }

  /** `[line.strip() for line in text.splitlines() if line.strip()]`: at
      most one file per line, each a non-empty single line with no whitespace
      at either end, and no file at all exactly when the text is blank. */
  function ListFiles(text: string): (files: seq<string>)
    ensures |files| <= |SplitLines(text)|
    ensures forall k :: 0 <= k < |files| ==> files[k] != [] && IsStripped(files[k]) && NoBreak(files[k])
    ensures files == [] <==> IsBlank(text)
  {
    var lines := SplitLines(text);
    SplitLinesHaveNoBreaks(text);
    StrippedNonBlankKeepsNoBreak(lines);
    ListedIffNotBlank(text);
    StrippedNonBlank(lines)
  }

  /** Whitespace around a text adds and removes no file: listing the stripped
      text, as the handlers do, lists the same files as listing the text as
      the command wrote it. */
  lemma ListFilesOfStrip(x: string)
    ensures ListFiles(Strip(x)) == ListFiles(x)
  {
    if !IsBlank(x) {
      var a := SkipSpaces(x, 0);
      var b := SkipSpacesBack(x, a, |x|);
      assert Strip(x) == x[a..b];
      assert a < b;
      ListedAfterCut(x, b, 0);
      var t := x[..b];
      ListedFromFirst(t, a, 0);
      assert t[a..] == x[a..b][0..];
      LinesFromShift(t, a, x[a..b], 0);
    }
  }

  /** The listed files are exactly the non-blank lines of the text, stripped,
      in their original order: the k-th file is the k-th non-blank line. */
  lemma ListFilesAreNonBlankLines(text: string)
    ensures var lines, idx := SplitLines(text), NonBlankFrom(SplitLines(text), 0);
            |ListFiles(text)| == |idx|
            && forall k :: 0 <= k < |idx| ==> ListFiles(text)[k] == Strip(lines[idx[k]])
  {
    var lines := SplitLines(text);
    assert lines[0..] == lines;
    StrippedNonBlankFrom(lines, 0);
  }

  /** A listing written one name per line, each name already clean and free of
      line boundaries, comes back as exactly those names. */
  lemma ListFilesOfOneNamePerLine(names: seq<string>)
    requires forall k :: 0 <= k < |names| ==> names[k] != [] && IsStripped(names[k]) && NoBreak(names[k])
    ensures ListFiles(Terminated(names)) == names
  {
    SplitLinesOfTerminated(names);
    StrippedNonBlankKeepsClean(names);
  }

  /** The shared body of the listing handlers: a failure record becomes an
      error envelope with no files, a text becomes its non-blank lines and a
      count message. */
  function ListingEnvelope(o: CommandOutcome, action: Action): (r: ListEnvelope)
    ensures r.success <==> o.Text?
    ensures !r.success ==> r.files == [] && r.message == o.output
    ensures r.success ==> r.files == ListFiles(o.text) && r.message == CountMessage(|r.files|, action)
    ensures forall k :: 0 <= k < |r.files| ==> r.files[k] != [] && IsStripped(r.files[k])
    ensures r.success ==> (r.files == [] <==> r.message == CountMessage(0, action))
  {
    match o
    case Failure(output, _) => ListEnvelope(false, [], output)
    case Text(text) =>
      var files := ListFiles(text);
      if files != [] then
        assert CountMessage(|files|, action) != CountMessage(0, action) by {
          if CountMessage(|files|, action) == CountMessage(0, action) {
            CountMessageInjective(|files|, 0, action);
          }
        }
        ListEnvelope(true, files, CountMessage(|files|, action))
      else ListEnvelope(true, [], CountMessage(0, action))
  }

  /** A successful run whose standard output is a listing written one line per
      entry is answered with the non-blank entries, stripped, in order, and
      their count. When every entry is blank, `run_cmd` falls back to the
      standard error, and its non-blank lines are listed instead. */
  lemma ListingOfTerminated(lines: seq<string>, err: string, action: Action)
    requires forall n :: 0 <= n < |lines| ==> NoBreak(lines[n])
    ensures var files, o := StrippedNonBlank(lines), RunCmd(ProcessResult(Terminated(lines), err, 0));
            && (files != [] ==> ListingEnvelope(o, action) == ListEnvelope(true, files, CountMessage(|files|, action)))
            && (files == [] ==> ListingEnvelope(o, action) == ListEnvelope(true, ListFiles(err), CountMessage(|ListFiles(err)|, action)))
  {
    var out := Terminated(lines);
    SplitLinesOfTerminated(lines);
    ListFilesOfStrip(out);
    ListFilesOfStrip(err);
  }

  /** `list_inbox`: lists the files waiting for ingestion. */
  function ListInbox(run: Runner): (r: ListEnvelope)
    ensures var p := run(Command(Ingest, []));
            && (r.success <==> p.exitCode == 0)
            && (!r.success ==> r.files == [] && r.message == Strip(p.stderr))
            && (r.success && !IsBlank(p.stdout) ==> r.files == ListFiles(p.stdout))
            && (r.success && IsBlank(p.stdout) ==> r.files == ListFiles(p.stderr))
            && (r.success ==> r.message == CountMessage(|r.files|, Ingest))
            && (r.success ==> (r.files == [] <==> IsBlank(p.stdout) && IsBlank(p.stderr)))
            && (r.success ==> (r.files == [] <==> r.message == CountMessage(0, Ingest)))
  {
    var p := run(Command(Ingest, []));
    ListFilesOfStrip(p.stdout);
    ListFilesOfStrip(p.stderr);
    ListingEnvelope(RunCmd(p), Ingest)
  }

  /** `ingest_file`: asks the script to ingest one file and passes its answer
      on as the message, whole. */
  function IngestFile(run: Runner, fileName: string): (r: MessageEnvelope)
    ensures var p := run(Command(Ingest, [fileName]));
            && (r.success <==> p.exitCode == 0)
            && (!r.success ==> r.message == Strip(p.stderr))
            && (r.success ==> IsStripped(r.message))
            && (r.success && !IsBlank(p.stdout) ==> r.message == Strip(p.stdout))
            && (r.success && IsBlank(p.stdout) ==> r.message == Strip(p.stderr))
  {
    match RunCmd(run(Command(Ingest, [fileName])))
    case Failure(output, _) => MessageEnvelope(false, output)
    case Text(text) => MessageEnvelope(true, text)
  }

  /** `list_accession`: lists the files waiting for an accession identifier. */
  function ListAccession(run: Runner): (r: ListEnvelope)
    ensures var p := run(Command(Accession, []));
            && (r.success <==> p.exitCode == 0)
            && (!r.success ==> r.files == [] && r.message == Strip(p.stderr))
            && (r.success && !IsBlank(p.stdout) ==> r.files == ListFiles(p.stdout))
            && (r.success && IsBlank(p.stdout) ==> r.files == ListFiles(p.stderr))
            && (r.success ==> r.message == CountMessage(|r.files|, Accession))
            && (r.success ==> (r.files == [] <==> IsBlank(p.stdout) && IsBlank(p.stderr)))
            && (r.success ==> (r.files == [] <==> r.message == CountMessage(0, Accession)))
  {
    var p := run(Command(Accession, []));
    ListFilesOfStrip(p.stdout);
    ListFilesOfStrip(p.stderr);
    ListingEnvelope(RunCmd(p), Accession)
  }

  /** `accession_file`: gives a file its accession identifier and returns the
      outcome of the run as it is, text or failure record. */
  function AccessionFile(run: Runner, uniqueId: string, fileName: string): (r: CommandOutcome)
    ensures var p := run(Command(Accession, [uniqueId, fileName]));
            && (r.Failure? <==> p.exitCode != 0)
            && (r.Failure? ==> r.output == Strip(p.stderr) && r.code == p.exitCode)
            && (r.Text? ==> IsStripped(r.text))
            && (r.Text? && !IsBlank(p.stdout) ==> r.text == Strip(p.stdout))
            && (r.Text? && IsBlank(p.stdout) ==> r.text == Strip(p.stderr))
  {
    RunCmd(run(Command(Accession, [uniqueId, fileName])))
  }

  /** `list_dataset` as written: `.get` is called on the outcome before its
      type is checked, so a successful run (a str) raises AttributeError, and
      only a failure record gives an envelope. */
  function ListDataset(run: Runner): (r: DatasetListing)
    ensures var p := run(Command(Dataset, []));
            && (r.AttributeErrorRaised? <==> p.exitCode == 0)
            && (r.Returned? ==> r.envelope == ListEnvelope(false, [], Strip(p.stderr)))
  {
    match RunCmd(run(Command(Dataset, [])))
    case Text(_) => AttributeErrorRaised
    case Failure(output, _) => Returned(ListEnvelope(false, [], output))
  }

  /** `list_dataset` as evidently intended: the same listing as the inbox and
      accession handlers, for the dataset subcommand. */
  function ListDatasetFixed(run: Runner): (r: ListEnvelope)
    ensures var p := run(Command(Dataset, []));
            && (r.success <==> p.exitCode == 0)
            && (!r.success ==> r.files == [] && r.message == Strip(p.stderr))
            && (r.success && !IsBlank(p.stdout) ==> r.files == ListFiles(p.stdout))
            && (r.success && IsBlank(p.stdout) ==> r.files == ListFiles(p.stderr))
            && (r.success ==> r.message == CountMessage(|r.files|, Dataset))
            && (r.success ==> (r.files == [] <==> IsBlank(p.stdout) && IsBlank(p.stderr)))
            && (r.success ==> (r.files == [] <==> r.message == CountMessage(0, Dataset)))
  {
    var p := run(Command(Dataset, []));
    ListFilesOfStrip(p.stdout);
    ListFilesOfStrip(p.stderr);
    ListingEnvelope(RunCmd(p), Dataset)
  }

  /** `map_dataset`: adds a file to a dataset and returns the outcome of the
      run as it is, text or failure record. */
  function MapDataset(run: Runner, datasetId: string, fileName: string): (r: CommandOutcome)
    ensures var p := run(Command(Dataset, [datasetId, fileName]));
            && (r.Failure? <==> p.exitCode != 0)
            && (r.Failure? ==> r.output == Strip(p.stderr) && r.code == p.exitCode)
            && (r.Text? ==> IsStripped(r.text))
            && (r.Text? && !IsBlank(p.stdout) ==> r.text == Strip(p.stdout))
            && (r.Text? && IsBlank(p.stdout) ==> r.text == Strip(p.stderr))
  {
    RunCmd(run(Command(Dataset, [datasetId, fileName])))
  }
}
