/** Concrete runs of the gateway, and the behaviour of the dataset listing
    handler next to the listing it was evidently meant to give. */
module Scenarios {
  import opened PyText
  import opened Decimal
  import opened Gateway

  /** The comprehension drops an empty line between two clean names. */
  lemma KeepTwoNamesWithGap(a: string, b: string)
    requires a != [] && IsStripped(a) && b != [] && IsStripped(b)
    ensures StrippedNonBlank([a, "", b]) == [a, b]
  {
    StripOfStripped(a);
    StripOfStripped(b);
    var lines: seq<string> := [a, "", b];
    assert lines[1..] == ["", b] && lines[1..][1..] == [b];
    assert StrippedNonBlank([b]) == [b];
    assert StrippedNonBlank(["", b]) == [b];
  }

  /** An inbox listing of two clean names with an empty line between them,
      each line ended by "\n", gives the two names, in order, and a count of
      two. */
  lemma ListInboxTwoFiles(run: Runner, a: string, b: string)
    requires a != [] && IsStripped(a) && NoBreak(a)
    requires b != [] && IsStripped(b) && NoBreak(b)
    requires run(Command(Ingest, [])) == ProcessResult(Terminated([a, "", b]), "", 0)
    ensures ListInbox(run) == ListEnvelope(true, [a, b], CountMessage(2, Ingest))
  {
    ListingOfTerminated([a, "", b], "", Ingest);
    KeepTwoNamesWithGap(a, b);
  }

  /** The message of a listing of two files for ingestion. */
  lemma TwoFilesMessage()
    ensures CountMessage(2, Ingest) == "2" + " file(s) available for ingestion."
  {
    assert NatToString(2) == "2";
    assert AvailableSuffix(Ingest) == " file(s) available for ingestion.";
  }

  /** The inbox listing "a.txt", empty line, "b.txt", with a final newline. */
  lemma ListInboxExample(run: Runner)
    requires run(Command(Ingest, [])) == ProcessResult("a.txt\n\nb.txt\n", "", 0)
    ensures ListInbox(run) == ListEnvelope(true, ["a.txt", "b.txt"], "2" + " file(s) available for ingestion.")
  {
    var a: string, b: string := "a.txt", "b.txt";
    assert NoBreak(a) && IsStripped(a) && NoBreak(b) && IsStripped(b);
    ExampleInboxText();
    ListInboxTwoFiles(run, a, b);
    TwoFilesMessage();
  }

  /** "a.txt\n\nb.txt\n" is "a.txt", an empty line and "b.txt", one per line. */
  lemma ExampleInboxText()
    ensures Terminated(["a.txt", "", "b.txt"]) == "a.txt\n\nb.txt\n"
  {
    assert Terminated(["b.txt"]) == "b.txt\n";
    assert Terminated(["", "b.txt"]) == "\nb.txt\n";
  }

  /** An inbox listing that starts with an empty line and pads its one entry
      with spaces lists that entry, stripped. */
  lemma ListInboxPaddedEntry(run: Runner)
    requires run(Command(Ingest, [])) == ProcessResult("\n  a.txt \n", "", 0)
    ensures ListInbox(run) == ListEnvelope(true, ["a.txt"], CountMessage(1, Ingest))
  {
    var lines := PaddedEntryText();
    PaddedEntryListed(lines);
    ListingOfTerminated(lines, "", Ingest);
  }

  /** "\n  a.txt \n" is an empty line, then "  a.txt ", one per line. */
  lemma PaddedEntryText() returns (lines: seq<string>)
    ensures lines == ["", "  a.txt "] && Terminated(lines) == "\n  a.txt \n"
    ensures forall n :: 0 <= n < |lines| ==> NoBreak(lines[n])
  {
    lines := ["", "  a.txt "];
    assert lines[1..] == ["  a.txt "];
    assert Terminated(lines[1..]) == "  a.txt \n";
  }

  /** The comprehension keeps "a.txt" alone from an empty line and the line
      "  a.txt ". */
  lemma PaddedEntryListed(lines: seq<string>)
    requires lines == ["", "  a.txt "]
    ensures StrippedNonBlank(lines) == ["a.txt"]
  {
    var name := "a.txt";
    assert IsStripped(name) && IsBlank("  ") && IsBlank(" ");
    assert lines[1] == "  " + name + " ";
    StripOfPadded("  ", name, " ");
    assert lines[1..] == [lines[1]];
    assert StrippedNonBlank(lines[1..]) == [name];
  }

  /** A failed ingest reports the error stream of the run as its message. */
  lemma IngestFileFailure(run: Runner, fileName: string)
    requires run(Command(Ingest, [fileName])) == ProcessResult("", "no such file", 1)
    ensures IngestFile(run, fileName) == MessageEnvelope(false, "no such file")
  {
    StripOfStripped("no such file");
  }

  /** A successful run whose standard output is blank answers with its
      standard error instead. */
  lemma IngestFileFallsBackToStderr(run: Runner, fileName: string, out: string, err: string)
    requires IsBlank(out) && err != [] && IsStripped(err)
    requires run(Command(Ingest, [fileName])) == ProcessResult(out, err + "\n", 0)
    ensures IngestFile(run, fileName) == MessageEnvelope(true, err)
  {
    StripFinalNewline(err);
  }

  /** Every handler reads the result of its own command and of no other: two
      runners that agree on that one command give the same answer, whatever
      they do with every other command. */
  lemma HandlersDependOnlyOnTheirCommand(run1: Runner, run2: Runner, id: string, fileName: string)
    ensures run1(Command(Ingest, [])) == run2(Command(Ingest, []))
            ==> ListInbox(run1) == ListInbox(run2)
    ensures run1(Command(Ingest, [fileName])) == run2(Command(Ingest, [fileName]))
            ==> IngestFile(run1, fileName) == IngestFile(run2, fileName)
    ensures run1(Command(Accession, [])) == run2(Command(Accession, []))
            ==> ListAccession(run1) == ListAccession(run2)
    ensures run1(Command(Accession, [id, fileName])) == run2(Command(Accession, [id, fileName]))
            ==> AccessionFile(run1, id, fileName) == AccessionFile(run2, id, fileName)
    ensures run1(Command(Dataset, [])) == run2(Command(Dataset, []))
            ==> ListDataset(run1) == ListDataset(run2)
    ensures run1(Command(Dataset, [id, fileName])) == run2(Command(Dataset, [id, fileName]))
            ==> MapDataset(run1, id, fileName) == MapDataset(run2, id, fileName)
  {
  }

  /** "\r\n" ends a line as one boundary. */
  lemma SplitLinesCrLf()
    ensures SplitLines("a.txt\r\nb.txt\r\n") == ["a.txt", "b.txt"]
  {
    var lines: seq<string>, ends: seq<string> := ["a.txt", "b.txt"], ["\r\n", "\r\n"];
    assert lines[1..] == ["b.txt"] && ends[1..] == ["\r\n"];
    assert Delimited(lines[1..], ends[1..]) == "b.txt\r\n";
    assert Delimited(lines, ends) == "a.txt\r\nb.txt\r\n";
    SplitLinesOfDelimited(lines, ends);
  }

  /** A lone "\r" before "\r\n" ends a line, and the "\r\n" ends an empty
      one after it. */
  lemma SplitLinesCrThenCrLf()
    ensures SplitLines("a.txt\r\r\nb.txt\n") == ["a.txt", "", "b.txt"]
  {
    var lines: seq<string>, ends: seq<string> := ["a.txt", "", "b.txt"], ["\r", "\r\n", "\n"];
    assert lines[1..] == ["", "b.txt"] && ends[1..] == ["\r\n", "\n"];
    assert lines[2..] == ["b.txt"] && ends[2..] == ["\n"];
    assert Delimited(lines[2..], ends[2..]) == "b.txt\n";
    assert Delimited(lines[1..], ends[1..]) == "\r\nb.txt\n";
    assert Delimited(lines, ends) == "a.txt\r\r\nb.txt\n";
    SplitLinesOfDelimited(lines, ends);
  }

  /** A successful dataset listing raises instead of listing the pending file
      that the evidently intended handler reports. */
  lemma ListDatasetRaisesOnListing(run: Runner, name: string)
    requires name != [] && IsStripped(name) && NoBreak(name)
    requires run(Command(Dataset, [])) == ProcessResult(name + "\n", "", 0)
    ensures ListDataset(run) == AttributeErrorRaised
    ensures ListDatasetFixed(run) == ListEnvelope(true, [name], CountMessage(1, Dataset))
  {
    StripFinalNewline(name);
    SplitLinesOfLine(name);
    StripOfStripped(name);
    assert StrippedNonBlank([name]) == [name];
  }

  /** The message of a listing of one file for dataset mapping. */
  lemma OneDatasetFileMessage()
    ensures CountMessage(1, Dataset) == "1" + " file(s) available for dataset."
  {
    assert NatToString(1) == "1";
    assert AvailableSuffix(Dataset) == " file(s) available for dataset.";
  }

  /** The pending file "f.c4gh": the handler as written raises, the intended
      one answers "1 file(s) available for dataset.". */
  lemma ListDatasetExample(run: Runner)
    requires run(Command(Dataset, [])) == ProcessResult("f.c4gh\n", "", 0)
    ensures ListDataset(run) == AttributeErrorRaised
    ensures ListDatasetFixed(run) == ListEnvelope(true, ["f.c4gh"], "1" + " file(s) available for dataset.")
  {
    var name: string := "f.c4gh";
    assert NoBreak(name) && IsStripped(name);
    assert name + "\n" == "f.c4gh\n";
    ListDatasetRaisesOnListing(run, name);
    OneDatasetFileMessage();
  }

  /** On a failed run the dataset listing as written and as intended agree. */
  lemma ListDatasetAgreesOnFailure(run: Runner)
    requires run(Command(Dataset, [])).exitCode != 0
    ensures ListDataset(run) == Returned(ListDatasetFixed(run))
  {
  }
}
