/**
 * `main`: fetch the SSH processes, stop with a message when there are none,
 * otherwise total them and show one row per process, highest cpu% first,
 * followed by the summary. The ValueError that `get_ssh_processes` may
 * raise is not caught in `main` either, so it ends the run.
 */
module Report {
  import opened Results
  import opened Text
  import opened Processes
  import opened Totals
  import opened SizeFormat

  /* ---------- sorted(processes, key=cpu%, reverse=True) ---------- */

  /**
   * Puts `p` in front of the first record whose cpu% is not above its own,
   * so that it lands before the records with the same cpu%.
   */
  function Insert(p: Process, t: seq<Process>): (r: seq<Process>)
    ensures |r| == |t| + 1
  {
    if t == [] || t[0].cpu <= p.cpu then [p] + t else [t[0]] + Insert(p, t[1..])
  }

  /**
   * The order in which `main` shows the records: by cpu%, highest first,
   * records with equal cpu% in list order (Python's sort is stable, also
   * with `reverse=True`).
   */
  function ByCpuDescending(ps: seq<Process>): (r: seq<Process>)
    ensures |r| == |ps|
  {
    if ps == [] then [] else Insert(ps[0], ByCpuDescending(ps[1..]))
  }

  predicate NonIncreasingCpu(s: seq<Process>) {
    forall i, j :: 0 <= i < j < |s| ==> s[i].cpu >= s[j].cpu
  }

  /** The records with cpu% `c`, in the order they appear in `s`. */
  function WithCpu(s: seq<Process>, c: real): seq<Process> {
    if s == [] then []
    else (if s[0].cpu == c then [s[0]] else []) + WithCpu(s[1..], c)
  }

  lemma {:induction false} InsertNonIncreasing(p: Process, t: seq<Process>)
    requires NonIncreasingCpu(t)
    ensures NonIncreasingCpu(Insert(p, t))
    ensures Insert(p, t)[0] == p || Insert(p, t)[0] == t[0]
    decreases |t|
  {
    if t != [] && t[0].cpu > p.cpu {
      InsertNonIncreasing(p, t[1..]);
      var r := Insert(p, t);
      assert r == [t[0]] + Insert(p, t[1..]);
      forall i, j | 0 <= i < j < |r| ensures r[i].cpu >= r[j].cpu {
        if i == 0 {
          assert r[j] in Insert(p, t[1..]);
          InsertElements(p, t[1..], r[j]);
        }
      }
    }
  }

  lemma {:induction false} InsertElements(p: Process, t: seq<Process>, x: Process)
    requires x in Insert(p, t)
    ensures x == p || x in t
    decreases |t|
  {
    if t != [] && t[0].cpu > p.cpu {
      if x != t[0] {
        InsertElements(p, t[1..], x);
      }
    }
  }

  lemma {:induction false} InsertMultiset(p: Process, t: seq<Process>)
    ensures multiset(Insert(p, t)) == multiset(t) + multiset{p}
    decreases |t|
  {
    if t != [] && t[0].cpu > p.cpu {
      InsertMultiset(p, t[1..]);
      assert t == [t[0]] + t[1..];
    }
  }

  lemma {:induction false} InsertWithCpu(p: Process, t: seq<Process>, c: real)
    ensures WithCpu(Insert(p, t), c) == (if p.cpu == c then [p] else []) + WithCpu(t, c)
    decreases |t|
  {
    var r := Insert(p, t);
    if t == [] || t[0].cpu <= p.cpu {
      assert r[1..] == t;
    } else {
      assert r[1..] == Insert(p, t[1..]);
      InsertWithCpu(p, t[1..], c);
      if p.cpu == c {
        assert t[0].cpu != c;
      } else if t[0].cpu == c {
        assert WithCpu(r, c) == [t[0]] + WithCpu(Insert(p, t[1..]), c);
      }
    }
  }

  /** The shown order is by cpu%, highest first. */
  lemma {:induction false} ByCpuNonIncreasing(ps: seq<Process>)
    ensures NonIncreasingCpu(ByCpuDescending(ps))
    decreases |ps|
  {
    if ps != [] {
      ByCpuNonIncreasing(ps[1..]);
      InsertNonIncreasing(ps[0], ByCpuDescending(ps[1..]));
    }
  }

  /** The shown rows are the records, each exactly once. */
  lemma {:induction false} ByCpuPermutation(ps: seq<Process>)
    ensures multiset(ByCpuDescending(ps)) == multiset(ps)
    decreases |ps|
  {
    if ps != [] {
      ByCpuPermutation(ps[1..]);
      InsertMultiset(ps[0], ByCpuDescending(ps[1..]));
      assert ps == [ps[0]] + ps[1..];
    }
  }

  /** The sort is stable: records with the same cpu% keep their list order. */
  lemma {:induction false} ByCpuStable(ps: seq<Process>, c: real)
    ensures WithCpu(ByCpuDescending(ps), c) == WithCpu(ps, c)
    decreases |ps|
  {
    if ps != [] {
      ByCpuStable(ps[1..], c);
      InsertWithCpu(ps[0], ByCpuDescending(ps[1..]), c);
    }
  }

  /* ---------- what main prints ---------- */

  /** One printed row: pid, user, cpu%, mem%, RSS and VSZ through `format_size`, command. */
  datatype TableRow = TableRow(pid: string, user: string, cpu: real, mem: real, rss: Size, vsz: Size, cmd: string)

  /** The summary block after the rows. */
  datatype Summary = Summary(count: nat, cpu: real, mem: real, rss: Size, vsz: Size)

  /** What `main` prints after its banner. */
  datatype Output = NoSshProcesses | Table(rows: seq<TableRow>, summary: Summary)

  /** How a run of the script ends: with an uncaught ValueError, or having printed its output. */
  datatype Run = Crashed(error: ValueError) | Printed(output: Output)

  function RowOf(p: Process): TableRow {
    TableRow(p.pid, p.user, p.cpu, p.mem, SizeOf(p.rss), SizeOf(p.vsz), p.cmd)
  }

  function SummaryOf(t: Totals): Summary {
    Summary(t.count, t.cpu, t.mem, SizeOf(t.rssKb), SizeOf(t.vszKb))
  }

  /** The rows for `ps` in the order they are shown. */
  function RowsOf(ps: seq<Process>): (rows: seq<TableRow>)
    ensures |rows| == |ps|
  {
    var sorted := ByCpuDescending(ps);
    seq(|sorted|, i requires 0 <= i < |sorted| => RowOf(sorted[i]))
  }

  /** The reference definition of a run of `main` on what `ps` gave. */
  function RunOf(query: PsQuery): Run {
    match SshProcesses(query)
    case Failure(e) => Crashed(e)
    case Success(ps) =>
      if ps == [] then Printed(NoSshProcesses)
      else Printed(Table(RowsOf(ps), SummaryOf(Sum(ps))))
  }

  /**
   * `main`: an empty list prints "No SSH processes found." and stops;
   * otherwise the totals are computed, every record is shown in sorted
   * order with its sizes formatted, and the summary follows.
   */
  method RunScript(query: PsQuery) returns (run: Run)
    ensures run == RunOf(query)
  {
    var result := GetSshProcesses(query);
    if result.Failure? {
      return Crashed(result.error);
    }
    var processes := result.value;
    if processes == [] {
      return Printed(NoSshProcesses);
    }
    var totals := CalculateTotals(processes);
    var sorted := ByCpuDescending(processes);
    var rows: seq<TableRow> := [];
    var i := 0;
    while i < |sorted|
      invariant 0 <= i <= |sorted|
      invariant |rows| == i
      invariant forall k :: 0 <= k < i ==> rows[k] == RowOf(sorted[k])
    {
      var proc := sorted[i];
      var rss := FormatSize(proc.rss);
      var vsz := FormatSize(proc.vsz);
      rows := rows + [TableRow(proc.pid, proc.user, proc.cpu, proc.mem, rss, vsz, proc.cmd)];
      i := i + 1;
    }
    assert rows == RowsOf(processes);
    var totalRss := FormatSize(totals.rssKb);
    var totalVsz := FormatSize(totals.vszKb);
    return Printed(Table(rows, Summary(totals.count, totals.cpu, totals.mem, totalRss, totalVsz)));
  }

  /**
   * What a run shows: it crashes exactly when parsing raised, prints the
   * no-processes message exactly when no record was collected, and
   * otherwise shows one row per record, highest cpu% first, with a summary
   * that counts the rows and sums the records in the order they are shown.
   */
  lemma RunShows(query: PsQuery)
    ensures RunOf(query).Crashed? <==> SshProcesses(query).Failure?
    ensures RunOf(query) == Printed(NoSshProcesses) <==> SshProcesses(query) == Success([])
    ensures RunOf(query).Printed? && RunOf(query).output.Table? ==>
      var ps := SshProcesses(query).value;
      var t := RunOf(query).output;
      ps != [] &&
      t.summary.count == |t.rows| == |ps| &&
      (forall i, j :: 0 <= i < j < |t.rows| ==> t.rows[i].cpu >= t.rows[j].cpu) &&
      t.summary == SummaryOf(Sum(ByCpuDescending(ps)))
  {
    if SshProcesses(query).Success? && SshProcesses(query).value != [] {
      var ps := SshProcesses(query).value;
      var sorted := ByCpuDescending(ps);
      ByCpuNonIncreasing(ps);
      ByCpuPermutation(ps);
      SumPermutation(ps, sorted);
      var rows := RowsOf(ps);
      forall i, j | 0 <= i < j < |rows| ensures rows[i].cpu >= rows[j].cpu {
        assert rows[i].cpu == sorted[i].cpu && rows[j].cpu == sorted[j].cpu;
      }
    }
  }

  /* ---------- an example run ---------- */

  /**
   * The heading `ps` prints first, and the row of one ssh client as `ps`
   * pads it: the PID right-aligned under its heading, columns separated by
   * runs of spaces.
   */
  const ExampleHeading: string := "    PID USER" + "     %CPU %MEM" + "   RSS    VSZ CMD"
  const ExamplePadding: string := "   "
  const ExampleRow: string :=
    "1234" + " " + ("alice" + "    " + ("2.5" + "  " + ("1.0" + " " + ("10240" + " " + ("20480" + " " + "ssh user@host")))))
  const ExampleLine: string := ExamplePadding + ExampleRow
  const ExampleRecord: Process := Process("1234", "alice", 2.5, 1.0, 10240, 20480, "ssh user@host")

  lemma ExampleHeadingSkipped()
    ensures ParseLine(ExampleHeading) == Skipped
  {
    ExampleHeadingNoSsh();
    NotSelectedSkipped(ExampleHeading);
  }

  lemma ExampleHeadingNoSsh()
    ensures !Contains(Lower(ExampleHeading), "ssh")
  {
    assert 'h' !in ExampleHeading && 'H' !in ExampleHeading;
    LowerWithoutH(ExampleHeading);
    MissingCharNotContained(Lower(ExampleHeading), "ssh", 2);
  }

  lemma LowerWithoutH(s: string)
    requires 'h' !in s && 'H' !in s
    ensures 'h' !in Lower(s)
  {
    forall i | 0 <= i < |s| ensures Lower(s)[i] != 'h' {
      assert s[i] != 'h' && s[i] != 'H';
    }
  }

  lemma NotSelectedSkipped(line: string)
    requires !Selected(line)
    ensures ParseLine(line) == Skipped
  {
  }

  lemma ExampleLineSelected()
    ensures Selected(ExampleLine)
  {
    ExampleLineSsh();
    ExampleLineNoGrepNorPs();
  }

  lemma ExampleLineSsh()
    ensures Contains(Lower(ExampleLine), "ssh")
  {
    assert Lower(ExampleLine)[38..41] == "ssh";
    ContainsIffOccurs(Lower(ExampleLine), "ssh");
    assert OccursAt(Lower(ExampleLine), "ssh", 38);
  }

  lemma ExampleLineNoGrepNorPs()
    ensures !Contains(ExampleLine, "grep") && !Contains(ExampleLine, "ps -eo")
  {
    ExampleLineLacks('g');
    MissingCharNotContained(ExampleLine, "grep", 0);
    ExampleLineLacks('p');
    MissingCharNotContained(ExampleLine, "ps -eo", 0);
  }

  /** Neither 'g' nor 'p' occurs in the example row, so neither word of the filter can. */
  lemma ExampleLineLacks(c: char)
    requires c == 'g' || c == 'p'
    ensures c !in ExampleLine
  {
  }

  /** The example row is the columns of the example record joined by the gaps, written out. */
  lemma ExampleRowLaidOut(w: seq<string>, g: seq<string>)
    requires w == ["1234", "alice", "2.5", "1.0", "10240", "20480", "ssh user@host"]
    requires g == [" ", "    ", "  ", " ", " ", " "]
    ensures Interleave(w, g) == ExampleRow
  {
    InterleaveFrom(w, g, 0);
    InterleaveFrom(w, g, 1);
    InterleaveFrom(w, g, 2);
    InterleaveFrom(w, g, 3);
    InterleaveFrom(w, g, 4);
    InterleaveFrom(w, g, 5);
    assert w[6..] == ["ssh user@host"] && g[6..] == [];
  }

  lemma ExampleColumns(cols: seq<string>)
    requires cols == ["1234", "alice", "2.5", "1.0", "10240", "20480", "ssh user@host"]
    ensures PsColumns("1234", "alice", 25, 10, 10240, 20480, "ssh user@host") == cols
  {
    ExampleTenths();
    ExampleSizesShown();
  }

  lemma ExampleTenths()
    ensures Tenths(25) == "2.5" && Tenths(10) == "1.0"
  {
    assert ShowNat(2) == "2" && ShowNat(1) == "1";
    assert DigitChar(5) == '5' && DigitChar(0) == '0';
  }

  lemma ExampleSizesShown()
    ensures ShowNat(10240) == "10240" && ShowNat(20480) == "20480"
  {
    ShowNatDigit(1, 0);
    ShowNatDigit(10, 2);
    ShowNatDigit(102, 4);
    ShowNatDigit(1024, 0);
    ShowNatDigit(2, 0);
    ShowNatDigit(20, 4);
    ShowNatDigit(204, 8);
    ShowNatDigit(2048, 0);
  }

  /** Appending a digit d to the decimal text of n >= 1 gives that of 10 n + d. */
  lemma ShowNatDigit(n: nat, d: nat)
    requires 1 <= n && d < 10
    ensures ShowNat(10 * n + d) == ShowNat(n) + [DigitChar(d)]
  {
  }

  lemma ExampleFieldsFit(gaps: seq<string>)
    requires gaps == [" ", "    ", "  ", " ", " ", " "]
    ensures NoSpace("1234") && NoSpace("alice") && Stripped("ssh user@host")
    ensures |gaps| == MaxSplit && Gaps(gaps) && AllSpace(ExamplePadding) && AllSpace("")
  {
    assert AllSpace("    ") && AllSpace("  ");
  }

  lemma ExampleLineParsed()
    ensures ParseLine(ExampleLine) == Row(ExampleRecord)
  {
    var cols := ["1234", "alice", "2.5", "1.0", "10240", "20480", "ssh user@host"];
    var gaps := [" ", "    ", "  ", " ", " ", " "];
    ExampleColumns(cols);
    ExampleRowLaidOut(cols, gaps);
    ExampleFieldsFit(gaps);
    ParsePsRow("1234", "alice", 25, 10, 10240, 20480, "ssh user@host", gaps, ExamplePadding, "");
    assert ExamplePadding + ExampleRow + "" == ExampleLine;
    ExampleLineSelected();
  }

  lemma OutcomesOfTwo(first: string, second: string)
    ensures Outcomes([first, second]) == [ParseLine(first), ParseLine(second)]
  {
    var lines := [first, second];
    assert lines[..1] == [first];
    assert [first][..0] == [];
    assert MapLines(ParseLine, [first]) == [ParseLine(first)];
  }

  lemma CollectSkippedThenRow(record: Process)
    ensures Collect([Skipped, Row(record)]) == Success([record])
  {
    var outs := [Skipped, Row(record)];
    assert outs[..1] == [Skipped];
    assert [Skipped][..0] == [];
    assert Collect([]) == Success([]);
    assert Collect([Skipped]) == Success([]);
    assert Collect(outs) == Success([] + [record]);
    assert [] + [record] == [record];
  }

  /** A skipped line followed by a used one gives that one's record. */
  lemma SkippedThenRow(skipped: string, used: string, record: Process)
    requires ParseLine(skipped) == Skipped && ParseLine(used) == Row(record)
    ensures SshProcesses(PsOutput([skipped, used])) == Success([record])
  {
    OutcomesOfTwo(skipped, used);
    CollectSkippedThenRow(record);
  }

  lemma ExampleRecords()
    ensures SshProcesses(PsOutput([ExampleHeading, ExampleLine])) == Success([ExampleRecord])
  {
    ExampleHeadingSkipped();
    ExampleLineParsed();
    SkippedThenRow(ExampleHeading, ExampleLine, ExampleRecord);
  }

  lemma ExampleTotals()
    ensures ByCpuDescending([ExampleRecord]) == [ExampleRecord]
    ensures Sum([ExampleRecord]) == Totals(1, 2.5, 1.0, 10240, 20480)
  {
    assert [ExampleRecord][..0] == [];
    assert [ExampleRecord][1..] == [];
  }

  lemma ExampleSizes()
    ensures SizeOf(10240) == Size(10.0, MB)
    ensures SizeOf(20480) == Size(20.0, MB)
  {
  }

  /**
   * A whole run on the heading and the example row: the heading is
   * skipped, the row becomes the one record, its sizes show as 10.0 MB and
   * 20.0 MB, and the summary counts one process.
   */
  lemma ExampleRun()
    ensures RunOf(PsOutput([ExampleHeading, ExampleLine])) ==
      Printed(Table(
        [TableRow("1234", "alice", 2.5, 1.0, Size(10.0, MB), Size(20.0, MB), "ssh user@host")],
        Summary(1, 2.5, 1.0, Size(10.0, MB), Size(20.0, MB))))
  {
    ExampleRecords();
    ExampleTotals();
    ExampleSizes();
    assert RowsOf([ExampleRecord]) == [RowOf(ExampleRecord)];
  }
}
