/**
 * The part of `get_ssh_processes` between the `ps` call and the return:
 * each line of the process table is filtered, stripped, split into seven
 * fields and turned into a process record, in input order. A numeric field
 * that `float` or `int` rejects raises a ValueError that nothing catches,
 * so it ends the whole call; that is modelled as a `Failure` result.
 */
module Processes {
  import opened Results
  import opened Text

  /** One report row: the dict that `get_ssh_processes` appends. */
  datatype Process = Process(
    pid: string,
    user: string,
    cpu: real,   // cpu%
    mem: real,   // mem%
    rss: nat,    // resident set size, KB
    vsz: nat,    // virtual memory size, KB
    cmd: string)

  /** The ValueError that `float` or `int` raises, with the text it rejected. */
  datatype ValueError = NotAFloat(text: string) | NotAnInt(text: string)

  /** What `subprocess.check_output(['ps', ...])` gave: its lines, or a CalledProcessError. */
  datatype PsQuery = PsFailed(message: string) | PsOutput(lines: seq<string>)

  /** `maxsplit` of the `re.split` call, and the number of fields a row must have. */
  const MaxSplit: nat := 6
  const FieldCount: nat := 7

  /**
   * The filter: the lower-cased line mentions "ssh", and the line as it is
   * (case kept) mentions neither "grep" nor "ps -eo".
   */
  predicate Selected(line: string) {
    Contains(Lower(line), "ssh") && !(Contains(line, "grep") || Contains(line, "ps -eo"))
  }

  /**
   * The filter spelled out: the match on "ssh" ignores case, the exclusions
   * do not, so a line that mentions "GREP" in capitals is kept.
   */
  lemma SelectedIff(line: string)
    ensures Selected(line) <==>
      (exists i :: SshAt(line, i)) &&
      (forall i :: !OccursAt(line, "grep", i)) &&
      (forall i :: !OccursAt(line, "ps -eo", i))
  {
    ContainsIffOccurs(Lower(line), "ssh");
    ContainsIffOccurs(line, "grep");
    ContainsIffOccurs(line, "ps -eo");
    forall i | 0 <= i && i + 3 <= |line| ensures OccursAt(Lower(line), "ssh", i) <==> SshAt(line, i) {
      LowerSshAt(line, i);
    }
  }

  /** What the loop body does with one line: skips it, appends a record, or raises. */
  datatype LineOutcome = Skipped | Row(record: Process) | Raised(error: ValueError)

  /**
   * The dict literal: pid and user verbatim, then `float` on cpu% and mem%
   * and `int` on rss and vsz, in that order (the first rejection raises),
   * then cmd verbatim.
   */
  function BuildRecord(parts: seq<string>): (r: LineOutcome)
    requires |parts| == FieldCount
    ensures !r.Skipped?
  {
    Convert(parts, ParseFloat(parts[2]), ParseFloat(parts[3]), ParseInt(parts[4]), ParseInt(parts[5]))
  }

  /** The dict literal once `float` and `int` have been applied to pieces 3 to 6. */
  function Convert(parts: seq<string>, cpu: Option<real>, mem: Option<real>, rss: Option<nat>, vsz: Option<nat>): (r: LineOutcome)
    requires |parts| == FieldCount
    ensures !r.Skipped?
  {
    if cpu.None? then Raised(NotAFloat(parts[2]))
    else if mem.None? then Raised(NotAFloat(parts[3]))
    else if rss.None? then Raised(NotAnInt(parts[4]))
    else if vsz.None? then Raised(NotAnInt(parts[5]))
    else Row(Process(parts[0], parts[1], cpu.value, mem.value, rss.value, vsz.value, parts[6]))
  }

  /**
   * The loop body on one line of `ps` output: skipped when filtered out or
   * when the stripped line does not split into exactly seven pieces;
   * otherwise the record built from the pieces.
   */
  function ParseLine(line: string): LineOutcome {
    if !Selected(line) then Skipped
    else
      var parts := SplitWs(Strip(line), MaxSplit);
      if |parts| == FieldCount then BuildRecord(parts) else Skipped
  }

  /**
   * A line is used (yields a record or raises) exactly when it passes the
   * filter and its stripped text has at least six whitespace runs, that is
   * at least seven whitespace-separated words; every other line is skipped.
   */
  lemma ParseLineUsed(line: string)
    ensures !ParseLine(line).Skipped? <==> Selected(line) && Runs(Strip(line)) >= MaxSplit
  {
    SplitCount(Strip(line), MaxSplit);
  }

  /**
   * The fields of a record: pid, user and cmd are pieces 1, 2 and 7 of the
   * split stripped line, verbatim, and the four numbers are what `float` and
   * `int` read from pieces 3 to 6.
   */
  lemma ParseLineFields(line: string)
    requires ParseLine(line).Row?
    ensures var parts := SplitWs(Strip(line), MaxSplit); var p := ParseLine(line).record;
      |parts| == FieldCount && p.pid == parts[0] && p.user == parts[1] && p.cmd == parts[6] &&
      ParseFloat(parts[2]) == Some(p.cpu) && ParseFloat(parts[3]) == Some(p.mem) &&
      ParseInt(parts[4]) == Some(p.rss) && ParseInt(parts[5]) == Some(p.vsz)
  {
  }

  /**
   * So pid and user are nonempty words without whitespace, and cmd is the
   * nonempty rest of the stripped line after its sixth whitespace run, kept
   * whole with its inner whitespace.
   */
  lemma ParseLineTextFields(line: string)
    requires ParseLine(line).Row?
    ensures var p := ParseLine(line).record;
      p.pid != [] && NoSpace(p.pid) && p.user != [] && NoSpace(p.user) && p.cmd != [] && Stripped(p.cmd)
    ensures var p := ParseLine(line).record; var s := Strip(line);
      |p.cmd| <= |s| && s[|s| - |p.cmd|..] == p.cmd
  {
    var s := Strip(line);
    var parts := SplitWs(s, MaxSplit);
    ParseLineFields(line);
    SplitWordsHaveNoSpace(s, MaxSplit);
    SplitLastPiece(s, MaxSplit);
    assert s != [];
    SplitStrippedPieces(s, MaxSplit);
    assert parts[0] != [] && parts[1] != [] && parts[6] != [] && Stripped(parts[6]);
  }

  /** Whether `float` (cpu%, mem%: pieces 3 and 4) or `int` (rss, vsz: pieces 5 and 6) accepts piece k. */
  predicate FieldAccepted(parts: seq<string>, k: int)
    requires |parts| == FieldCount && 2 <= k < 6
  {
    if k < 4 then ParseFloat(parts[k]).Some? else ParseInt(parts[k]).Some?
  }

  /** Piece k is the first numeric piece that is rejected. */
  predicate FirstRejected(parts: seq<string>, k: int)
    requires |parts| == FieldCount
  {
    && 2 <= k < 6 && !FieldAccepted(parts, k)
    && (k > 2 ==> FieldAccepted(parts, 2))
    && (k > 3 ==> FieldAccepted(parts, 3))
    && (k > 4 ==> FieldAccepted(parts, 4))
  }

  /**
   * A used line raises exactly when one of its four numeric fields is
   * rejected, and then the error is about the first rejected field (in the
   * order cpu%, mem%, rss, vsz): `NotAFloat` for a percentage, `NotAnInt`
   * for a size, carrying the field's text.
   */
  lemma ParseLineRaises(line: string)
    requires !ParseLine(line).Skipped?
    ensures var parts := SplitWs(Strip(line), MaxSplit);
      |parts| == FieldCount &&
      (ParseLine(line).Raised? <==> exists k :: 2 <= k < 6 && !FieldAccepted(parts, k))
    ensures var parts := SplitWs(Strip(line), MaxSplit);
      ParseLine(line).Raised? ==>
        exists k :: FirstRejected(parts, k) && ParseLine(line).error.text == parts[k] &&
          (ParseLine(line).error.NotAFloat? <==> k < 4)
  {
    var parts := SplitWs(Strip(line), MaxSplit);
    assert ParseLine(line) == BuildRecord(parts);
    BuildRecordRaises(parts);
  }

  lemma BuildRecordRaises(parts: seq<string>)
    requires |parts| == FieldCount
    ensures BuildRecord(parts).Raised? <==> exists k :: 2 <= k < 6 && !FieldAccepted(parts, k)
    ensures BuildRecord(parts).Raised? ==>
      exists k :: FirstRejected(parts, k) && BuildRecord(parts).error.text == parts[k] &&
        (BuildRecord(parts).error.NotAFloat? <==> k < 4)
  {
    if BuildRecord(parts).Raised? {
      var k := RejectedField(parts);
    } else {
      AllFieldsAccepted(parts);
      forall k | 2 <= k < 6 ensures FieldAccepted(parts, k) {
        assert k == 2 || k == 3 || k == 4 || k == 5;
      }
    }
  }

  /** A record that raises names the first rejected field. */
  lemma RejectedField(parts: seq<string>) returns (k: int)
    requires |parts| == FieldCount && BuildRecord(parts).Raised?
    ensures FirstRejected(parts, k) && BuildRecord(parts).error.text == parts[k]
    ensures BuildRecord(parts).error.NotAFloat? <==> k < 4
  {
    if ParseFloat(parts[2]).None? {
      k := 2;
    } else if ParseFloat(parts[3]).None? {
      k := 3;
    } else if ParseInt(parts[4]).None? {
      k := 4;
    } else {
      k := 5;
    }
  }

  /** A record that does not raise had all four numeric fields accepted. */
  lemma AllFieldsAccepted(parts: seq<string>)
    requires |parts| == FieldCount && !BuildRecord(parts).Raised?
    ensures FieldAccepted(parts, 2) && FieldAccepted(parts, 3) && FieldAccepted(parts, 4) && FieldAccepted(parts, 5)
  {
  }

  /** The columns `ps -eo pid,user,pcpu,pmem,rss,vsz,cmd` prints for a process, cpu% and mem% in tenths of a percent. */
  function PsColumns(pid: string, user: string, cpuTenths: nat, memTenths: nat, rss: nat, vsz: nat, cmd: string): seq<string> {
    [pid, user, Tenths(cpuTenths), Tenths(memTenths), ShowNat(rss), ShowNat(vsz), cmd]
  }

  /** A row as `ps` writes it: the columns with the padding `gaps` between them. */
  function PsRow(pid: string, user: string, cpuTenths: nat, memTenths: nat, rss: nat, vsz: nat, cmd: string,
                 gaps: seq<string>): string
    requires |gaps| == MaxSplit
  {
    Interleave(PsColumns(pid, user, cpuTenths, memTenths, rss, vsz, cmd), gaps)
  }

  /** The record built from the columns `ps` prints holds the values it printed. */
  lemma PsColumnsRecord(pid: string, user: string, cpuTenths: nat, memTenths: nat, rss: nat, vsz: nat, cmd: string)
    ensures BuildRecord(PsColumns(pid, user, cpuTenths, memTenths, rss, vsz, cmd)) ==
      Row(Process(pid, user, cpuTenths as real / 10.0, memTenths as real / 10.0, rss, vsz, cmd))
  {
    var cpuText, memText := Tenths(cpuTenths), Tenths(memTenths);
    var rssText, vszText := ShowNat(rss), ShowNat(vsz);
    ParseFloatTenths(cpuTenths);
    ParseFloatTenths(memTenths);
    ParseIntShowNat(rss);
    ParseIntShowNat(vsz);
    BuildRecordOf(pid, user, cpuText, memText, rssText, vszText, cmd,
                  cpuTenths as real / 10.0, memTenths as real / 10.0, rss, vsz);
  }

  /** The record built from seven pieces whose four numbers `float` and `int` accept. */
  lemma BuildRecordOf(pid: string, user: string, cpuText: string, memText: string, rssText: string, vszText: string,
                      cmd: string, cpu: real, mem: real, rss: nat, vsz: nat)
    requires ParseFloat(cpuText) == Some(cpu) && ParseFloat(memText) == Some(mem)
    requires ParseInt(rssText) == Some(rss) && ParseInt(vszText) == Some(vsz)
    ensures BuildRecord([pid, user, cpuText, memText, rssText, vszText, cmd]) ==
      Row(Process(pid, user, cpu, mem, rss, vsz, cmd))
  {
  }

  /** The columns `ps` prints can be joined and split again. */
  lemma PsColumnsJoinable(pid: string, user: string, cpuTenths: nat, memTenths: nat, rss: nat, vsz: nat, cmd: string)
    requires pid != [] && NoSpace(pid) && user != [] && NoSpace(user)
    requires cmd != [] && Stripped(cmd)
    ensures Joinable(PsColumns(pid, user, cpuTenths, memTenths, rss, vsz, cmd))
  {
    assert NoSpace(ShowNat(rss)) && NoSpace(ShowNat(vsz)) by {
      assert forall i :: 0 <= i < |ShowNat(rss)| ==> IsDigit(ShowNat(rss)[i]);
      assert forall i :: 0 <= i < |ShowNat(vsz)| ==> IsDigit(ShowNat(vsz)[i]);
    }
  }

  /**
   * The parser reads back what `ps` wrote: a row, with the padding `ps`
   * puts before the right-aligned PID and any whitespace after the command,
   * gives the record of its columns when it passes the filter, and is
   * skipped otherwise.
   */
  lemma ParsePsRow(pid: string, user: string, cpuTenths: nat, memTenths: nat, rss: nat, vsz: nat, cmd: string,
                   gaps: seq<string>, lead: string, trail: string)
    requires pid != [] && NoSpace(pid) && user != [] && NoSpace(user)
    requires cmd != [] && Stripped(cmd)
    requires |gaps| == MaxSplit && Gaps(gaps)
    requires AllSpace(lead) && AllSpace(trail)
    ensures var line := lead + PsRow(pid, user, cpuTenths, memTenths, rss, vsz, cmd, gaps) + trail;
      ParseLine(line) ==
        if Selected(line) then Row(Process(pid, user, cpuTenths as real / 10.0, memTenths as real / 10.0, rss, vsz, cmd))
        else Skipped
  {
    var cols := PsColumns(pid, user, cpuTenths, memTenths, rss, vsz, cmd);
    var row := Interleave(cols, gaps);
    PsColumnsJoinable(pid, user, cpuTenths, memTenths, rss, vsz, cmd);
    SplitInterleave(cols, gaps);
    InterleaveFirst(cols, gaps);
    StripPadded(lead, row, trail);
    PsColumnsRecord(pid, user, cpuTenths, memTenths, rss, vsz, cmd);
    ParseLineOfSplit(lead + row + trail, cols);
  }

  lemma ParseLineOfSplit(line: string, parts: seq<string>)
    requires SplitWs(Strip(line), MaxSplit) == parts && |parts| == FieldCount
    ensures ParseLine(line) == if Selected(line) then BuildRecord(parts) else Skipped
  {
  }

  // ---------------------------------------------------------------------
  // The loop over the lines

  /**
   * The outcome of a loop body `parse` for each line, in order. The loop's
   * facts below hold for any body, so they are stated for a given `parse`
   * and used with `ParseLine`.
   */
  function MapLines(parse: string -> LineOutcome, lines: seq<string>): (outs: seq<LineOutcome>)
    ensures |outs| == |lines|
    decreases |lines|
  {
    if lines == [] then [] else MapLines(parse, lines[..|lines| - 1]) + [parse(lines[|lines| - 1])]
  }

  /** The loop body's outcome for each line, in order. */
  function Outcomes(lines: seq<string>): (outs: seq<LineOutcome>)
    ensures |outs| == |lines|
  {
    MapLines(ParseLine, lines)
  }

  lemma {:induction false} MapLinesAt(parse: string -> LineOutcome, lines: seq<string>, i: nat)
    requires i < |lines|
    ensures MapLines(parse, lines)[i] == parse(lines[i])
    decreases |lines|
  {
    if i < |lines| - 1 {
      MapLinesAt(parse, lines[..|lines| - 1], i);
    }
  }

  lemma {:induction false} MapLinesAppend(parse: string -> LineOutcome, a: seq<string>, b: seq<string>)
    ensures MapLines(parse, a + b) == MapLines(parse, a) + MapLines(parse, b)
    decreases |b|
  {
    if b == [] {
      assert a + b == a;
    } else {
      var init := b[..|b| - 1];
      assert (a + b)[..|a + b| - 1] == a + init;
      assert (a + b)[|a + b| - 1] == b[|b| - 1];
      MapLinesAppend(parse, a, init);
    }
  }

  lemma MapLinesStep(parse: string -> LineOutcome, lines: seq<string>, i: nat)
    requires i < |lines|
    ensures MapLines(parse, lines[..i + 1]) == MapLines(parse, lines[..i]) + [parse(lines[i])]
  {
    assert lines[..i + 1][..i] == lines[..i];
  }

  /**
   * What the loop computes from the outcomes of its lines: the records
   * appended, or the ValueError that ended it. Defined from the last outcome
   * back, as the loop extends its list.
   */
  function Collect(outs: seq<LineOutcome>): Result<seq<Process>, ValueError>
    decreases |outs|
  {
    if outs == [] then Success([])
    else
      match Collect(outs[..|outs| - 1])
      case Failure(e) => Failure(e)
      case Success(ps) =>
        match outs[|outs| - 1]
        case Skipped => Success(ps)
        case Raised(e) => Failure(e)
        case Row(p) => Success(ps + [p])
  }

  /** The records of the outcomes, in order, ignoring skips and raises. */
  function Rows(outs: seq<LineOutcome>): seq<Process>
    decreases |outs|
  {
    if outs == [] then []
    else (if outs[0].Row? then [outs[0].record] else []) + Rows(outs[1..])
  }

  lemma {:induction false} RowsAppend(a: seq<LineOutcome>, b: seq<LineOutcome>)
    ensures Rows(a + b) == Rows(a) + Rows(b)
    decreases |a|
  {
    if a != [] {
      assert (a + b)[1..] == a[1..] + b;
      RowsAppend(a[1..], b);
    } else {
      assert a + b == b;
    }
  }

  /** i is the first outcome that raises. */
  predicate FirstRaise(outs: seq<LineOutcome>, i: int) {
    0 <= i < |outs| && outs[i].Raised? && forall j :: 0 <= j < i ==> !outs[j].Raised?
  }

  /**
   * The loop's result on its outcomes: when no outcome raises, the records
   * of all used lines in line order; when some outcome raises, the error of
   * the first one that raises.
   */
  lemma {:induction false} CollectResult(outs: seq<LineOutcome>)
    ensures (forall i :: 0 <= i < |outs| ==> !outs[i].Raised?) ==> Collect(outs) == Success(Rows(outs))
    ensures (exists i :: 0 <= i < |outs| && outs[i].Raised?) ==>
      exists i :: FirstRaise(outs, i) && Collect(outs) == Failure(outs[i].error)
  {
    if forall i :: 0 <= i < |outs| ==> !outs[i].Raised? {
      CollectNoRaise(outs);
    } else {
      CollectFirstRaise(outs);
    }
  }

  lemma RowsOfOne(last: LineOutcome)
    ensures Rows([last]) == if last.Row? then [last.record] else []
  {
    assert [last][1..] == [];
  }

  lemma {:induction false} CollectNoRaise(outs: seq<LineOutcome>)
    requires forall i :: 0 <= i < |outs| ==> !outs[i].Raised?
    ensures Collect(outs) == Success(Rows(outs))
    decreases |outs|
  {
    if outs != [] {
      var init, last := outs[..|outs| - 1], outs[|outs| - 1];
      assert outs == init + [last];
      CollectNoRaise(init);
      CollectStep(init, last);
      RowsAppend(init, [last]);
      RowsOfOne(last);
      if last.Skipped? {
        assert Rows(init) + [] == Rows(init);
      }
    }
  }

  lemma {:induction false} CollectFirstRaise(outs: seq<LineOutcome>)
    requires exists i :: 0 <= i < |outs| && outs[i].Raised?
    ensures exists i :: FirstRaise(outs, i) && Collect(outs) == Failure(outs[i].error)
    decreases |outs|
  {
    var init, last := outs[..|outs| - 1], outs[|outs| - 1];
    assert outs == init + [last];
    CollectStep(init, last);
    if exists i :: 0 <= i < |init| && init[i].Raised? {
      CollectFirstRaise(init);
      var i :| FirstRaise(init, i) && Collect(init) == Failure(init[i].error);
      assert FirstRaise(outs, i);
    } else {
      CollectNoRaise(init);
      assert FirstRaise(outs, |outs| - 1);
    }
  }

  /**
   * Lines are processed in order: the result on a + b is a's error if a
   * raises, else b's error if b raises, else a's records followed by b's.
   */
  lemma {:induction false} CollectAppend(a: seq<LineOutcome>, b: seq<LineOutcome>)
    ensures Collect(a + b) ==
      match Collect(a)
      case Failure(e) => Failure(e)
      case Success(x) =>
        match Collect(b)
        case Failure(e) => Failure(e)
        case Success(y) => Success(x + y)
    decreases |b|
  {
    if b == [] {
      assert a + b == a;
      if Collect(a).Success? {
        assert Collect(a).value + [] == Collect(a).value;
      }
    } else {
      var init, last := b[..|b| - 1], b[|b| - 1];
      assert (a + b)[..|a + b| - 1] == a + init;
      assert (a + b)[|a + b| - 1] == last;
      CollectAppend(a, init);
      if Collect(a).Success? && Collect(init).Success? && last.Row? {
        var x, y := Collect(a).value, Collect(init).value;
        assert x + y + [last.record] == x + (y + [last.record]);
      }
    }
  }

  /** The result of the loop of `get_ssh_processes` over `lines`. */
  function ParseLines(lines: seq<string>): Result<seq<Process>, ValueError> {
    Collect(Outcomes(lines))
  }

  lemma {:induction false} RowsOrigin(outs: seq<LineOutcome>, k: nat)
    requires k < |Rows(outs)|
    ensures exists i :: 0 <= i < |outs| && outs[i] == Row(Rows(outs)[k])
    decreases |outs|
  {
    if outs[0].Row? && k == 0 {
      assert outs[0] == Row(Rows(outs)[0]);
    } else {
      var k' := if outs[0].Row? then k - 1 else k;
      RowsOrigin(outs[1..], k');
      var i :| 0 <= i < |outs[1..]| && outs[1..][i] == Row(Rows(outs[1..])[k']);
      assert outs[i + 1] == Row(Rows(outs)[k]);
    }
  }

  /** Line `i` is the first line on which `parse` raises. */
  predicate FirstRaisingWith(parse: string -> LineOutcome, lines: seq<string>, i: int) {
    0 <= i < |lines| && parse(lines[i]).Raised? &&
    forall j :: 0 <= j < i ==> !parse(lines[j]).Raised?
  }

  /** The loop's result in terms of its body's outcome on each line. */
  lemma CollectLines(parse: string -> LineOutcome, lines: seq<string>)
    ensures Collect(MapLines(parse, lines)).Success? <==> forall i :: 0 <= i < |lines| ==> !parse(lines[i]).Raised?
    ensures Collect(MapLines(parse, lines)).Success? ==>
      Collect(MapLines(parse, lines)).value == Rows(MapLines(parse, lines))
    ensures Collect(MapLines(parse, lines)).Success? ==> forall k :: 0 <= k < |Collect(MapLines(parse, lines)).value| ==>
      exists i :: 0 <= i < |lines| && parse(lines[i]) == Row(Collect(MapLines(parse, lines)).value[k])
    ensures Collect(MapLines(parse, lines)).Failure? ==>
      exists i :: FirstRaisingWith(parse, lines, i) && Collect(MapLines(parse, lines)).error == parse(lines[i]).error
  {
    var outs := MapLines(parse, lines);
    CollectResult(outs);
    forall i | 0 <= i < |lines| ensures outs[i] == parse(lines[i]) {
      MapLinesAt(parse, lines, i);
    }
    if Collect(outs).Success? {
      forall k | 0 <= k < |Collect(outs).value|
        ensures exists i :: 0 <= i < |lines| && parse(lines[i]) == Row(Collect(outs).value[k])
      {
        RowsOrigin(outs, k);
      }
    } else {
      var i :| FirstRaise(outs, i) && Collect(outs) == Failure(outs[i].error);
      assert FirstRaisingWith(parse, lines, i);
    }
  }

  /** Record p is the one some line that passed the filter gives. */
  predicate FromSelectedLine(lines: seq<string>, p: Process) {
    exists i :: 0 <= i < |lines| && Selected(lines[i]) && ParseLine(lines[i]) == Row(p)
  }

  /**
   * The whole loop: when it returns records, no line raised, the records are
   * those of the used lines in line order, and each comes from a line that
   * passed the filter; when it fails, the error is that of the first line
   * that raises.
   */
  lemma ParseLinesResult(lines: seq<string>)
    ensures ParseLines(lines).Success? <==> forall i :: 0 <= i < |lines| ==> !ParseLine(lines[i]).Raised?
    ensures ParseLines(lines).Success? ==> ParseLines(lines).value == Rows(Outcomes(lines))
    ensures ParseLines(lines).Success? ==> forall k :: 0 <= k < |ParseLines(lines).value| ==>
      FromSelectedLine(lines, ParseLines(lines).value[k])
    ensures ParseLines(lines).Failure? ==>
      exists i :: FirstRaisingWith(ParseLine, lines, i) && ParseLines(lines).error == ParseLine(lines[i]).error
  {
    CollectLines(ParseLine, lines);
    if ParseLines(lines).Success? {
      var ps := ParseLines(lines).value;
      forall k | 0 <= k < |ps| ensures FromSelectedLine(lines, ps[k]) {
        var i :| 0 <= i < |lines| && ParseLine(lines[i]) == Row(ps[k]);
        ParseLineUsed(lines[i]);
        assert Selected(lines[i]);
      }
    }
  }

  /** The outcome of `get_ssh_processes` for what `ps` gave: a failed `ps` gives no records. */
  function SshProcesses(query: PsQuery): Result<seq<Process>, ValueError> {
    match query
    case PsFailed(_) => Success([])
    case PsOutput(lines) => ParseLines(lines)
  }

  /** One more outcome: a failure stays, a skip keeps the records, a record is appended, a raise fails. */
  lemma CollectStep(outs: seq<LineOutcome>, last: LineOutcome)
    ensures Collect(outs + [last]) ==
      match Collect(outs)
      case Failure(e) => Failure(e)
      case Success(ps) =>
        match last
        case Skipped => Success(ps)
        case Raised(e) => Failure(e)
        case Row(p) => Success(ps + [p])
  {
    assert (outs + [last])[..|outs|] == outs;
  }

  lemma TakeDrop(lines: seq<string>, n: nat)
    requires n <= |lines|
    ensures lines[..n] + lines[n..] == lines
  {
  }

  /** Once the lines up to n have raised, the lines after n change nothing. */
  lemma RaiseStops(parse: string -> LineOutcome, lines: seq<string>, n: nat)
    requires n <= |lines| && Collect(MapLines(parse, lines[..n])).Failure?
    ensures Collect(MapLines(parse, lines)) == Collect(MapLines(parse, lines[..n]))
  {
    TakeDrop(lines, n);
    MapLinesAppend(parse, lines[..n], lines[n..]);
    CollectAppend(MapLines(parse, lines[..n]), MapLines(parse, lines[n..]));
  }

  /**
   * `get_ssh_processes` after the `ps` call: the loop appends the record of
   * every used line to `sshProcesses` and stops at the first ValueError.
   */
  method GetSshProcesses(query: PsQuery) returns (r: Result<seq<Process>, ValueError>)
    ensures r == SshProcesses(query)
  {
    if query.PsFailed? {
      return Success([]);
    }
    var lines := query.lines;
    var sshProcesses: seq<Process> := [];
    var i := 0;
    while i < |lines|
      invariant 0 <= i <= |lines|
      invariant Collect(Outcomes(lines[..i])) == Success(sshProcesses)
    {
      var outcome := ParseLine(lines[i]);
      MapLinesStep(ParseLine, lines, i);
      CollectStep(Outcomes(lines[..i]), outcome);
      match outcome {
        case Skipped =>
        case Row(record) =>
          sshProcesses := sshProcesses + [record];
        case Raised(e) =>
          RaiseStops(ParseLine, lines, i + 1);
          return Failure(e);
      }
      i := i + 1;
    }
    assert lines[..i] == lines;
    return Success(sshProcesses);
  }
}
