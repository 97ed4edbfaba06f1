/**
  The interactive loop of `main`: each input line is stripped and upper-cased,
  compared with the sentinel `EXIT`, checked against the alphabet {A, C, G, T},
  and then either reported as invalid or handed to the GC calculator. Input
  lines are a given sequence and the printed reports a sequence of outcomes.
 */
module AnalyzerLoop {
  import opened AsciiText
  import opened GcCalculator

  /** What the loop does with one line: stop, report an invalid sequence, or
      report a GC percentage. */
  datatype Outcome = Exit | Invalid | Gc(percent: real)

  const Sentinel: string := "EXIT"
  const Bases: string := "ACGT"

  /** Every character is one of A, C, G, T (true of the empty line). */
  predicate IsDna(s: string) {
    forall i | 0 <= i < |s| :: s[i] in Bases
  }

  /** `line.strip().upper()`. */
  function Normalize(line: string): string
  {
    Upper(Strip(line))
  }

  /** A normalised line has no whitespace at either end and no lower-case
      letter. */
  lemma NormalizeShape(line: string)
    ensures Trimmed(Normalize(line)) && NoLower(Normalize(line))
  {
    var _ := StripMargins(line);
    UpperKeepsTrimmed(Strip(line));
  }

  /** A line that is already stripped and upper-case is left as it is. */
  lemma NormalizeFixesNormal(n: string)
    requires Trimmed(n) && NoLower(n)
    ensures Normalize(n) == n
  {
    StripTrimmed(n);
    UpperFixesUpperCase(n);
  }

  /** Normalising twice is normalising once. */
  lemma NormalizeIdempotent(line: string)
    ensures Normalize(Normalize(line)) == Normalize(line)
  {
    NormalizeShape(line);
    NormalizeFixesNormal(Normalize(line));
  }

  /** The decision for one line: the exit check comes first, then the
      alphabet check, then the calculator. */
  function Classify(line: string): Outcome
  {
    var n := Normalize(line);
    if n == Sentinel then Exit
    else if !IsDna(n) then Invalid
    else Gc(GcContent(n))
  }

  /** Exactly the sentinel ends the loop; any other line with a character
      outside {A, C, G, T} is invalid; every remaining line reports the GC
      content of the stripped line, whatever its case, which lies in
      [0, 100]. */
  lemma ClassifyDecision(line: string)
    ensures Classify(line).Exit? <==> Normalize(line) == Sentinel
    ensures Classify(line).Invalid? <==> Normalize(line) != Sentinel && !IsDna(Normalize(line))
    ensures Classify(line).Gc? <==> IsDna(Normalize(line))
    ensures Classify(line).Gc? ==>
      Classify(line).percent == GcContent(Strip(line)) && 0.0 <= Classify(line).percent <= 100.0
  {
    GcContentOfUpper(Strip(line));
    assert !IsDna(Sentinel) by { assert Sentinel[0] !in Bases; }
  }

  /** The sentinel itself would fail the alphabet check, so it is the order of
      the two checks that lets it end the loop. */
  lemma ExitPrecedesValidation(line: string)
    requires Classify(line) == Exit
    ensures !IsDna(Normalize(line))
  {
    assert Normalize(line)[0] == 'E';
  }

  /** Any casing of "exit", with whitespace (possibly none) on either side,
      ends the loop. */
  lemma PaddedExit(pre: string, w: string, post: string)
    requires AllSpace(pre) && AllSpace(post) && Upper(w) == Sentinel
    ensures Classify(pre + w + post) == Exit
  {
    assert Upper(w)[0] == 'E' && Upper(w)[|w| - 1] == 'T';
    StripPadded(pre, w, post);
    ClassifyDecision(pre + w + post);
  }

  /** A line ends the loop exactly when it is some casing of "exit" with
      whitespace (possibly none) on either side. */
  lemma ExitLine(line: string)
    ensures Classify(line) == Exit <==>
      exists i, j | 0 <= i <= j <= |line| ::
        Upper(line[i..j]) == Sentinel && AllSpace(line[..i]) && AllSpace(line[j..])
  {
    if Classify(line) == Exit {
      ClassifyDecision(line);
      var i := StripMargins(line);
      var j := i + |Strip(line)|;
      assert Upper(line[i..j]) == Sentinel;
    }
    if exists i, j | 0 <= i <= j <= |line| ::
        Upper(line[i..j]) == Sentinel && AllSpace(line[..i]) && AllSpace(line[j..]) {
      var i, j :| 0 <= i <= j <= |line| &&
        Upper(line[i..j]) == Sentinel && AllSpace(line[..i]) && AllSpace(line[j..]);
      assert line == line[..i] + line[i..j] + line[j..];
      PaddedExit(line[..i], line[i..j], line[j..]);
    }
  }

  /** A blank line passes the alphabet check and reports 0 percent. */
  lemma BlankLine(line: string)
    requires AllSpace(line)
    ensures Classify(line) == Gc(0.0)
  {
    StripPadded(line, [], []);
    assert line + [] + [] == line;
  }

  /** A non-blank character outside {A, C, G, T} in either case makes the line
      invalid, unless the line is the sentinel. */
  lemma InvalidLine(line: string, k: nat)
    requires k < |line| && !IsSpace(line[k]) && UpperChar(line[k]) !in Bases
    requires Normalize(line) != Sentinel
    ensures Classify(line) == Invalid
  {
    var n := Strip(line);
    var i := StripMargins(line);
    assert Normalize(line)[k - i] == UpperChar(line[k]);
  }

  /** The outcomes up to and including the first `Exit`, or all of them
      when there is none. */
  function TakeThroughExit(outs: seq<Outcome>): (out: seq<Outcome>)
    ensures |out| <= |outs| && out == outs[..|out|]
    ensures forall k | 0 <= k < |out| - 1 :: out[k] != Exit
    ensures |out| < |outs| ==> out != [] && out[|out| - 1] == Exit
  {
    if outs == [] then []
    else if outs[0] == Exit then [Exit]
    else [outs[0]] + TakeThroughExit(outs[1..])
  }

  /** The outcomes the loop reports for `lines`: one per line, up to and
      including the first line that ends the loop. */
  function Session(lines: seq<string>): (out: seq<Outcome>)
    ensures |out| <= |lines|
    ensures forall k | 0 <= k < |out| :: out[k] == Classify(lines[k])
    ensures forall k | 0 <= k < |out| - 1 :: out[k] != Exit
    ensures |out| < |lines| ==> out != [] && out[|out| - 1] == Exit
  {
    TakeThroughExit(seq(|lines|, k requires 0 <= k < |lines| => Classify(lines[k])))
  }

  /** The four properties of `Session` determine it: any outcome sequence
      that has them is the session's. */
  lemma SessionDetermined(lines: seq<string>, out: seq<Outcome>)
    requires |out| <= |lines|
    requires forall k | 0 <= k < |out| :: out[k] == Classify(lines[k])
    requires forall k | 0 <= k < |out| - 1 :: out[k] != Exit
    requires |out| < |lines| ==> out != [] && out[|out| - 1] == Exit
    ensures out == Session(lines)
  {
    var s := Session(lines);
    assert |out| == |s|;
  }

  /** Once a line ends the loop, no later line is looked at. */
  lemma SessionStopsAtExit(lines: seq<string>, more: seq<string>, k: nat)
    requires k < |lines| && Classify(lines[k]) == Exit
    ensures Session(lines + more) == Session(lines)
  {
    var out := Session(lines);
    assert |out| <= k + 1;
    SessionDetermined(lines + more, out);
  }

  /** Whatever came before, an exit line after `prior` (none of which ends
      the loop) ends the session with `Exit`, one outcome per line read. */
  lemma ExitEndsSession(prior: seq<string>, line: string, more: seq<string>)
    requires forall k | 0 <= k < |prior| :: Classify(prior[k]) != Exit
    requires Classify(line) == Exit
    ensures Session(prior + [line] + more) == Session(prior) + [Exit]
    ensures |Session(prior)| == |prior|
  {
    var lines := prior + [line] + more;
    var out := Session(prior) + [Exit];
    assert |Session(prior)| == |prior|;
    SessionDetermined(lines, out);
  }

  /** While no line has ended the loop, reading one more line adds exactly
      that line's outcome. */
  lemma SessionExtend(lines: seq<string>, line: string)
    requires Exit !in Session(lines) && |Session(lines)| == |lines|
    ensures Session(lines + [line]) == Session(lines) + [Classify(line)]
  {
    var out := Session(lines) + [Classify(line)];
    assert forall k | 0 <= k < |lines| :: out[k] == Session(lines)[k];
    SessionDetermined(lines + [line], out);
  }

  /** The loop of `main`: read lines in order, report the outcome of each,
      and stop right after the first line that normalises to the sentinel or
      when the lines run out. `consumed` is the number of lines read. */
  method RunSession(lines: seq<string>) returns (outputs: seq<Outcome>, consumed: nat)
    ensures outputs == Session(lines)
    ensures consumed == |outputs| <= |lines|
    ensures consumed < |lines| ==> outputs[consumed - 1] == Exit
  {
    outputs := [];
    consumed := 0;
    while consumed < |lines|
      invariant consumed <= |lines|
      invariant outputs == Session(lines[..consumed])
      invariant Exit !in outputs && |outputs| == consumed
    {
      var outcome := Classify(lines[consumed]);
      SessionExtend(lines[..consumed], lines[consumed]);
      assert lines[..consumed] + [lines[consumed]] == lines[..consumed + 1];
      outputs := outputs + [outcome];
      consumed := consumed + 1;
      if outcome == Exit {
        assert lines[..consumed] + lines[consumed..] == lines;
        SessionStopsAtExit(lines[..consumed], lines[consumed..], consumed - 1);
        return;
      }
    }
    assert lines[..consumed] == lines;
  }

  /** A trimmed line whose letters are all from {A, C, G, T}, in either
      case, reports its GC content. */
  lemma DnaLineReportsGc(line: string)
    requires Trimmed(line) && IsDna(Upper(line))
    ensures Classify(line) == Gc(GcContent(line))
  {
    StripTrimmed(line);
    ClassifyDecision(line);
    assert Sentinel[0] !in Bases;
  }

  /** The documented report for "GCGC": 100 percent. */
  lemma AllGcLine()
    ensures Classify("GCGC") == Gc(100.0)
  {
    AllGcExample();
    UpperFixesUpperCase("GCGC");
    DnaLineReportsGc("GCGC");
  }

  /** The documented report for "atat": lower case is accepted, 0 percent. */
  lemma AllAtLine()
    ensures Classify("atat") == Gc(0.0)
  {
    AllAtExample();
    assert Upper("atat") == "ATAT";
    DnaLineReportsGc("atat");
  }

  /** The documented report for "ACGT": 50 percent. */
  lemma HalfLine()
    ensures Classify("ACGT") == Gc(50.0)
  {
    HalfExample();
    UpperFixesUpperCase("ACGT");
    DnaLineReportsGc("ACGT");
  }

  /** The documented exit and invalid-input cases: a padded "exit" ends the
      loop, and a line with a letter outside {A, C, G, T} is invalid. */
  lemma ExitAndInvalidExamples()
    ensures Classify("  exit  ") == Exit
    ensures Classify("ACGX") == Invalid
    ensures Classify("ACGTN") == Invalid
    ensures Classify("xyz") == Invalid
  {
    PaddedExit("  ", "exit", "  ");
    assert "  " + "exit" + "  " == "  exit  ";
    NormalizeFixesNormal("ACGX");
    InvalidLine("ACGX", 3);
    NormalizeFixesNormal("ACGTN");
    InvalidLine("ACGTN", 4);
    StripTrimmed("xyz");
    InvalidLine("xyz", 0);
  }
}
