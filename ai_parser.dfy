/**
 * The parser for the generative-AI tier's free-form reply.
 *
 * The reply is split into lines; for each marker (`MAC:`, `WIN:`, `DESC:`) the
 * first line that contains the marker gives the field: the text after the
 * marker's first occurrence, up to its next occurrence on that line if there
 * is one, stripped. A marker that no line carries yields a fixed fallback.
 * The `WARN:` line the prompt asks for is never read.
 */
module AiParser {
  import opened Wrappers
  import opened Text

  const MacLabel := "MAC:"
  const WinLabel := "WIN:"
  const DescLabel := "DESC:"

  /** The fallback for a missing `MAC:` or `WIN:` line. */
  const NotFound := "No encontrado"
  /** The fallback for a missing `DESC:` line. */
  const AiDescription := "Comando generado por IA"

  /** The three fields read from a reply. */
  datatype Parsed = Parsed(mac: string, win: string, desc: string)

  /**
   * `line.split(marker)[1]`: the text that follows the first occurrence of
   * `marker`, up to the next occurrence or the end of the line.
   */
  function AfterLabel(line: string, marker: string): (r: string)
    requires marker != [] && Contains(line, marker)
    ensures !Contains(r, marker)
    ensures var start := IndexOf(line, marker).value + |marker|;
            start + |r| <= |line| && (forall k :: 0 <= k < |r| ==> r[k] == line[start + k]) &&
            (start + |r| == |line| || OccursAt(line, marker, start + |r|))
  {
    var i := IndexOf(line, marker).value;
    assert OccursAt(line, marker, i);
    var start := i + |marker|;
    var rest := line[start..];
    match IndexOf(rest, marker)
    case Some(k) =>
      CutBeforeNextLabel(line, marker, start, k);
      rest[..k]
    case None =>
      rest
  }

  /** Cutting the rest of the line at the next occurrence of `marker` leaves a marker-free piece. */
  lemma CutBeforeNextLabel(line: string, marker: string, start: nat, k: nat)
    requires marker != [] && start <= |line| && IndexOf(line[start..], marker) == Some(k)
    ensures !Contains(line[start..][..k], marker)
    ensures OccursAt(line, marker, start + k)
  {
    var rest := line[start..];
    var cut := rest[..k];
    forall j | OccursAt(cut, marker, j)
      ensures OccursAt(rest, marker, j) && j < k
    {
      OccursInPrefix(rest, k, marker, j);
    }
    assert line[start + k..start + k + |marker|] == rest[k..k + |marker|];
  }

  lemma OccursInPrefix(s: string, k: nat, sub: string, j: nat)
    requires k <= |s| && sub != [] && OccursAt(s[..k], sub, j)
    ensures OccursAt(s, sub, j) && j < k
  {
    assert s[..k][j..j + |sub|] == s[j..j + |sub|];
  }

  /**
   * One field: taken from the first line that carries `marker`, or `fallback`
   * when no line does.
   */
  function Field(lines: seq<string>, marker: string, fallback: string): (r: string)
    requires marker != []
    ensures (forall k :: 0 <= k < |lines| ==> !Contains(lines[k], marker)) ==> r == fallback
    ensures forall i :: IsFirstContaining(lines, marker, i) ==> r == Trim(AfterLabel(lines[i], marker))
    ensures r == fallback || Trimmed(r)
  {
    FirstContainingUnique(lines, marker);
    match FirstContaining(lines, marker)
    case Some(i) => Trim(AfterLabel(lines[i], marker))
    case None => fallback
  }

  /** Reads the three fields of a reply; it never fails. */
  function Parse(response: string): (r: Parsed)
    ensures r.mac == NotFound || Trimmed(r.mac)
    ensures r.win == NotFound || Trimmed(r.win)
    ensures r.desc == AiDescription || Trimmed(r.desc)
  {
    var lines := SplitOn(response, '\n');
    Parsed(Field(lines, MacLabel, NotFound), Field(lines, WinLabel, NotFound), Field(lines, DescLabel, AiDescription))
  }

  // ---------------------------------------------------------------------------
  // What a field depends on
  // ---------------------------------------------------------------------------

  /** A field is decided by the first of the lines that carry its marker, and by nothing else. */
  lemma FieldFromLabelLines(lines: seq<string>, marker: string, fallback: string)
    requires marker != []
    ensures Containing(lines, marker) == [] ==> Field(lines, marker, fallback) == fallback
    ensures Containing(lines, marker) != [] ==>
              Field(lines, marker, fallback) == Trim(AfterLabel(Containing(lines, marker)[0], marker))
  {
    FirstContainingIsHead(lines, marker);
  }

  /**
   * Line order does not matter beyond the order of the lines that carry the
   * same marker: two replies whose `MAC:`, `WIN:` and `DESC:` lines come in
   * the same relative order, whatever else they hold and wherever those lines
   * sit, parse alike.
   */
  lemma ParseIgnoresLineOrder(lines1: seq<string>, lines2: seq<string>)
    requires |lines1| >= 1 && |lines2| >= 1
    requires forall k :: 0 <= k < |lines1| ==> '\n' !in lines1[k]
    requires forall k :: 0 <= k < |lines2| ==> '\n' !in lines2[k]
    requires Containing(lines1, MacLabel) == Containing(lines2, MacLabel)
    requires Containing(lines1, WinLabel) == Containing(lines2, WinLabel)
    requires Containing(lines1, DescLabel) == Containing(lines2, DescLabel)
    ensures Parse(Join(lines1, '\n')) == Parse(Join(lines2, '\n'))
  {
    SplitJoin(lines1, '\n');
    SplitJoin(lines2, '\n');
    FieldFromLabelLines(lines1, MacLabel, NotFound);
    FieldFromLabelLines(lines2, MacLabel, NotFound);
    FieldFromLabelLines(lines1, WinLabel, NotFound);
    FieldFromLabelLines(lines2, WinLabel, NotFound);
    FieldFromLabelLines(lines1, DescLabel, AiDescription);
    FieldFromLabelLines(lines2, DescLabel, AiDescription);
  }

  /** Some line of the reply carries `marker` exactly when the reply contains `marker`. */
  lemma LabelInSomeLine(response: string, marker: string)
    requires marker != [] && '\n' !in marker
    ensures FirstContaining(SplitOn(response, '\n'), marker).Some? <==> Contains(response, marker)
  {
    var lines := SplitOn(response, '\n');
    JoinSplit(response, '\n');
    match FirstContaining(lines, marker)
    case Some(i) =>
      JoinContainsPiece(lines, '\n', i);
      ContainsTransitive(response, lines[i], marker);
    case None =>
      if Contains(response, marker) {
        ContainsInSomePiece(lines, '\n', marker);
      }
  }

  /** A reply without a marker gets that marker's fallback, never an error. */
  lemma MissingLabelsFallBack(response: string)
    ensures !Contains(response, MacLabel) ==> Parse(response).mac == NotFound
    ensures !Contains(response, WinLabel) ==> Parse(response).win == NotFound
    ensures !Contains(response, DescLabel) ==> Parse(response).desc == AiDescription
  {
    LabelInSomeLine(response, MacLabel);
    LabelInSomeLine(response, WinLabel);
    LabelInSomeLine(response, DescLabel);
  }

  /** A reply that contains a marker takes that field from the first line that carries it. */
  lemma PresentLabelIsRead(response: string, marker: string, fallback: string)
    requires marker != [] && '\n' !in marker
    requires Contains(response, marker)
    ensures exists i :: IsFirstContaining(SplitOn(response, '\n'), marker, i) &&
                        Field(SplitOn(response, '\n'), marker, fallback) ==
                        Trim(AfterLabel(SplitOn(response, '\n')[i], marker))
  {
    LabelInSomeLine(response, marker);
    var i := FirstContaining(SplitOn(response, '\n'), marker).value;
    assert IsFirstContaining(SplitOn(response, '\n'), marker, i);
  }

  // ---------------------------------------------------------------------------
  // Replies in the requested shape
  // ---------------------------------------------------------------------------

  /** A line of the requested shape, such as `MAC: ls -la`. */
  function LabelLine(marker: string, value: string): string {
    marker + " " + value
  }

  /** The marker line of a value is read back as that value. */
  lemma AfterLabelLine(marker: string, value: string)
    requires marker != [] && marker[0] != ' '
    requires Trimmed(value) && !Contains(value, marker)
    ensures Contains(LabelLine(marker, value), marker)
    ensures Trim(AfterLabel(LabelLine(marker, value), marker)) == value
  {
    var line := LabelLine(marker, value);
    var rest := [' '] + value;
    assert line == marker + rest;
    IndexOfPrefix(marker, rest);
    assert line[|marker|..] == rest;
    NoMatchAt(rest, marker, 0, 0);
    NotContainsPrepend(' ', value, marker);
    assert AfterLabel(line, marker) == rest;
    TrimUnique(" ", value, []);
    assert " " + value + [] == rest;
  }

  /**
   * When the only lines that carry `marker` are the marker line of `value`,
   * the field is `value`.
   */
  lemma FieldOfSoleLabelLine(lines: seq<string>, marker: string, value: string, fallback: string)
    requires marker != [] && marker[0] != ' '
    requires Trimmed(value) && !Contains(value, marker)
    requires LabelLine(marker, value) in lines
    requires forall k :: 0 <= k < |lines| && Contains(lines[k], marker) ==> lines[k] == LabelLine(marker, value)
    ensures Field(lines, marker, fallback) == value
  {
    AfterLabelLine(marker, value);
    var k :| 0 <= k < |lines| && lines[k] == LabelLine(marker, value);
    assert Contains(lines[k], marker);
    var i := FirstContaining(lines, marker).value;
    assert lines[i] == LabelLine(marker, value);
  }

  /** Values that survive a round trip: stripped, and none repeats its own marker. */
  predicate Readable(p: Parsed) {
    Trimmed(p.mac) && !Contains(p.mac, MacLabel) &&
    Trimmed(p.win) && !Contains(p.win, WinLabel) &&
    Trimmed(p.desc) && !Contains(p.desc, DescLabel)
  }

  /** A line of a reply for `p`: a single line, carrying a marker only as the marker line of `p`. */
  predicate FitsReply(line: string, p: Parsed) {
    '\n' !in line &&
    (Contains(line, MacLabel) ==> line == LabelLine(MacLabel, p.mac)) &&
    (Contains(line, WinLabel) ==> line == LabelLine(WinLabel, p.win)) &&
    (Contains(line, DescLabel) ==> line == LabelLine(DescLabel, p.desc))
  }

  /**
   * Round trip: a reply made of the three marker lines of `p`, in ANY order
   * and with any other marker-free lines (such as `WARN:`) among them, parses
   * back to `p`.
   */
  lemma ParseWellFormed(lines: seq<string>, p: Parsed)
    requires Readable(p)
    requires LabelLine(MacLabel, p.mac) in lines && LabelLine(WinLabel, p.win) in lines
    requires LabelLine(DescLabel, p.desc) in lines
    requires forall k :: 0 <= k < |lines| ==> FitsReply(lines[k], p)
    ensures Parse(Join(lines, '\n')) == p
  {
    SplitJoin(lines, '\n');
    FieldOfSoleLabelLine(lines, MacLabel, p.mac, NotFound);
    FieldOfSoleLabelLine(lines, WinLabel, p.win, NotFound);
    FieldOfSoleLabelLine(lines, DescLabel, p.desc, AiDescription);
  }

  /** `s` carries none of the three markers. */
  predicate MarkerFree(s: string) {
    !Contains(s, MacLabel) && !Contains(s, WinLabel) && !Contains(s, DescLabel)
  }

  /** A marker line carries another marker only if its value does. */
  lemma LabelLinesCarryOwnLabelOnly(value: string)
    requires MarkerFree(value)
    ensures !Contains(LabelLine(MacLabel, value), WinLabel) && !Contains(LabelLine(MacLabel, value), DescLabel)
    ensures !Contains(LabelLine(WinLabel, value), MacLabel) && !Contains(LabelLine(WinLabel, value), DescLabel)
    ensures !Contains(LabelLine(DescLabel, value), MacLabel) && !Contains(LabelLine(DescLabel, value), WinLabel)
  {
    assert LabelLine(MacLabel, value) == "MAC: " + value;
    assert LabelLine(WinLabel, value) == "WIN: " + value;
    assert LabelLine(DescLabel, value) == "DESC: " + value;
    NotContainsAfterPrefix("MAC: ", value, WinLabel);
    NotContainsAfterPrefix("MAC: ", value, DescLabel);
    NotContainsAfterPrefix("WIN: ", value, MacLabel);
    NotContainsAfterPrefix("WIN: ", value, DescLabel);
    NotContainsAfterPrefix("DESC: ", value, MacLabel);
    NotContainsAfterPrefix("DESC: ", value, WinLabel);
  }

  /** The reply in the requested shape: the three marker lines, then the `WARN:` line. */
  function Reply(p: Parsed, warn: string): string {
    Join(ReplyLines(p, warn), '\n')
  }

  /** The lines of the reply in the requested shape. */
  function ReplyLines(p: Parsed, warn: string): seq<string> {
    [LabelLine(MacLabel, p.mac), LabelLine(WinLabel, p.win), LabelLine(DescLabel, p.desc), "WARN: " + warn]
  }

  /** A marker line of a marker-free single-line value fits the reply. */
  lemma LabelLineFits(marker: string, value: string, p: Parsed)
    requires marker in [MacLabel, WinLabel, DescLabel]
    requires marker == MacLabel ==> value == p.mac
    requires marker == WinLabel ==> value == p.win
    requires marker == DescLabel ==> value == p.desc
    requires MarkerFree(value) && '\n' !in value
    ensures FitsReply(LabelLine(marker, value), p)
  {
    LabelLinesCarryOwnLabelOnly(value);
    assert '\n' !in marker;
    assert LabelLine(marker, value) == marker + " " + value;
  }

  /** Each line of a reply in the requested shape fits that reply. */
  lemma ReplyLinesFit(p: Parsed, warn: string)
    requires MarkerFree(p.mac) && MarkerFree(p.win) && MarkerFree(p.desc) && MarkerFree(warn)
    requires '\n' !in p.mac && '\n' !in p.win && '\n' !in p.desc && '\n' !in warn
    ensures var lines := ReplyLines(p, warn);
            FitsReply(lines[0], p) && FitsReply(lines[1], p) && FitsReply(lines[2], p) && FitsReply(lines[3], p)
  {
    var lines := ReplyLines(p, warn);
    LabelLineFits(MacLabel, p.mac, p);
    LabelLineFits(WinLabel, p.win, p);
    LabelLineFits(DescLabel, p.desc, p);
    WarnLineFits(warn, p);
    assert lines[0] == LabelLine(MacLabel, p.mac) && lines[1] == LabelLine(WinLabel, p.win);
    assert lines[2] == LabelLine(DescLabel, p.desc) && lines[3] == "WARN: " + warn;
  }

  /** The `WARN:` line of a marker-free single-line value fits any reply. */
  lemma WarnLineFits(warn: string, p: Parsed)
    requires MarkerFree(warn) && '\n' !in warn
    ensures FitsReply("WARN: " + warn, p)
  {
    WarnLineCarriesNoMarker(warn);
    assert '\n' !in "WARN: ";
  }

  /** The `WARN:` line carries a marker only if its value does. */
  lemma WarnLineCarriesNoMarker(warn: string)
    requires MarkerFree(warn)
    ensures MarkerFree("WARN: " + warn)
  {
    var rest := "ARN: " + warn;
    assert "WARN: " + warn == ['W'] + rest;
    NotContainsAfterPrefix("ARN: ", warn, MacLabel);
    NotContainsAfterPrefix("ARN: ", warn, WinLabel);
    NotContainsAfterPrefix("ARN: ", warn, DescLabel);
    NoMatchAt(['W'] + rest, MacLabel, 0, 0);
    NoMatchAt(['W'] + rest, WinLabel, 0, 1);
    NoMatchAt(['W'] + rest, DescLabel, 0, 0);
    NotContainsPrepend('W', rest, MacLabel);
    NotContainsPrepend('W', rest, WinLabel);
    NotContainsPrepend('W', rest, DescLabel);
  }

  /**
   * Round trip: a reply in the requested shape parses back to the values it
   * was made from, whatever the `WARN:` line says, when the values are
   * stripped single lines without markers.
   */
  lemma ParseReply(p: Parsed, warn: string)
    requires Trimmed(p.mac) && Trimmed(p.win) && Trimmed(p.desc)
    requires MarkerFree(p.mac) && MarkerFree(p.win) && MarkerFree(p.desc) && MarkerFree(warn)
    requires '\n' !in p.mac && '\n' !in p.win && '\n' !in p.desc && '\n' !in warn
    ensures Parse(Reply(p, warn)) == p
  {
    ReplyLinesFit(p, warn);
    var lines := ReplyLines(p, warn);
    assert forall k :: 0 <= k < |lines| ==> FitsReply(lines[k], p);
    ParseWellFormed(lines, p);
  }

  // ---------------------------------------------------------------------------
  // Sample replies
  //
  // The sample lemmas take their literal values as parameters pinned by a
  // `requires`, so that the verifier reasons about one string per parameter
  // instead of re-expanding the literals in every proof step.
  // ---------------------------------------------------------------------------

  /** A line without two adjacent characters that start a marker carries no marker. */
  lemma NoLabels(line: string)
    requires forall j :: 0 <= j < |line| - 1 ==> line[j] != 'M' || line[j + 1] != 'A'
    requires forall j :: 0 <= j < |line| - 1 ==> line[j] != 'W' || line[j + 1] != 'I'
    requires forall j :: 0 <= j < |line| - 1 ==> line[j] != 'D' || line[j + 1] != 'E'
    ensures MarkerFree(line)
  {
    NoLeadingPair(line, MacLabel);
    NoLeadingPair(line, WinLabel);
    NoLeadingPair(line, DescLabel);
  }

  /** The sample command carries no marker. */
  lemma KubectlIsPlain(cmd: string)
    requires cmd == "kubectl apply -f pod.yaml"
    ensures MarkerFree(cmd)
  {
    NoLabels(cmd);
  }

  /** The sample command is a stripped single line. */
  lemma KubectlIsTrimmed(cmd: string)
    requires cmd == "kubectl apply -f pod.yaml"
    ensures Trimmed(cmd) && '\n' !in cmd
  {
  }

  /** The sample description is a stripped single line without markers. */
  lemma DeployIsPlain(desc: string)
    requires desc == "Deploys a pod"
    ensures MarkerFree(desc) && Trimmed(desc) && '\n' !in desc
  {
    NoLabels(desc);
  }

  /** The sample warning value is a single line without markers. */
  lemma NoIsPlain(warn: string)
    requires warn == "NO"
    ensures MarkerFree(warn) && '\n' !in warn
  {
    NoLabels(warn);
  }

  /**
   * The Kubernetes example: the reply "MAC: kubectl apply -f pod.yaml",
   * "WIN: kubectl apply -f pod.yaml", "DESC: Deploys a pod", "WARN: NO"
   * gives both commands and the description.
   */
  lemma SampleReply(cmd: string, desc: string, warn: string)
    requires cmd == "kubectl apply -f pod.yaml" && desc == "Deploys a pod" && warn == "NO"
    ensures Parse(Reply(Parsed(cmd, cmd, desc), warn)) == Parsed(cmd, cmd, desc)
  {
    KubectlIsPlain(cmd);
    KubectlIsTrimmed(cmd);
    DeployIsPlain(desc);
    NoIsPlain(warn);
    ParseReply(Parsed(cmd, cmd, desc), warn);
  }

  /** A reply with only a `MAC:` line still yields a record, with both fallbacks. */
  lemma MacOnlyReply(value: string, line: string)
    requires Trimmed(value) && MarkerFree(value) && '\n' !in value
    requires line == LabelLine(MacLabel, value)
    ensures Parse(line) == Parsed(value, NotFound, AiDescription)
  {
    LabelLinesCarryOwnLabelOnly(value);
    assert '\n' !in line by {
      assert line == MacLabel + " " + value;
      assert '\n' !in MacLabel + " ";
    }
    SplitWithoutSeparator(line, '\n');
    assert FirstContaining([line], WinLabel).None?;
    assert FirstContaining([line], DescLabel).None?;
    FieldOfSoleLabelLine([line], MacLabel, value, NotFound);
  }

  /** A marker with nothing after it yields an empty field, not the fallback. */
  lemma EmptyValueReply()
    ensures Parse("MAC:").mac == ""
  {
    SplitJoin(["MAC:"], '\n');
    IndexOfPrefix(MacLabel, []);
    assert MacLabel + [] == "MAC:";
    assert FirstContaining(["MAC:"], MacLabel) == Some(0);
  }
}
