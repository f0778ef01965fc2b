/** The trailing-whitespace and tab passes of check-style-clang-format.py, and how they compose. */
module StyleFixer {
  import opened StyleText

  datatype Guard = On | Off | NoGuard

  function GuardOf(line: string): Guard {
    if Strip(line) == GUARD_ON then On else if Strip(line) == GUARD_OFF then Off else NoGuard
  }

  predicate IsGuard(line: string) { GuardOf(line) != NoGuard }

  function Guards(lines: seq<string>): (r: seq<Guard>)
    ensures |r| == |lines| && forall i :: 0 <= i < |r| ==> r[i] == GuardOf(lines[i])
  {
    seq(|lines|, i requires 0 <= i < |lines| => GuardOf(lines[i]))
  }

  /** Whether clang-format is enabled after the first `n` lines, given what guards they are. */
  predicate Enabled(guards: seq<Guard>, n: nat)
    requires n <= |guards|
  {
    n == 0 || guards[n - 1] == On || (guards[n - 1] == NoGuard && Enabled(guards, n - 1))
  }

  /** Whether the tab pass looks at line `i`: it is enabled, or is itself a guard. */
  predicate Analysed(lines: seq<string>, i: nat)
    requires i < |lines|
  {
    Enabled(Guards(lines), i + 1) || IsGuard(lines[i])
  }

  /** The tab pass has nothing to report on line `i`. */
  predicate LineOk(lines: seq<string>, i: nat)
    requires i < |lines|
  {
    Analysed(lines, i) ==> '\t' !in lines[i]
  }

  predicate TabsOk(lines: seq<string>) {
    forall i :: 0 <= i < |lines| ==> LineOk(lines, i)
  }

  function FixLine(lines: seq<string>, i: nat): string
    requires i < |lines|
  {
    if Analysed(lines, i) then ExpandTabs(lines[i]) else lines[i]
  }

  function FixTabs(lines: seq<string>): (r: seq<string>)
    ensures |r| == |lines| && forall i :: 0 <= i < |r| ==> r[i] == FixLine(lines, i)
  {
    seq(|lines|, i requires 0 <= i < |lines| => FixLine(lines, i))
  }

  function TrimLine(line: string): string { RStrip(line) + "\n" }

  predicate WhitespaceOk(lines: seq<string>) {
    forall i :: 0 <= i < |lines| ==> TrimLine(lines[i]) == lines[i]
  }

  function FixWhitespace(lines: seq<string>): (r: seq<string>)
    ensures |r| == |lines| && forall i :: 0 <= i < |r| ==> r[i] == TrimLine(lines[i])
  {
    seq(|lines|, i requires 0 <= i < |lines| => TrimLine(lines[i]))
  }

  // ----- which lines the pass looks at, over the text alone

  /** The formatting was last switched off before the line, which itself is no guard. */
  ghost predicate Disabled(lines: seq<string>, i: nat)
    requires i < |lines|
  {
    && Strip(lines[i]) != "// clang-format off" && Strip(lines[i]) != "// clang-format on"
    && exists k: nat :: SwitchedOff(lines, k, i)
  }

  /** Line `k` switches the formatting off, and no line between `k` and `n` switches it on again. */
  ghost predicate SwitchedOff(lines: seq<string>, k: nat, n: nat) {
    && k < n <= |lines| && Strip(lines[k]) == "// clang-format off"
    && forall j :: k < j < n ==> Strip(lines[j]) != "// clang-format on"
  }

  lemma SwitchedOffStep(lines: seq<string>, k: nat, n: nat)
    requires n < |lines|
    ensures SwitchedOff(lines, k, n + 1) <==>
      || (k == n && Strip(lines[n]) == "// clang-format off")
      || (SwitchedOff(lines, k, n) && Strip(lines[n]) != "// clang-format on")
  {
    if SwitchedOff(lines, k, n + 1) && k < n { assert Strip(lines[n]) != "// clang-format on"; }
  }

  lemma {:induction false} EnabledIff(lines: seq<string>, n: nat)
    requires n <= |lines|
    ensures Enabled(Guards(lines), n) <==> forall k: nat :: !SwitchedOff(lines, k, n)
  {
    if n > 0 {
      var m: nat, guard := n - 1, GuardOf(lines[n - 1]);
      EnabledIff(lines, m);
      GuardTexts(lines[m]);
      assert Guards(lines)[m] == guard;
      assert Enabled(Guards(lines), n) <==> guard == On || (guard == NoGuard && Enabled(Guards(lines), m));
      if guard == Off {
        SwitchedOffStep(lines, m, m);
      } else if guard == NoGuard && !Enabled(Guards(lines), m) {
        var k: nat :| SwitchedOff(lines, k, m);
        SwitchedOffStep(lines, k, m);
        assert SwitchedOff(lines, k, n);
      } else {
        forall k: nat ensures !SwitchedOff(lines, k, n) { SwitchedOffStep(lines, k, m); }
      }
    }
  }

  lemma GuardTexts(line: string)
    ensures GuardOf(line) == On <==> Strip(line) == "// clang-format on"
    ensures GuardOf(line) == Off <==> Strip(line) == "// clang-format off"
  {
    assert "// clang-format on"[|"// clang-format on"| - 1] != "// clang-format off"[|"// clang-format on"| - 1];
  }

  lemma AnalysedIff(lines: seq<string>, i: nat)
    requires i < |lines|
    ensures Analysed(lines, i) <==> !Disabled(lines, i)
  {
    EnabledIff(lines, i);
    GuardTexts(lines[i]);
  }

  /** A file complies exactly when every tab is on a disabled line, and exactly the other lines are expanded. */
  lemma TabsOkIff(lines: seq<string>)
    ensures TabsOk(lines) <==> forall i :: 0 <= i < |lines| && '\t' in lines[i] ==> Disabled(lines, i)
    ensures forall i :: 0 <= i < |lines| ==>
      FixTabs(lines)[i] == if Disabled(lines, i) then lines[i] else ExpandTabs(lines[i])
  {
    forall i | 0 <= i < |lines|
      ensures LineOk(lines, i) <==> ('\t' in lines[i] ==> Disabled(lines, i))
      ensures FixTabs(lines)[i] == if Disabled(lines, i) then lines[i] else ExpandTabs(lines[i])
    {
      AnalysedIff(lines, i);
      assert FixTabs(lines)[i] == FixLine(lines, i);
    }
  }

  // ----- the tab pass settles in one go

  lemma GuardStaysGuard(line: string)
    requires IsGuard(line)
    ensures GuardOf(ExpandTabs(line)) == GuardOf(line)
  {
    assert '\t' !in GUARD_ON && '\t' !in GUARD_OFF;
    StripExpand(line);
  }

  /** A line that differs from an indented guard only in a tab. */
  const TABBED_GUARD := " //" + ("\t" + "clang-format off")

  lemma TabbedGuardIsNoGuard()
    ensures !IsGuard(TABBED_GUARD)
  {
    var mid := "//\tclang-format off";
    assert TABBED_GUARD == " " + mid + "";
    StripUnique(" ", mid, "");
    assert mid[2] != GUARD_ON[2] && mid[2] != GUARD_OFF[2];
  }

  lemma TabAtColumnThree(head: string, tail: string)
    requires ColumnAfter(head, 0) == 3 && '\t' !in head && '\t' !in tail
    ensures ExpandTabs(head + ("\t" + tail)) == head + (" " + tail)
  {
    ExpandConcat(head, "\t" + tail, 0);
    ExpandKeepsTabless(head, 0);
    assert ("\t" + tail)[1..] == tail;
    ExpandKeepsTabless(tail, 4);
    assert seq(1, _ => ' ') == " ";
  }

  lemma IndentedGuard()
    ensures Strip(" //" + (" " + "clang-format off")) == GUARD_OFF
  {
    StripUnique(" ", GUARD_OFF, "");
    assert " //" + (" " + "clang-format off") == " " + GUARD_OFF + "";
  }

  lemma HeadColumn(head: string)
    requires |head| == 3 && forall i :: 0 <= i < 3 ==> head[i] == ' ' || head[i] == '/'
    ensures ColumnAfter(head, 0) == 3
  {
    var rest := head[1..];
    var last := rest[1..];
    assert head[1] == rest[0] && head[2] == last[0] && last[1..] == "";
    assert ColumnAfter(last, 2) == 3;
    assert ColumnAfter(rest, 1) == 3;
  }

  /** Expanding a tab can make a new guard: this line is not one, but becomes one. */
  lemma ExpansionCanMakeAGuard()
    ensures !IsGuard(TABBED_GUARD) && IsGuard(ExpandTabs(TABBED_GUARD))
  {
    TabbedGuardIsNoGuard();
    HeadColumn(" //");
    TabAtColumnThree(" //", "clang-format off");
    IndentedGuard();
  }

  /** New guards in enabled places, with old guards kept, enable no further line. */
  lemma {:induction false} NewGuardsEnableNothing(was: seq<Guard>, now: seq<Guard>, n: nat)
    requires n <= |was| == |now|
    requires forall i :: 0 <= i < |was| && now[i] != was[i] ==> was[i] == NoGuard && Enabled(was, i + 1)
    ensures Enabled(now, n) ==> Enabled(was, n)
  {
    if n > 0 {
      NewGuardsEnableNothing(was, now, n - 1);
      assert now[n - 1] == was[n - 1] || Enabled(was, n - 1 + 1);
    }
  }

  /** Lines enabled in the fixed file are among those enabled in the original. */
  lemma EnabledShrinks(lines: seq<string>, n: nat)
    requires n <= |lines|
    ensures Enabled(Guards(FixTabs(lines)), n) ==> Enabled(Guards(lines), n)
  {
    var was, now := Guards(lines), Guards(FixTabs(lines));
    forall i | 0 <= i < |was| && now[i] != was[i] ensures was[i] == NoGuard && Enabled(was, i + 1) {
      assert now[i] == GuardOf(FixLine(lines, i));
      if IsGuard(lines[i]) { GuardStaysGuard(lines[i]); }
    }
    NewGuardsEnableNothing(was, now, n);
  }

  lemma AnalysedShrinks(lines: seq<string>, i: nat)
    requires i < |lines|
    ensures Analysed(FixTabs(lines), i) ==> Analysed(lines, i)
  {
    EnabledShrinks(lines, i + 1);
  }

  /** Checking the fixed file reports compliance, even where the fix made a new guard. */
  lemma FixTabsComplies(lines: seq<string>)
    ensures TabsOk(FixTabs(lines))
  {
    forall i | 0 <= i < |lines| ensures LineOk(FixTabs(lines), i) {
      AnalysedShrinks(lines, i);
      ExpandHasNoTab(lines[i], 0);
    }
  }

  lemma CompliantIsUnchanged(lines: seq<string>)
    requires TabsOk(lines)
    ensures FixTabs(lines) == lines
  {
    forall i | 0 <= i < |lines| ensures FixTabs(lines)[i] == lines[i] {
      assert LineOk(lines, i);
      if Analysed(lines, i) { ExpandKeepsTabless(lines[i], 0); }
    }
  }

  lemma FixTabsIdempotent(lines: seq<string>)
    ensures FixTabs(FixTabs(lines)) == FixTabs(lines)
  {
    FixTabsComplies(lines);
    CompliantIsUnchanged(FixTabs(lines));
  }

  /** A file is changed exactly when it was reported, and only in lines the pass looks at. */
  lemma ReportedIffChanged(lines: seq<string>)
    ensures TabsOk(lines) <==> FixTabs(lines) == lines
    ensures forall i :: 0 <= i < |lines| && !Analysed(lines, i) ==> FixTabs(lines)[i] == lines[i]
  {
    if TabsOk(lines) { CompliantIsUnchanged(lines); }
    FixTabsComplies(lines);
  }

  // ----- the whitespace pass, and the two together

  /** A line complies exactly when it ends with a newline and nothing blank stands before that. */
  lemma TrimmedLineIff(line: string)
    ensures TrimLine(line) == line <==>
      line != "" && line[|line| - 1] == '\n' && (|line| == 1 || !IsSpace(line[|line| - 2]))
  {
    var post := RStripParts(line);
    if line != "" && line[|line| - 1] == '\n' && (|line| == 1 || !IsSpace(line[|line| - 2])) {
      assert line == line[..|line| - 1] + "\n";
      RStripUnique(line[..|line| - 1], "\n");
    }
    if TrimLine(line) == line && |line| > 1 { assert RStrip(line)[|line| - 2] == line[|line| - 2]; }
  }

  lemma TrimTwice(line: string)
    ensures TrimLine(TrimLine(line)) == TrimLine(line)
  {
    var post := RStripParts(line);
    RStripUnique(RStrip(line), "\n");
  }

  lemma FixWhitespaceComplies(lines: seq<string>)
    ensures WhitespaceOk(FixWhitespace(lines))
  {
    forall i | 0 <= i < |lines| ensures TrimLine(TrimLine(lines[i])) == TrimLine(lines[i]) { TrimTwice(lines[i]); }
  }

  lemma TrimKeepsGuard(line: string)
    ensures GuardOf(TrimLine(line)) == GuardOf(line)
  {
    StripOfRStrip(line);
  }

  lemma TrimKeepsAnalysed(lines: seq<string>, i: nat)
    requires i < |lines|
    ensures Analysed(FixWhitespace(lines), i) == Analysed(lines, i)
  {
    forall k | 0 <= k < |lines| ensures GuardOf(FixWhitespace(lines)[k]) == GuardOf(lines[k]) {
      TrimKeepsGuard(lines[k]);
    }
    assert Guards(FixWhitespace(lines)) == Guards(lines);
  }

  lemma TrimExpand(line: string)
    ensures ExpandTabs(TrimLine(line)) == TrimLine(ExpandTabs(line))
  {
    RStripExpand(line);
    ExpandConcat(RStrip(line), "\n", 0);
    ExpandKeepsTabless("\n", ColumnAfter(RStrip(line), 0));
  }

  /** The two passes commute: fixing whitespace then tabs gives the same file as tabs then whitespace. */
  lemma PassesCommute(lines: seq<string>)
    ensures FixTabs(FixWhitespace(lines)) == FixWhitespace(FixTabs(lines))
  {
    forall i | 0 <= i < |lines| ensures FixTabs(FixWhitespace(lines))[i] == FixWhitespace(FixTabs(lines))[i] {
      TrimKeepsAnalysed(lines, i);
      TrimExpand(lines[i]);
    }
  }

  /** In the program's order the result passes both checks: expanding tabs never brings trailing
      whitespace back. */
  lemma BothPassesComply(lines: seq<string>)
    ensures var fixed := FixTabs(FixWhitespace(lines)); TabsOk(fixed) && WhitespaceOk(fixed)
  {
    FixTabsComplies(FixWhitespace(lines));
    PassesCommute(lines);
    FixWhitespaceComplies(FixTabs(lines));
  }

  // ----- from lines to files

  lemma TrimKeepsLine(line: string)
    requires IsLine(line)
    ensures IsLine(TrimLine(line))
  {
    var post := RStripParts(line);
    var r := RStrip(line);
    forall k | 0 <= k < |r| ensures r[k] != '\n' && r[k] != '\r' {
      assert r[k] == line[k] && line[k] in line;
      assert k == |r| - 1 || r[k] == line[..|line| - 1][k];
    }
    assert TrimLine(line)[..|TrimLine(line)| - 1] == r;
  }

  lemma TrimKeepsLines(lines: seq<string>)
    requires AreLines(lines)
    ensures AreLines(FixWhitespace(lines))
  {
    forall i | 0 <= i < |lines| ensures IsLine(TrimLine(lines[i])) {
      TrimKeepsLine(lines[i]);
    }
  }

  lemma ExpandKeepsLine(line: string)
    requires IsLine(line)
    ensures IsLine(ExpandTabs(line))
    ensures line[|line| - 1] == '\n' ==> ExpandTabs(line)[|ExpandTabs(line)| - 1] == '\n'
  {
    var body, last := line[..|line| - 1], [line[|line| - 1]];
    assert line == body + last;
    ExpandConcat(body, last, 0);
    var head, end := ExpandFrom(body, 0), ExpandFrom(last, ColumnAfter(body, 0));
    ExpandHasNoTab(body, 0);
    ExpandHasNoTab(last, ColumnAfter(body, 0));
    ExpandHasNoTab(line, 0);
    if last[0] == '\t' {
      assert ExpandTabs(line)[..|ExpandTabs(line)| - 1] == head + end[..|end| - 1];
      assert '\n' !in end;
    } else {
      ExpandKeepsTabless(last, ColumnAfter(body, 0));
      assert ExpandTabs(line)[..|ExpandTabs(line)| - 1] == head;
    }
  }

  lemma FixTabsKeepsLines(lines: seq<string>)
    requires AreLines(lines)
    ensures AreLines(FixTabs(lines))
  {
    forall i | 0 <= i < |lines|
      ensures IsLine(FixTabs(lines)[i])
      ensures i < |lines| - 1 ==> FixTabs(lines)[i][|FixTabs(lines)[i]| - 1] == '\n'
    {
      ExpandKeepsLine(lines[i]);
    }
  }

  /** The file after a pass: rewritten only in fix mode and only if the pass reported it. */
  function AfterWhitespace(content: string, fix: bool): string {
    if fix && !WhitespaceOk(ReadLines(content)) then WriteLines(FixWhitespace(ReadLines(content))) else content
  }

  function AfterTabs(content: string, fix: bool): string {
    if fix && !TabsOk(ReadLines(content)) then WriteLines(FixTabs(ReadLines(content))) else content
  }

  lemma ReadAfterWhitespace(content: string)
    ensures ReadLines(AfterWhitespace(content, true)) == FixWhitespace(ReadLines(content))
  {
    var lines := ReadLines(content);
    ReadGivesLines(content);
    TrimKeepsLines(lines);
    ReadBack(FixWhitespace(lines));
    if WhitespaceOk(lines) { assert FixWhitespace(lines) == lines; }
  }

  lemma ReadAfterTabs(content: string)
    ensures ReadLines(AfterTabs(content, true)) == FixTabs(ReadLines(content))
  {
    var lines := ReadLines(content);
    ReadGivesLines(content);
    FixTabsKeepsLines(lines);
    ReadBack(FixTabs(lines));
    if TabsOk(lines) { CompliantIsUnchanged(lines); }
  }

  /** Fixing a file's tabs and reading it again finds nothing to report and nothing to change. */
  lemma FixedFileComplies(content: string)
    ensures TabsOk(ReadLines(AfterTabs(content, true)))
    ensures WhitespaceOk(ReadLines(AfterWhitespace(content, true)))
    ensures AfterTabs(AfterTabs(content, true), true) == AfterTabs(content, true)
    ensures AfterWhitespace(AfterWhitespace(content, true), true) == AfterWhitespace(content, true)
  {
    ReadAfterTabs(content);
    FixTabsComplies(ReadLines(content));
    ReadAfterWhitespace(content);
    FixWhitespaceComplies(ReadLines(content));
  }

  /** The program's order on one file: whitespace first, then tabs, each from a fresh read. */
  lemma BothFixesComply(content: string)
    ensures var fixed := AfterTabs(AfterWhitespace(content, true), true);
      TabsOk(ReadLines(fixed)) && WhitespaceOk(ReadLines(fixed))
  {
    ReadAfterWhitespace(content);
    ReadAfterTabs(AfterWhitespace(content, true));
    BothPassesComply(ReadLines(content));
  }

  // ----- the passes as written

  /** `check_trailing_whitespace_file`: the verdict is on the file as it was. */
  method CheckTrailingWhitespaceFile(content: string, fix: bool, verbose: bool)
    returns (compliant: bool, written: string)
    ensures compliant <==> WhitespaceOk(ReadLines(content))
    ensures written == AfterWhitespace(content, fix)
  {
    var lines := ReadLines(content);
    var fileLines := new string[|lines|](i requires 0 <= i < |lines| => lines[i]);
    assert fileLines[..] == lines;
    compliant := WhitespaceLoop(fileLines, fix, verbose);
    written := content;
    if fix && !compliant {
      written := WriteLines(fileLines[..]);
    }
  }

  method WhitespaceLoop(fileLines: array<string>, fix: bool, verbose: bool) returns (compliant: bool)
    modifies fileLines
    ensures compliant <==> WhitespaceOk(old(fileLines[..]))
    ensures fix || verbose ==> fileLines[..] == FixWhitespace(old(fileLines[..]))
  {
    compliant := true;
    ghost var lines := fileLines[..];
    for i := 0 to fileLines.Length
      invariant compliant <==> forall k :: 0 <= k < i ==> TrimLine(lines[k]) == lines[k]
      invariant forall k :: 0 <= k < i ==> fileLines[k] == TrimLine(lines[k])
      invariant forall k :: i <= k < fileLines.Length ==> fileLines[k] == lines[k]
    {
      var line := fileLines[i];
      var lineFixed := RStrip(line) + "\n";
      if lineFixed != line {
        compliant := false;
        fileLines[i] := lineFixed;
        if !fix && !verbose {
          return;
        }
      }
    }
  }

  /** `check_tabs_file` */
  method CheckTabsFile(content: string, fix: bool, verbose: bool) returns (compliant: bool, written: string)
    ensures compliant <==> TabsOk(ReadLines(content))
    ensures var lines := ReadLines(content);
      compliant <==> forall i :: 0 <= i < |lines| && '\t' in lines[i] ==> Disabled(lines, i)
    ensures written == AfterTabs(content, fix)
  {
    var lines := ReadLines(content);
    var fileLines := new string[|lines|](i requires 0 <= i < |lines| => lines[i]);
    assert fileLines[..] == lines;
    compliant := TabsLoop(fileLines, fix, verbose);
    written := content;
    if fix && !compliant {
      written := WriteLines(fileLines[..]);
    }
    TabsOkIff(lines);
  }

  /** What the loop does with line `i`: from the flag before it to the flag after it, whether the line is
      reported, and what it becomes. */
  ghost predicate TabsStep(lines: seq<string>, flags: seq<bool>, oks: seq<bool>, fixed: seq<string>, i: nat)
    requires i < |lines| == |oks| == |fixed| && |flags| == |lines| + 1
  {
    var guard := GuardOf(lines[i]);
    && flags[i + 1] == (guard == On || (guard == NoGuard && flags[i]))
    && oks[i] == ((!flags[i + 1] && guard == NoGuard) || '\t' !in lines[i])
    && fixed[i] == if oks[i] then lines[i] else ExpandTabs(lines[i])
  }

  lemma TabsStepHolds(lines: seq<string>, flags: seq<bool>, oks: seq<bool>, i: nat)
    requires i < |lines| == |oks| && |flags| == |lines| + 1
    requires flags[i] == Enabled(Guards(lines), i) && flags[i + 1] == Enabled(Guards(lines), i + 1)
    requires oks[i] == LineOk(lines, i)
    ensures TabsStep(lines, flags, oks, FixTabs(lines), i)
  {
    assert FixTabs(lines)[i] == FixLine(lines, i);
    if '\t' !in lines[i] { ExpandKeepsTabless(lines[i], 0); }
  }

  lemma TabsPlan(lines: seq<string>) returns (flags: seq<bool>, oks: seq<bool>)
    ensures |oks| == |lines| && |flags| == |lines| + 1 && flags[0]
    ensures TabsOk(lines) <==> forall i :: 0 <= i < |oks| ==> oks[i]
    ensures forall i {:trigger TabsStep(lines, flags, oks, FixTabs(lines), i)} ::
      0 <= i < |lines| ==> TabsStep(lines, flags, oks, FixTabs(lines), i)
  {
    flags := seq(|lines| + 1, i requires 0 <= i <= |lines| => Enabled(Guards(lines), i));
    oks := seq(|lines|, i requires 0 <= i < |lines| => LineOk(lines, i));
    assert forall i :: 0 <= i < |oks| ==> oks[i] == LineOk(lines, i);
    forall i | 0 <= i < |lines| ensures TabsStep(lines, flags, oks, FixTabs(lines), i) {
      TabsStepHolds(lines, flags, oks, i);
    }
    if TabsOk(lines) {
      forall i | 0 <= i < |oks| ensures oks[i] { assert LineOk(lines, i); }
    }
    if forall i :: 0 <= i < |oks| ==> oks[i] {
      forall i | 0 <= i < |lines| ensures LineOk(lines, i) { assert oks[i]; }
    }
  }

  method TabsLoop(fileLines: array<string>, fix: bool, verbose: bool) returns (compliant: bool)
    modifies fileLines
    ensures compliant <==> TabsOk(old(fileLines[..]))
    ensures fix || verbose ==> fileLines[..] == FixTabs(old(fileLines[..]))
  {
    ghost var flags, oks := TabsPlan(fileLines[..]);
    compliant := TabsLoopOver(fileLines, fix, verbose, flags, oks, FixTabs(fileLines[..]));
  }

  /** One line of the loop: the guard state after it, whether it has tabs to expand, and what it becomes. */
  method TabsLine(line: string, enabled: bool, ghost i: nat, ghost lines: seq<string>,
                  ghost flags: seq<bool>, ghost oks: seq<bool>, ghost fixed: seq<string>)
    returns (clangFormatEnabled: bool, hasTabs: bool, expanded: string)
    requires i < |lines| == |oks| == |fixed| && |flags| == |lines| + 1
    requires line == lines[i] && enabled == flags[i]
    requires forall k {:trigger TabsStep(lines, flags, oks, fixed, k)} ::
      0 <= k < |lines| ==> TabsStep(lines, flags, oks, fixed, k)
    ensures clangFormatEnabled == flags[i + 1] && hasTabs == !oks[i] && expanded == fixed[i]
    ensures !hasTabs ==> expanded == line
  {
    assert TabsStep(lines, flags, oks, fixed, i);
    clangFormatEnabled := enabled;
    var guard := GuardOf(line);
    if guard == On {
      clangFormatEnabled := true;
    } else if guard == Off {
      clangFormatEnabled := false;
    }
    hasTabs := (clangFormatEnabled || guard != NoGuard) && '\t' in line;
    expanded := if hasTabs then ExpandTabs(line) else line;
  }

  /** The loop itself, against what its steps do to each line. */
  method TabsLoopOver(fileLines: array<string>, fix: bool, verbose: bool,
                      ghost flags: seq<bool>, ghost oks: seq<bool>, ghost fixed: seq<string>)
    returns (compliant: bool)
    requires |oks| == |fixed| == fileLines.Length && |flags| == fileLines.Length + 1 && flags[0]
    requires forall i {:trigger TabsStep(fileLines[..], flags, oks, fixed, i)} ::
      0 <= i < fileLines.Length ==> TabsStep(fileLines[..], flags, oks, fixed, i)
    modifies fileLines
    ensures compliant <==> forall i :: 0 <= i < |oks| ==> oks[i]
    ensures fix || verbose ==> fileLines[..] == fixed
  {
    compliant := true;
    var clangFormatEnabled := true;
    ghost var lines := fileLines[..];
    for i := 0 to fileLines.Length
      invariant clangFormatEnabled == flags[i]
      invariant compliant <==> forall k :: 0 <= k < i ==> oks[k]
      invariant forall k :: 0 <= k < i ==> fileLines[k] == fixed[k]
      invariant forall k :: i <= k < fileLines.Length ==> fileLines[k] == lines[k]
    {
      var enabled, hasTabs, expanded :=
        TabsLine(fileLines[i], clangFormatEnabled, i, lines, flags, oks, fixed);
      clangFormatEnabled := enabled;
      if !hasTabs {
        continue;
      }
      compliant := false;
      fileLines[i] := expanded;
      if !fix && !verbose {
        return;
      }
    }
  }

  /** Both passes on one file, in the program's order; in fix mode a second call has nothing to do. */
  method CheckStyle(content: string, fix: bool, verbose: bool) returns (successful: bool, written: string)
    ensures written == AfterTabs(AfterWhitespace(content, fix), fix)
    ensures successful <==> fix || (WhitespaceOk(ReadLines(content)) && TabsOk(ReadLines(content)))
    ensures fix ==> WhitespaceOk(ReadLines(written)) && TabsOk(ReadLines(written))
    ensures !fix ==> written == content
  {
    var whitespaceOk, trimmed := CheckTrailingWhitespaceFile(content, fix, verbose);
    var tabsOk, expanded := CheckTabsFile(trimmed, fix, verbose);
    BothFixesComply(content);
    written := expanded;
    // A pass that fixed its files reports success.
    successful := (whitespaceOk || fix) && (tabsOk || fix);
  }
}
