/** Text as check-style-clang-format.py sees it: reading a file into lines and writing it back, Python's
    `strip`, `rstrip` and `expandtabs`, and how they combine. */
module StyleText {

  const TAB_SIZE := 4
  const GUARD_ON := "// clang-format on"
  const GUARD_OFF := "// clang-format off"

  /** The characters Python's `str.isspace` accepts. */
  predicate IsSpace(c: char) {
    || c == ' ' || '\t' <= c <= '\r' || '\U{001C}' <= c <= '\U{001F}'
    || c == '\U{0085}' || c == '\U{00A0}' || c == '\U{1680}' || '\U{2000}' <= c <= '\U{200A}'
    || c == '\U{2028}' || c == '\U{2029}' || c == '\U{202F}' || c == '\U{205F}' || c == '\U{3000}'
  }

  /** Among the characters of ASCII these are the blanks, the line ends and the separators. */
  lemma AsciiSpaces(c: char)
    requires c < '\U{0080}'
    ensures IsSpace(c) <==>
      c in {' ', '\t', '\n', '\U{000B}', '\U{000C}', '\r', '\U{001C}', '\U{001D}', '\U{001E}', '\U{001F}'}
  {
  }

  predicate Blank(s: string) { forall c :: c in s ==> IsSpace(c) }

  /** A string that stripping leaves alone. */
  predicate Trimmed(s: string) { s == "" || (!IsSpace(s[0]) && !IsSpace(s[|s| - 1])) }

  function RStrip(s: string): string {
    if s == "" || !IsSpace(s[|s| - 1]) then s else RStrip(s[..|s| - 1])
  }

  function LStrip(s: string): string {
    if s == "" || !IsSpace(s[0]) then s else LStrip(s[1..])
  }

  function Strip(s: string): string { RStrip(LStrip(s)) }

  /** The width of a tab: up to the next multiple of the tab size. */
  function Gap(column: nat): nat { TAB_SIZE - column % TAB_SIZE }

  function NextColumn(c: char, column: nat): nat {
    if c == '\t' then column + Gap(column) else if c == '\n' || c == '\r' then 0 else column + 1
  }

  function Expanded(c: char, column: nat): string {
    if c == '\t' then seq(Gap(column), _ => ' ') else [c]
  }

  /** `expandtabs` from a given column. */
  function ExpandFrom(s: string, column: nat): string {
    if s == "" then "" else Expanded(s[0], column) + ExpandFrom(s[1..], NextColumn(s[0], column))
  }

  function ColumnAfter(s: string, column: nat): nat {
    if s == "" then column else ColumnAfter(s[1..], NextColumn(s[0], column))
  }

  function ExpandTabs(s: string): string { ExpandFrom(s, 0) }

  // ----- stripping

  lemma {:induction false} RStripParts(s: string) returns (post: string)
    ensures s == RStrip(s) + post && Blank(post)
    ensures RStrip(s) == "" || !IsSpace(RStrip(s)[|RStrip(s)| - 1])
  {
    if s == "" || !IsSpace(s[|s| - 1]) {
      post := "";
    } else {
      var p := RStripParts(s[..|s| - 1]);
      post := p + [s[|s| - 1]];
    }
  }

  lemma {:induction false} LStripParts(s: string) returns (pre: string)
    ensures s == pre + LStrip(s) && Blank(pre)
    ensures LStrip(s) == "" || !IsSpace(LStrip(s)[0])
  {
    if s == "" || !IsSpace(s[0]) {
      pre := "";
    } else {
      var p := LStripParts(s[1..]);
      pre := [s[0]] + p;
    }
  }

  lemma {:induction false} RStripUnique(r: string, post: string)
    requires Blank(post) && (r == "" || !IsSpace(r[|r| - 1]))
    ensures RStrip(r + post) == r
  {
    if post == "" {
      assert r + post == r;
    } else {
      var s := r + post;
      assert s[|s| - 1] == post[|post| - 1] && post[|post| - 1] in post;
      assert s[..|s| - 1] == r + post[..|post| - 1];
      RStripUnique(r, post[..|post| - 1]);
    }
  }

  lemma {:induction false} LStripUnique(pre: string, r: string)
    requires Blank(pre) && (r == "" || !IsSpace(r[0]))
    ensures LStrip(pre + r) == r
  {
    if pre == "" {
      assert pre + r == r;
    } else {
      assert (pre + r)[0] == pre[0] && pre[0] in pre;
      assert (pre + r)[1..] == pre[1..] + r;
      LStripUnique(pre[1..], r);
    }
  }

  /** Stripping is taking away blank ends. */
  lemma StripParts(s: string) returns (pre: string, post: string)
    ensures Blank(pre) && Blank(post) && s == pre + Strip(s) + post && Trimmed(Strip(s))
  {
    pre := LStripParts(s);
    post := RStripParts(LStrip(s));
    assert pre + (Strip(s) + post) == pre + Strip(s) + post;
    if Strip(s) != "" { assert Strip(s)[0] == LStrip(s)[0]; }
  }

  lemma StripUnique(pre: string, mid: string, post: string)
    requires Blank(pre) && Blank(post) && Trimmed(mid)
    ensures Strip(pre + mid + post) == mid
  {
    if mid == "" {
      assert Blank(pre + post);
      LStripUnique(pre + post, "");
      assert pre + mid + post == pre + post + "";
    } else {
      LStripUnique(pre, mid + post);
      assert pre + mid + post == pre + (mid + post);
      RStripUnique(mid, post);
    }
  }

  // ----- expanding

  lemma {:induction false} ExpandConcat(s: string, t: string, column: nat)
    ensures ExpandFrom(s + t, column) == ExpandFrom(s, column) + ExpandFrom(t, ColumnAfter(s, column))
  {
    if s == "" {
      assert s + t == t;
    } else {
      assert (s + t)[0] == s[0] && (s + t)[1..] == s[1..] + t;
      ExpandConcat(s[1..], t, NextColumn(s[0], column));
    }
  }

  lemma {:induction false} ExpandHasNoTab(s: string, column: nat)
    ensures '\t' !in ExpandFrom(s, column)
    ensures forall c :: c in ExpandFrom(s, column) ==> c == ' ' || c in s
  {
    if s != "" { ExpandHasNoTab(s[1..], NextColumn(s[0], column)); }
  }

  lemma {:induction false} ExpandKeepsTabless(s: string, column: nat)
    requires '\t' !in s
    ensures ExpandFrom(s, column) == s
  {
    if s != "" {
      assert s[0] in s;
      ExpandKeepsTabless(s[1..], NextColumn(s[0], column));
      assert [s[0]] + s[1..] == s;
    }
  }

  /** On one line, expanding keeps the column of everything: a text ends where its expansion ends. */
  lemma {:induction false} ExpandKeepsColumns(s: string, column: nat)
    requires '\n' !in s && '\r' !in s
    ensures ColumnAfter(s, column) == column + |ExpandFrom(s, column)|
  {
    if s != "" {
      assert s[0] in s;
      ExpandKeepsColumns(s[1..], NextColumn(s[0], column));
    }
  }

  /** A tab moves on to the next multiple of four, by at least one column. */
  lemma {:induction false} TabStops(s: string, column: nat)
    ensures var before, after := ColumnAfter(s, column), ColumnAfter(s + "\t", column);
      after % 4 == 0 && before < after <= before + 4
  {
    if s == "" {
      assert s + "\t" == "\t" && "\t"[1..] == "";
    } else {
      assert (s + "\t")[1..] == s[1..] + "\t";
      TabStops(s[1..], NextColumn(s[0], column));
    }
  }

  /** What one more character adds to a line: a tab as many blanks as lead to the next multiple of four, any
      other character itself. */
  lemma ExpandOneMore(s: string, c: char)
    requires '\n' !in s && '\r' !in s
    ensures ExpandTabs("") == ""
    ensures var e := ExpandTabs(s);
      ExpandTabs(s + [c]) == e + if c == '\t' then seq(4 - |e| % 4, _ => ' ') else [c]
  {
    ExpandConcat(s, [c], 0);
    ExpandKeepsColumns(s, 0);
    assert [c][1..] == "";
    assert ExpandFrom([c], ColumnAfter(s, 0)) == Expanded(c, ColumnAfter(s, 0)) + "";
  }

  /** The columns are counted anew after a newline or a return. */
  lemma ExpandRestarts(s: string, c: char, t: string)
    requires c == '\n' || c == '\r'
    ensures ExpandTabs(s + ([c] + t)) == ExpandTabs(s) + ([c] + ExpandTabs(t))
  {
    ExpandConcat(s, [c] + t, 0);
    assert ([c] + t)[1..] == t;
  }

  lemma ExpandBlank(s: string, column: nat)
    requires Blank(s)
    ensures Blank(ExpandFrom(s, column))
  {
    ExpandHasNoTab(s, column);
  }

  lemma ExpandLast(s: string, column: nat)
    requires s != "" && !IsSpace(s[|s| - 1])
    ensures var e := ExpandFrom(s, column); e != "" && e[|e| - 1] == s[|s| - 1]
  {
    var t := [s[|s| - 1]];
    assert s == s[..|s| - 1] + t;
    ExpandConcat(s[..|s| - 1], t, column);
    ExpandKeepsTabless(t, ColumnAfter(s[..|s| - 1], column));
  }

  /** Trailing blanks can be removed before or after expanding. */
  lemma RStripExpand(s: string)
    ensures RStrip(ExpandTabs(s)) == ExpandTabs(RStrip(s))
  {
    var r := RStrip(s);
    var post := RStripParts(s);
    ExpandConcat(r, post, 0);
    ExpandBlank(post, ColumnAfter(r, 0));
    if r != "" { ExpandLast(r, 0); }
    RStripUnique(ExpandTabs(r), ExpandFrom(post, ColumnAfter(r, 0)));
  }

  /** A stripped text without tabs is still found after expanding. */
  lemma StripExpand(s: string)
    requires '\t' !in Strip(s)
    ensures Strip(ExpandTabs(s)) == Strip(s)
  {
    var pre, post := StripParts(s);
    var mid := Strip(s);
    ExpandConcat(pre + mid, post, 0);
    ExpandConcat(pre, mid, 0);
    ExpandKeepsTabless(mid, ColumnAfter(pre, 0));
    ExpandBlank(pre, 0);
    ExpandBlank(post, ColumnAfter(pre + mid, 0));
    StripUnique(ExpandFrom(pre, 0), mid, ExpandFrom(post, ColumnAfter(pre + mid, 0)));
  }

  lemma StripOfRStrip(s: string)
    ensures Strip(RStrip(s) + "\n") == Strip(s)
  {
    var r := RStrip(s);
    var pre, post := StripParts(r);
    var mid := Strip(r);
    var tail := RStripParts(s);
    StripWithTail(pre, mid, post, tail);
    StripWithTail(pre, mid, post, "\n");
  }

  lemma StripWithTail(pre: string, mid: string, post: string, tail: string)
    requires Blank(pre) && Blank(post) && Blank(tail) && Trimmed(mid)
    ensures Strip(pre + mid + post + tail) == mid
  {
    assert pre + mid + post + tail == pre + mid + (post + tail);
    StripUnique(pre, mid, post + tail);
  }

  // ----- files

  /** Universal newlines: how text is read. */
  function Translate(s: string): string {
    if s == "" then ""
    else if s[0] == '\r' then "\n" + Translate(if |s| > 1 && s[1] == '\n' then s[2..] else s[1..])
    else [s[0]] + Translate(s[1..])
  }

  function FirstNewline(s: string): (i: nat)
    ensures i <= |s| && '\n' !in s[..i] && (i < |s| ==> s[i] == '\n')
  {
    if s == "" || s[0] == '\n' then 0
    else
      var i := FirstNewline(s[1..]);
      assert s[..i + 1] == [s[0]] + s[1..][..i];
      i + 1
  }

  /** The lines of a text, each with its newline; only the last may lack one. */
  function SplitLines(s: string): seq<string> {
    if s == "" then []
    else
      var i := FirstNewline(s);
      if i == |s| then [s] else [s[..i + 1]] + SplitLines(s[i + 1..])
  }

  /** `f.readlines()` */
  function ReadLines(content: string): seq<string> { SplitLines(Translate(content)) }

  /** What `f.writelines(lines)` leaves in the file. */
  function WriteLines(lines: seq<string>): string {
    if lines == [] then "" else lines[0] + WriteLines(lines[1..])
  }

  predicate IsLine(l: string) {
    l != "" && '\r' !in l && '\n' !in l[..|l| - 1]
  }

  predicate AreLines(lines: seq<string>) {
    && (forall i :: 0 <= i < |lines| ==> IsLine(lines[i]))
    && (forall i :: 0 <= i < |lines| - 1 ==> lines[i][|lines[i]| - 1] == '\n')
  }

  lemma {:induction false} TranslateHasNoReturn(s: string)
    ensures '\r' !in Translate(s)
    decreases |s|
  {
    if s != "" {
      TranslateHasNoReturn(if s[0] == '\r' && |s| > 1 && s[1] == '\n' then s[2..] else s[1..]);
    }
  }

  lemma {:induction false} TranslateKeeps(s: string)
    requires '\r' !in s
    ensures Translate(s) == s
  {
    if s != "" { TranslateKeeps(s[1..]); }
  }

  /** A return, with the newline that may follow it, is read as a newline. */
  lemma {:induction false} ReturnBecomesNewline(s: string, rest: string)
    requires '\r' !in s
    ensures Translate(s + "\r\n" + rest) == s + "\n" + Translate(rest)
    ensures (rest == "" || rest[0] != '\n') ==> Translate(s + "\r" + rest) == s + "\n" + Translate(rest)
  {
    var crlf, cr := s + "\r\n" + rest, s + "\r" + rest;
    if s == "" {
      assert crlf[2..] == rest && cr[1..] == rest;
    } else {
      assert s[0] in s && s == [s[0]] + s[1..];
      ReturnBecomesNewline(s[1..], rest);
      assert crlf[1..] == s[1..] + "\r\n" + rest && cr[1..] == s[1..] + "\r" + rest;
    }
  }

  /** No text is lost when it is split. */
  lemma {:induction false} WriteOfSplit(s: string)
    ensures WriteLines(SplitLines(s)) == s
    decreases |s|
  {
    if s != "" {
      var i := FirstNewline(s);
      if i < |s| {
        WriteOfSplit(s[i + 1..]);
        assert s == s[..i + 1] + s[i + 1..];
      } else {
        assert [s][1..] == [] && s + "" == s;
      }
    }
  }

  lemma {:induction false} SplitGivesLines(s: string)
    requires '\r' !in s
    ensures AreLines(SplitLines(s))
    decreases |s|
  {
    if s != "" {
      var i := FirstNewline(s);
      if i < |s| {
        SplitGivesLines(s[i + 1..]);
      }
    }
  }

  lemma ReadGivesLines(content: string)
    ensures AreLines(ReadLines(content))
  {
    TranslateHasNoReturn(content);
    SplitGivesLines(Translate(content));
  }

  lemma {:induction false} WriteHasNoReturn(lines: seq<string>)
    requires AreLines(lines)
    ensures '\r' !in WriteLines(lines)
  {
    if lines != [] {
      forall i | 0 <= i < |lines[1..]| ensures lines[1..][i] == lines[i + 1] {}
      WriteHasNoReturn(lines[1..]);
    }
  }

  lemma {:induction false} FirstNewlineUnique(s: string, i: nat)
    requires i <= |s| && '\n' !in s[..i] && (i < |s| ==> s[i] == '\n')
    ensures FirstNewline(s) == i
  {
    if i > 0 {
      assert s[0] in s[..i];
      assert s[1..][..i - 1] == s[..i][1..];
      FirstNewlineUnique(s[1..], i - 1);
    }
  }

  lemma NewlineAt(l: string, rest: string)
    requires IsLine(l) && (l[|l| - 1] == '\n' || rest == "")
    ensures FirstNewline(l + rest) == if l[|l| - 1] == '\n' then |l| - 1 else |l|
  {
    var i := if l[|l| - 1] == '\n' then |l| - 1 else |l|;
    assert (l + rest)[..i] == l[..i];
    assert l[..|l|] == l == l[..|l| - 1] + [l[|l| - 1]];
    FirstNewlineUnique(l + rest, i);
  }

  lemma {:induction false} SplitOfWrite(lines: seq<string>)
    requires AreLines(lines)
    ensures SplitLines(WriteLines(lines)) == lines
  {
    if lines != [] {
      var l, rest := lines[0], WriteLines(lines[1..]);
      forall i | 0 <= i < |lines[1..]| ensures lines[1..][i] == lines[i + 1] {}
      SplitOfWrite(lines[1..]);
      if |lines| == 1 { assert rest == ""; }
      NewlineAt(l, rest);
      if l[|l| - 1] == '\n' {
        assert (l + rest)[..|l|] == l && (l + rest)[|l|..] == rest;
      } else {
        assert l + rest == l;
      }
    }
  }

  /** Round trip: lines that were written are read back unchanged. */
  lemma ReadBack(lines: seq<string>)
    requires AreLines(lines)
    ensures ReadLines(WriteLines(lines)) == lines
  {
    WriteHasNoReturn(lines);
    TranslateKeeps(WriteLines(lines));
    SplitOfWrite(lines);
  }
}
