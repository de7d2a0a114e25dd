/**
 * Following the link on the current line of a note in Vim.
 *
 * The editor is what the plugin reads from Vim (the current line and the
 * buffer shown in each window, window n being the n-th entry) together with
 * the two things the plugin changes: the focused window and the sequence of
 * commands handed to `vim.command`.
 */
module Navi {
  import opened Wrappers
  import opened Strings
  import opened LinkParser
  import opened Paths

  /** Start of line, or a character that is not a caret. */
  const TargetRegex1: string := @"\(^\|[^\^]\)"
  /** End of line, or a character that is not a caret. */
  const TargetRegex2: string := @"\($\|[^\^]\)"
  const GotoFirstLine: string := "normal 1G"
  /** The fixed text before the section in a search command. */
  const SearchPrefix: string := @"/\m" + TargetRegex1

  /** The forward search for a section; the section goes in unescaped. */
  function SearchCommand(section: string): (r: string)
    ensures |r| == |SearchPrefix| + |section| + |TargetRegex2|
    ensures r[..|SearchPrefix|] == SearchPrefix
    ensures r[|SearchPrefix| .. |SearchPrefix| + |section|] == section
    ensures r[|SearchPrefix| + |section| ..] == TargetRegex2
  {
    SearchPrefix + section + TargetRegex2
  }

  /** What followLocalLink sends: go to line 1, then search for the section. */
  function LocalJumpCommands(section: string): (r: seq<string>)
    ensures |r| == 2 && r[0] == GotoFirstLine && r[1] == SearchCommand(section)
  {
    [GotoFirstLine, SearchCommand(section)]
  }

  const FocusPrefix: string := "exe "
  const FocusSuffix: string := " . \"wincmd w\""

  /** The command that focuses window n. */
  function FocusCommand(n: nat): string
  {
    FocusPrefix + DecimalString(n) + FocusSuffix
  }

  /** A focus command names its window: the digits between its fixed parts read back as n. */
  lemma FocusCommandNamesWindow(n: nat)
    ensures var r := FocusCommand(n);
      && |r| > |FocusPrefix| + |FocusSuffix|
      && r[..|FocusPrefix|] == FocusPrefix && r[|r| - |FocusSuffix|..] == FocusSuffix
      && var digits := r[|FocusPrefix| .. |r| - |FocusSuffix|];
        (forall k :: 0 <= k < |digits| ==> IsDigit(digits[k])) && DecimalValue(digits) == n
  {
    var r := FocusCommand(n);
    assert r[|FocusPrefix| .. |r| - |FocusSuffix|] == DecimalString(n);
    DecimalRoundTrip(n);
  }

  /** The focus commands for windows 1 to k, in this order. */
  function FocusCommands(k: nat): (r: seq<string>)
    ensures |r| == k
    ensures forall j :: 0 <= j < k ==> r[j] == FocusCommand(j + 1)
  {
    if k == 0 then [] else FocusCommands(k - 1) + [FocusCommand(k)]
  }

  function VsplitCommand(path: string): string
  {
    "vsplit " + path
  }

  /**
   * The window switchToWindowForFile leaves focused, 0 when it focuses none.
   * It visits windows 1 to |windows| - 1 in order and stops at the first that
   * shows `file`; the last window is never visited.
   */
  function StopWindow(windows: seq<string>, file: string): (k: nat)
    ensures |windows| <= 1 ==> k == 0
    ensures |windows| >= 2 ==> 1 <= k < |windows|
    ensures forall j :: 0 <= j < k - 1 ==> windows[j] != file
    ensures k >= 1 ==> windows[k - 1] == file || k == |windows| - 1
  {
    if |windows| <= 1 then 0
    else
      match FirstIndexOf(windows[..|windows| - 1], file, 0)
      case Some(j) => j + 1
      case None => |windows| - 1
  }

  /**
   * The commands followFileLink sends for the absolute path of the file: the
   * focus commands of the switch loop, or one vsplit when no window shows the
   * file, then the local jump when there is a section.
   */
  function FileJumpCommands(windows: seq<string>, absfile: string, section: Option<string>): seq<string>
  {
    (if absfile in windows then FocusCommands(StopWindow(windows, absfile)) else [VsplitCommand(absfile)])
    + (match section case Some(s) => LocalJumpCommands(s) case None => [])
  }

  /**
   * A file jump is n moves (the focus commands for windows 1 to n, or one
   * vsplit), followed by the two local-jump commands exactly when there is a
   * section.
   */
  lemma FileJumpLayout(windows: seq<string>, absfile: string, section: Option<string>)
    ensures var r, n := FileJumpCommands(windows, absfile, section), if absfile in windows then StopWindow(windows, absfile) else 1;
      && |r| == n + (if section.Some? then 2 else 0)
      && (absfile in windows ==> forall j :: 0 <= j < n ==> r[j] == FocusCommand(j + 1))
      && (absfile !in windows ==> r[0] == VsplitCommand(absfile))
      && (section.Some? ==> r[n..] == LocalJumpCommands(section.value))
  {
  }

  /**
   * The window focused after followFileLink, for the absolute path of the
   * file: focus moves only when a window shows the file and there are two
   * windows at least, and then to one that shows it unless it is the last but one.
   */
  function FileJumpFocus(windows: seq<string>, focused: nat, absfile: string): (r: nat)
    ensures r != focused ==> absfile in windows && 1 <= r < |windows|
    ensures absfile !in windows || |windows| <= 1 ==> r == focused
    ensures absfile in windows && |windows| >= 2 ==> 1 <= r < |windows| && (windows[r - 1] == absfile || r == |windows| - 1)
  {
    if absfile in windows && StopWindow(windows, absfile) != 0 then StopWindow(windows, absfile) else focused
  }

  /** The search for a section holds the section verbatim, so different sections give different searches. */
  lemma SearchCommandInjective(s: string, t: string)
    requires SearchCommand(s) == SearchCommand(t)
    ensures s == t
  {
    var n := |SearchPrefix|;
    assert |s| == |t|;
    assert s == SearchCommand(s)[n .. n + |s|];
    assert t == SearchCommand(t)[n .. n + |t|];
  }

  /** The search for a section TODO. */
  lemma SearchCommandExample()
    ensures SearchCommand("TODO") == @"/\m\(^\|[^\^]\)TODO\($\|[^\^]\)"
  {
  }

  /** When one of windows 1 to |windows| - 1 shows the file, the loop stops on the first of them. */
  lemma SwitchFindsFirstShowing(windows: seq<string>, file: string, w: nat)
    requires 1 <= w < |windows| && windows[w - 1] == file
    ensures 1 <= StopWindow(windows, file) <= w
    ensures windows[StopWindow(windows, file) - 1] == file
  {
  }

  /**
   * A file shown only in the last window is found by isWindowOpenFor but
   * missed by switchToWindowForFile, which leaves window |windows| - 1
   * focused.
   */
  lemma SwitchMissesLastWindow(windows: seq<string>, file: string)
    requires |windows| >= 2 && windows[|windows| - 1] == file
    requires forall j :: 0 <= j < |windows| - 1 ==> windows[j] != file
    ensures file in windows
    ensures StopWindow(windows, file) == |windows| - 1
    ensures windows[StopWindow(windows, file) - 1] != file
  {
  }

  class Editor {
    /** vim.current.line */
    const line: string
    /** The name of the buffer each window shows; window n is windows[n - 1]. */
    const windows: seq<string>
    /** The number of the focused window. */
    var focused: nat
    /** The commands sent through vim.command, oldest first. */
    var log: seq<string>

    ghost predicate Valid()
      reads this
    {
      SingleLine(line) && 1 <= focused <= |windows|
    }

    constructor (line: string, windows: seq<string>, focused: nat)
      requires SingleLine(line) && 1 <= focused <= |windows|
      ensures Valid()
      ensures this.line == line && this.windows == windows && this.focused == focused && log == []
    {
      this.line := line;
      this.windows := windows;
      this.focused := focused;
      log := [];
    }

    /** vim.current.buffer.name: the buffer of the focused window. */
    function CurrentBufferName(): (r: string)
      reads this
      requires Valid()
      ensures r in windows
    {
      windows[focused - 1]
    }

    /** vim.command */
    method Command(c: string)
      modifies this`log
      ensures log == old(log) + [c]
    {
      log := log + [c];
    }

    /** followLink: dispatch on the link found in the current line. */
    method FollowLink()
      requires Valid()
      modifies this
      ensures Valid()
      ensures var link := FindLink(line);
        link.section.None? ==> log == old(log) && focused == old(focused)
      ensures var link := FindLink(line);
        link.section.Some? && link.file.None? ==>
          log == old(log) + LocalJumpCommands(link.section.value) && focused == old(focused)
      ensures var link := FindLink(line);
        link.section.Some? && link.file.Some? ==>
          var absfile := MakeFilenameAbsolute(link.file.value, old(CurrentBufferName()));
          && log == old(log) + FileJumpCommands(windows, absfile, link.section)
          && focused == FileJumpFocus(windows, old(focused), absfile)
    {
      var link := FindLink(line);
      if link.file.None? {
        if link.section.Some? {
          FollowLocalLink(link.section.value);
        }
      } else {
        if link.section.Some? {
          FollowFileLink(link.section, link.file.value);
        }
      }
    }

    /** followLocalLink: search for the section from the top of the file. */
    method FollowLocalLink(section: string)
      modifies this`log
      ensures log == old(log) + LocalJumpCommands(section)
    {
      Command(GotoFirstLine);
      Command(SearchCommand(section));
    }

    /**
     * followFileLink: go to a window showing the file, or split one off for it,
     * then jump to the section if there is one.
     */
    method FollowFileLink(section: Option<string>, file: string)
      requires Valid()
      modifies this
      ensures Valid()
      ensures var absfile := MakeFilenameAbsolute(file, old(CurrentBufferName()));
        log == old(log) + FileJumpCommands(windows, absfile, section)
        && focused == FileJumpFocus(windows, old(focused), absfile)
    {
      var absfile := MakeFilenameAbsolute(file, CurrentBufferName());
      ghost var jump := if absfile in windows then FocusCommands(StopWindow(windows, absfile)) else [VsplitCommand(absfile)];
      ghost var local := match section case Some(s) => LocalJumpCommands(s) case None => [];
      assert FileJumpCommands(windows, absfile, section) == jump + local;
      var open := IsWindowOpenFor(absfile);
      if open {
        SwitchToWindowForFile(absfile);
        assert log == old(log) + jump;
      } else {
        Command(VsplitCommand(absfile));
        assert log == old(log) + jump;
      }
      if section.Some? {
        FollowLocalLink(section.value);
      }
      assert log == old(log) + jump + local;
    }

    /** isWindowOpenFor: does some window show the file? */
    method IsWindowOpenFor(file: string) returns (open: bool)
      ensures open <==> file in windows
    {
      for k := 0 to |windows|
        invariant forall j :: 0 <= j < k ==> windows[j] != file
      {
        if windows[k] == file {
          return true;
        }
      }
      return false;
    }

    /**
     * switchToWindowForFile: focus windows 1, 2, ... up to but not including
     * the last, stopping at the first that shows the file.
     */
    method SwitchToWindowForFile(file: string)
      modifies this
      ensures log == old(log) + FocusCommands(StopWindow(windows, file))
      ensures focused == if StopWindow(windows, file) == 0 then old(focused) else StopWindow(windows, file)
    {
      var i := 1;
      while i < |windows|
        invariant 1 <= i && (i <= |windows| || i == 1)
        invariant forall j :: 0 <= j < i - 1 ==> windows[j] != file
        invariant log == old(log) + FocusCommands(i - 1)
        invariant focused == if i == 1 then old(focused) else i - 1
      {
        Command(FocusCommand(i));
        // Vim reacts to the command by focusing window i
        focused := i;
        if windows[i - 1] == file {
          return;
        }
        i := i + 1;
      }
    }
  }

  lemma TodoLine()
    ensures SingleLine("^TODO^") && FindLink("^TODO^") == Link(Some("TODO"), None)
  {
    assert "^TODO^" == [] + [Caret] + "TODO" + [Caret] + [];
    EmbeddedSectionLink("", "TODO", "");
  }

  lemma NewsLine()
    ensures SingleLine("See ^BREAKING@NEWS.MD^ today")
    ensures FindLink("See ^BREAKING@NEWS.MD^ today") == Link(Some("BREAKING"), Some("NEWS.MD"))
  {
    assert "See ^BREAKING@NEWS.MD^ today"
        == "See " + [Caret] + "BREAKING" + [AtSign] + "NEWS.MD" + [Caret] + " today";
    EmbeddedSectionFileLink("See ", "BREAKING", "NEWS.MD", " today");
  }

  lemma FileJumpExamples()
    ensures FileJumpCommands(["/notes/a.md"], "/notes/NEWS.MD", Some("BREAKING"))
         == ["vsplit /notes/NEWS.MD", "normal 1G", SearchCommand("BREAKING")]
    ensures FileJumpCommands(["/notes/NEWS.MD", "/notes/a.md"], "/notes/NEWS.MD", Some("BREAKING"))
         == [FocusCommand(1), "normal 1G", SearchCommand("BREAKING")]
    ensures FileJumpCommands(["/notes/a.md", "/notes/NEWS.MD"], "/notes/NEWS.MD", Some("BREAKING"))
         == [FocusCommand(1), "normal 1G", SearchCommand("BREAKING")]
  {
    var news, a := "/notes/NEWS.MD", "/notes/a.md";
    assert news != a by { assert |news| != |a|; }
    assert news !in [a];
    assert VsplitCommand(news) == "vsplit /notes/NEWS.MD";
    assert news in [news, a];
    assert news in [a, news];
    assert StopWindow([news, a], news) == 1;
    assert StopWindow([a, news], news) == 1;
    assert FocusCommands(1) == [FocusCommand(1)];
  }

  /** A local link: back to line 1 of the same file, then search for the section; focus stays. */
  method LocalLinkScenario() returns (log: seq<string>, focused: nat)
    ensures log == ["normal 1G", @"/\m\(^\|[^\^]\)TODO\($\|[^\^]\)"]
    ensures focused == 1
  {
    TodoLine();
    SearchCommandExample();
    var e := new Editor("^TODO^", ["/notes/a.md"], 1);
    e.FollowLink();
    log, focused := e.log, e.focused;
  }

  /** A link to a file no window shows: split a window off for it, then search; focus stays. */
  method NewFileScenario() returns (log: seq<string>, focused: nat)
    ensures log == ["vsplit /notes/NEWS.MD", "normal 1G", SearchCommand("BREAKING")]
    ensures focused == 1
  {
    NewsLine();
    SiblingExample();
    FileJumpExamples();
    var e := new Editor("See ^BREAKING@NEWS.MD^ today", ["/notes/a.md"], 1);
    assert e.CurrentBufferName() == "/notes/a.md";
    assert "/notes/NEWS.MD" !in e.windows;
    assert MakeFilenameAbsolute("NEWS.MD", e.CurrentBufferName()) == "/notes/NEWS.MD";
    e.FollowLink();
    assert e.log == FileJumpCommands(["/notes/a.md"], "/notes/NEWS.MD", Some("BREAKING"));
    log, focused := e.log, e.focused;
  }

  /** A link to a file window 1 shows, followed from window 2: focus window 1, then search there. */
  method OpenFileScenario() returns (log: seq<string>, focused: nat, shown: string)
    ensures log == [FocusCommand(1), "normal 1G", SearchCommand("BREAKING")]
    ensures focused == 1 && shown == "/notes/NEWS.MD"
  {
    NewsLine();
    SiblingExample();
    FileJumpExamples();
    var e := new Editor("See ^BREAKING@NEWS.MD^ today", ["/notes/NEWS.MD", "/notes/a.md"], 2);
    assert e.CurrentBufferName() == "/notes/a.md";
    assert StopWindow(e.windows, "/notes/NEWS.MD") == 1;
    assert MakeFilenameAbsolute("NEWS.MD", e.CurrentBufferName()) == "/notes/NEWS.MD";
    assert "/notes/NEWS.MD" in e.windows;
    assert FileJumpFocus(e.windows, e.focused, "/notes/NEWS.MD") == 1;
    e.FollowLink();
    assert e.focused == 1;
    assert e.log == FileJumpCommands(["/notes/NEWS.MD", "/notes/a.md"], "/notes/NEWS.MD", Some("BREAKING"));
    log, focused, shown := e.log, e.focused, e.windows[e.focused - 1];
  }

  /**
   * A link to a file only the last window shows: the switch loop ends on
   * window 1, and the search runs there although it shows another file.
   */
  method LastWindowScenario() returns (log: seq<string>, focused: nat, shown: string)
    ensures log == [FocusCommand(1), "normal 1G", SearchCommand("BREAKING")]
    ensures focused == 1 && shown == "/notes/a.md"
  {
    NewsLine();
    SiblingExample();
    FileJumpExamples();
    var e := new Editor("See ^BREAKING@NEWS.MD^ today", ["/notes/a.md", "/notes/NEWS.MD"], 1);
    assert e.CurrentBufferName() == "/notes/a.md";
    SwitchMissesLastWindow(e.windows, "/notes/NEWS.MD");
    assert MakeFilenameAbsolute("NEWS.MD", e.CurrentBufferName()) == "/notes/NEWS.MD";
    assert FileJumpFocus(e.windows, e.focused, "/notes/NEWS.MD") == 1;
    e.FollowLink();
    assert e.focused == 1;
    assert e.log == FileJumpCommands(["/notes/a.md", "/notes/NEWS.MD"], "/notes/NEWS.MD", Some("BREAKING"));
    log, focused, shown := e.log, e.focused, e.windows[e.focused - 1];
  }
}
