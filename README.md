# navi: following caret links in Vim notes

navi is a Vim plugin for plain-text notes. A note links to another place
with a caret-delimited marker on one line: `^SECTION@FILE^` (a section in
another file), `^@FILE^` (another file) or `^SECTION^` (a section in the same
file). `followLink` reads the current line and finds the link, then acts on it:
- a local link moves to line 1 and searches forward for the section;
- a file link makes the file's path absolute, focuses a window that already
  shows it or splits a new one off, and then searches for the section.

This project models that logic, all of it in `navi.py`, in Dafny:

- `LinkParser` — `findLink`.
  - Each of its three Python regular expressions (`\^(.+)@(.+)\^`,
    `\^@(.+)\^`, `\^(.+)\^`) is described by the indices of its delimiters.
  - `re.search` picks the match with the leftmost start, then the longest first
    group, then the longest second group. The predicates `PicksSectionFile`,
    `PicksFileOnly` and `PicksSectionOnly` state this choice.
  - The functions `SearchSectionFile`, `SearchFileOnly` and `SearchSectionOnly`
    compute it and are proved to make it.
  - `FindLink` tries the three shapes in the source's order.
- `Paths` — `makeFilenameAbsolute`, with `os.path.isabs` and
  `os.path.dirname` as POSIX `posixpath` defines them. The name of the current
  buffer is a parameter.
- `Navi` — the editor as the plugin sees it: a class `Editor`.
  - What the plugin reads is a snapshot: the current line, and the buffer
    name of each window (window n is entry n - 1).
  - What it changes are two fields: `focused`, the number of the focused
    window, and `log`, the commands passed to `vim.command`, in order.
  - `followLink`, `followLocalLink`, `followFileLink`, `isWindowOpenFor` and
    `switchToWindowForFile` are methods on it. The two loops keep their loop
    form.
  - Each method is proved against specification functions: `StopWindow`,
    `FocusCommands`, `FileJumpCommands` and `FileJumpFocus`.
- `Strings` — index searches used by the parser, and `str()` of a natural
  number as a decimal string.
- `Wrappers` — `Option`.

Where the plugin's description and `navi.py` differ, the model follows
`navi.py`:
- There is no navigation history and no "go back". `breadcrumbs` is declared
  and never used.
- A `^@FILE^` link does nothing. `followLink` calls `followFileLink` only when
  the section is not `None`.
- The section goes into the search command unescaped.
- `switchToWindowForFile` never visits the last window.
- `findLink` returns `(section, file)`, as the code and its tests do, not
  `(filename, section)` as its docstring says.

## Model

| member | source | states |
|---|---|---|
| LinkParser.SearchSectionFile | navi.py:78 | a result is the match `re.search` reports for `\^(.+)@(.+)\^` (leftmost start, longest section, then longest file); no result exactly when the pattern matches nowhere |
| LinkParser.SearchFileOnly | navi.py:81-83 | a result is the match `re.search` reports for `\^@(.+)\^`; no result exactly when the pattern matches nowhere |
| LinkParser.SearchSectionOnly | navi.py:86-88 | a result is the match `re.search` reports for `\^(.+)\^`; no result exactly when the pattern matches nowhere |
| LinkParser.FindLink | navi.py:70-91 | every component of the returned pair holds one character at least |
| LinkParser.FindLinkSectionFile | navi.py:78-91 | both components are present exactly when `\^(.+)@(.+)\^` matches, and then they are its two groups |
| LinkParser.FindLinkFileOnly | navi.py:79-83 | (None, file) exactly when the first pattern fails and `\^@(.+)\^` matches, and the file is that match's group |
| LinkParser.FindLinkSectionOnly | navi.py:84-88 | (section, None) exactly when the first two patterns fail and `\^(.+)\^` matches, and the section is that match's group |
| LinkParser.NoLinkWithoutCaretPair | navi.py:84-90 | (None, None) exactly when no two carets of the line enclose a character |
| LinkParser.CaretFreeLineHasNoLink | navi.py:84-90 | a line without a caret gives (None, None) |
| LinkParser.SectionFileLinkAt | navi.py:78-91 | with carets only at i and b outside the link and no `@` after a, the link is (line[i+1..a], line[a+1..b]) |
| LinkParser.FileLinkAt | navi.py:78-83 | with carets only at i and b outside the link, `@` at i+1 and none in the file, the link is (None, line[i+2..b]) |
| LinkParser.SectionLinkAt | navi.py:78-88 | with carets only at i and b outside the link and no `@` in the section, the link is (line[i+1..b], None) |
| LinkParser.EmbeddedSectionFileLink | navi.py:78-91 | `^SECTION@FILE^` written into caret-free text parses back to (SECTION, FILE), whatever the section holds, when FILE has no `@` |
| LinkParser.EmbeddedFileLink | navi.py:78-83 | `^@FILE^` written into caret-free text parses back to (None, FILE) when FILE has no `@` |
| LinkParser.EmbeddedSectionLink | navi.py:78-88 | `^SECTION^` written into caret-free text parses back to (SECTION, None) when SECTION has no `@` |
| LinkParser.SectionFileTestLine | navi.py:93-95 | "Blah Blah ^BREAKING@NEWS.MD^ Blah" gives ("BREAKING", "NEWS.MD") |
| LinkParser.SectionTestLine | navi.py:97-99 | "Blah Blub ^BREAKING^ Waffle" gives ("BREAKING", None) |
| LinkParser.FileTestLine | navi.py:101-103 | "Waffle Blah '^@NEWS.MD^' Blub" gives (None, "NEWS.MD") |
| LinkParser.GreedySectionExample | navi.py:78-91 | "^x@y^z@w^" gives ("x@y^z", "w"): the section takes carets and every `@` but the last |
| LinkParser.AtInFileNameExample | navi.py:78-83 | "^@a@b^" gives ("@a", "b"): the first pattern wins over `^@FILE^` |
| LinkParser.AdjacentCaretsExample | navi.py:84-88 | "^^ ^" gives ("^ ", None): the section runs from the first caret to the last |
| LinkParser.LinkSpansFirstToLastCaret | navi.py:78-91 | whenever a link is found, the text between the first and the last caret of the line is exactly that link written back in its shape |
| LinkParser.SectionFileSpansCarets | navi.py:78 | a match of the first pattern opens at the first caret and closes at the last |
| LinkParser.FileOnlySpansCarets | navi.py:78-83 | a match of `\^@(.+)\^`, tried after the first pattern fails, opens at the first caret and closes at the last |
| LinkParser.SectionOnlySpansCarets | navi.py:84-88 | the section of a `^SECTION^` link is the whole text between the first and the last caret |
| LinkParser.FileNameHoldsNoSplitAt | navi.py:78-91 | a file name found is non-empty and has no `@` before its last character |
| Paths.IsAbs | navi.py:138 | `os.path.isabs` for POSIX paths: absolute exactly when the path begins with "/", so "" is relative; a definition, used by `MakeFilenameAbsolute` and `AbsoluteReferenceJoin` |
| Paths.StripTrailingSeps | navi.py:141 | the `rstrip('/')` inside `dirname`: a prefix of the string, everything dropped is a separator, and the result is empty or does not end with one |
| Paths.Dirname | navi.py:141 | the result is the directory part of the path: a prefix, followed by a run of separators and a last component without any; the run stays only when the prefix is all separators |
| Paths.DirectoryPartUnique | navi.py:141 | a path has one directory part at most, so the directory-part property fixes what `dirname` returns |
| Paths.MakeFilenameAbsolute | navi.py:132-139 | an absolute reference is returned unchanged, whatever the current buffer |
| Paths.AbsoluteReferenceJoin | navi.py:138-141 | the result ends with the reference as written; a relative one is preceded by exactly dirname(current) and "/"; the result is absolute unless the current path is relative and holds a "/" |
| Paths.NotesDirname | navi.py:141 | dirname("/notes/a.md") is "/notes" |
| Paths.SiblingExample | navi.py:138-141 | "NEWS.MD" beside "/notes/a.md" is "/notes/NEWS.MD" |
| Paths.NoNormalisationExample | navi.py:141 | "../b.md" and "./b.md" beside "/notes/a.md" are "/notes/../b.md" and "/notes/./b.md", not normalised |
| Paths.BareCurrentExample | navi.py:141 | "b.md" beside "a.md" is "/b.md" |
| Paths.RootCurrentExample | navi.py:141 | "b.md" beside "/a.md" is "//b.md" |
| Strings.DecimalString | navi.py:158 | `str(i)`: non-empty, digits only, no leading zero |
| Strings.DecimalRoundTrip | navi.py:158 | reading the decimal string back gives the number |
| Strings.DecimalStringInjective | navi.py:158 | different numbers give different decimal strings, so different windows get different focus commands |
| Navi.FocusCommand | navi.py:158 | the `exe i . "wincmd w"` command for window i; a definition, whose meaning `FocusCommandNamesWindow` states |
| Navi.FocusCommandNamesWindow | navi.py:158 | the command is "exe ", then digits that read back as the window number, then ` . "wincmd w"` |
| Navi.FocusCommands | navi.py:157-158 | the switch loop's commands for windows 1 to k: k of them, the j-th focusing window j |
| Navi.StopWindow | navi.py:156-160 | where the switch loop stops: window 0 (none) with at most one window, otherwise one of windows 1 to n - 1; no window before it shows the file; it shows the file unless it is window n - 1 |
| Navi.SwitchFindsFirstShowing | navi.py:157-160 | when one of windows 1 to n - 1 shows the file, the loop stops on the first of them, which shows it |
| Navi.SwitchMissesLastWindow | navi.py:144-160 | a file shown only in the last window is found by isWindowOpenFor but missed by the switch, which stops on window n - 1 |
| Navi.SearchCommand | navi.py:106-115 | `"/\m" + targetRegex1 + section + targetRegex2`: the fixed prefix, the section verbatim, then the fixed suffix (`TargetRegex1` and `TargetRegex2` are the two constants) |
| Navi.LocalJumpCommands | navi.py:114-115 | the specification of `followLocalLink`: two commands, "normal 1G" and then the search for the section |
| Navi.FileJumpCommands | navi.py:123-129 | the specification of the commands of `followFileLink`; a definition, whose shape `FileJumpLayout` states |
| Navi.VsplitCommand | navi.py:127 | "vsplit " followed by the absolute path, verbatim; a definition |
| Navi.FileJumpLayout | navi.py:123-129 | a file jump is n moves, being the focus commands for windows 1 to StopWindow when a window shows the file and otherwise one vsplit of it, followed by the local jump exactly when there is a section |
| Navi.FileJumpFocus | navi.py:124-127 | the specification of the focus after `followFileLink`: unchanged when no window shows the file or there is one window at most, otherwise one of windows 1 to n - 1, showing the file unless it is window n - 1 |
| Navi.Editor.CurrentBufferName | navi.py:140 | `vim.current.buffer.name`: a definition (the buffer of window `focused`); its contract: one of the windows' buffers |
| Navi.SearchCommandInjective | navi.py:115 | different sections give different search commands: the section is kept verbatim |
| Navi.SearchCommandExample | navi.py:106-115 | the search for "TODO" is `/\m\(^\|[^\^]\)TODO\($\|[^\^]\)` |
| Navi.Editor.Command | navi.py:114 | `vim.command` appends one command to the log |
| Navi.Editor.FollowLink | navi.py:56-67 | (None, _) changes nothing, not even for a file-only link; (section, None) logs the local jump; (section, file) logs the file jump for the absolute path and leaves focus where `FileJumpFocus` puts it: on the window where the switch loop stops, which need not show the file, or unchanged after a vsplit |
| Navi.Editor.FollowLocalLink | navi.py:109-115 | logs "normal 1G" and then the search for the section |
| Navi.Editor.FollowFileLink | navi.py:118-129 | logs the focus commands of the switch loop when a window shows the absolute path, otherwise "vsplit " + path; then the local jump when there is a section; focus moves to the window where the switch loop stops, or stays unchanged after a vsplit or with one window, as `FileJumpFocus` says |
| Navi.Editor.IsWindowOpenFor | navi.py:144-153 | true exactly when some window shows the file (false with no windows) |
| Navi.Editor.SwitchToWindowForFile | navi.py:156-160 | logs the focus commands for windows 1 to StopWindow, in order, and leaves that window focused (nothing changes with at most one window) |
| Navi.TodoLine | navi.py:84-88 | "^TODO^" gives ("TODO", None) |
| Navi.NewsLine | navi.py:78-91 | "See ^BREAKING@NEWS.MD^ today" gives ("BREAKING", "NEWS.MD") |
| Navi.LocalLinkScenario | navi.py:56-67 | following "^TODO^" logs "normal 1G" and the search for TODO, and focus stays on window 1 |
| Navi.NewFileScenario | navi.py:118-141 | following "See ^BREAKING@NEWS.MD^ today" from "/notes/a.md", with no window on the file, logs a vsplit of "/notes/NEWS.MD" and the search, and focus stays on window 1 |
| Navi.OpenFileScenario | navi.py:118-160 | the same link followed from window 2 while window 1 shows "/notes/NEWS.MD" focuses window 1, which shows the file, then searches |
| Navi.LastWindowScenario | navi.py:118-160 | the same link followed while only the last of two windows shows "/notes/NEWS.MD" ends on window 1, which shows "/notes/a.md", and the search runs there |
| Navi.FileJumpExamples | navi.py:118-129 | the commands of a file jump: a vsplit when no window shows the file; focusing window 1 when window 1 shows it, and also when only the last of two windows does |

## Left out

- `print buffer.name` in `isWindowOpenFor` (navi.py:150) is console output and is not modelled. Without it, stopping at the first matching window is not observable. `Navi.Editor.IsWindowOpenFor` returns early as the source does, but its contract states only the result.
- What Vim does with a command is not modelled: moving the cursor, running the `\m` search, and splitting a window. The search pattern is only a string. After `vsplit` neither the window list nor the focus changes in the model, because the new window's number depends on Vim's settings.
- `Navi.Editor.SwitchToWindowForFile` takes focusing window i to be the effect of the command it sends. The check on the buffer of the current window is then a check on `windows[i - 1]`.
- `breadcrumbs` (navi.py:53) is never read or written, and `navi.py` has no "go back". There is no history to model.
- The `import vim` fallback, the `testing` flag and the `dotdict` mock (navi.py:44-50, 162-178) are test scaffolding. The three test functions are modelled as lemmas.
- A general regular-expression engine is not modelled. Only the three fixed patterns are described.
- Windows drive letters and backslash separators are not modelled, only POSIX paths.
- A buffer without a name (`None` in Vim) is not modelled. Buffer names are strings.
- Python 2 byte strings are modelled as sequences of characters.
- `LinkParser.FindLink` requires a line without a newline. Vim never hands a line with one to the plugin, and `.` would not match one.
