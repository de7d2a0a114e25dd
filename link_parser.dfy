/**
 * findLink: the link on one line of a note.
 *
 * A link is written between two carets, in one of three shapes tried in this
 * order: ^SECTION@FILE^, ^@FILE^ and ^SECTION^. Each shape is one fixed Python
 * regular expression run with `re.search`:
 *   \^(.+)@(.+)\^    \^@(.+)\^    \^(.+)\^
 * The regular expressions are described here by the indices of their
 * delimiters. `re.search` reports the match with the leftmost start; among the
 * matches at that start, backtracking tries the longest first group first and,
 * for it, the longest second group first.
 */
module LinkParser {
  import opened Wrappers
  import opened Strings

  const Caret: char := '^'
  const AtSign: char := '@'

  /** What findLink returns: the pair (section, file), either or both None. */
  datatype Link = Link(section: Option<string>, file: Option<string>)

  /** A line as the editor hands it over: it never holds a newline. */
  predicate SingleLine(line: string)
  {
    forall k :: 0 <= k < |line| ==> line[k] != '\n'
  }

  /** `.+` matches line[lo..hi]: one character or more, none of them a newline. */
  ghost predicate Dots(line: string, lo: int, hi: int)
  {
    0 <= lo < hi <= |line| && forall k :: lo <= k < hi ==> line[k] != '\n'
  }

  /** `\^(.+)@(.+)\^` matches with its carets at i and b and its `@` at a. */
  ghost predicate SectionFileMatch(line: string, i: int, a: int, b: int)
  {
    0 <= i < a < b < |line| && line[i] == Caret && line[a] == AtSign && line[b] == Caret
    && Dots(line, i + 1, a) && Dots(line, a + 1, b)
  }

  /** `\^@(.+)\^` matches with its carets at i and b. */
  ghost predicate FileOnlyMatch(line: string, i: int, b: int)
  {
    0 <= i && i + 1 < b < |line| && line[i] == Caret && line[i + 1] == AtSign && line[b] == Caret
    && Dots(line, i + 2, b)
  }

  /** `\^(.+)\^` matches with its carets at i and b. */
  ghost predicate SectionOnlyMatch(line: string, i: int, b: int)
  {
    0 <= i < b < |line| && line[i] == Caret && line[b] == Caret && Dots(line, i + 1, b)
  }

  ghost predicate HasSectionFile(line: string)
  {
    exists i, a, b :: SectionFileMatch(line, i, a, b)
  }

  ghost predicate HasFileOnly(line: string)
  {
    exists i, b :: FileOnlyMatch(line, i, b)
  }

  ghost predicate HasSectionOnly(line: string)
  {
    exists i, b :: SectionOnlyMatch(line, i, b)
  }

  /** The match `re.search` reports for `\^(.+)@(.+)\^`. */
  ghost predicate PicksSectionFile(line: string, i: int, a: int, b: int)
  {
    && SectionFileMatch(line, i, a, b)
    && (forall i', a', b' :: SectionFileMatch(line, i', a', b') ==> i <= i')
    && (forall a', b' :: SectionFileMatch(line, i, a', b') ==> a' <= a)
    && (forall b' :: SectionFileMatch(line, i, a, b') ==> b' <= b)
  }

  /** The match `re.search` reports for `\^@(.+)\^`. */
  ghost predicate PicksFileOnly(line: string, i: int, b: int)
  {
    && FileOnlyMatch(line, i, b)
    && (forall i', b' :: FileOnlyMatch(line, i', b') ==> i <= i')
    && (forall b' :: FileOnlyMatch(line, i, b') ==> b' <= b)
  }

  /** The match `re.search` reports for `\^(.+)\^`. */
  ghost predicate PicksSectionOnly(line: string, i: int, b: int)
  {
    && SectionOnlyMatch(line, i, b)
    && (forall i', b' :: SectionOnlyMatch(line, i', b') ==> i <= i')
    && (forall b' :: SectionOnlyMatch(line, i, b') ==> b' <= b)
  }

  /** Two carets with at least one character between them. */
  ghost predicate HasCaretPair(line: string)
  {
    exists i, b :: 0 <= i && i + 2 <= b < |line| && line[i] == Caret && line[b] == Caret
  }

  /** Where a match of `\^(.+)@(.+)\^` puts its delimiters. */
  datatype SectionFileSpan = SectionFileSpan(open: nat, at: nat, close: nat)

  /** Where a match of `\^@(.+)\^` or `\^(.+)\^` puts its carets. */
  datatype Span = Span(open: nat, close: nat)

  /**
   * re.search("\^(.+)@(.+)\^", line). The match opens at the first caret,
   * closes at the last caret and splits at the last `@` that leaves a character
   * before the closing caret.
   */
  function SearchSectionFile(line: string): (m: Option<SectionFileSpan>)
    requires SingleLine(line)
    ensures m.Some? ==> PicksSectionFile(line, m.value.open, m.value.at, m.value.close)
    ensures m.None? ==> !HasSectionFile(line)
  {
    match FirstIndexOf(line, Caret, 0)
    case None => None
    case Some(i) =>
      var b := LastIndexFrom(line, Caret, i);
      if b == 0 then None
      else
        match LastIndexBefore(line, AtSign, b - 1)
        case None => None
        case Some(a) => if i + 2 <= a then Some(SectionFileSpan(i, a, b)) else None
  }

  /** re.search("\^@(.+)\^", line): from the first `^@` to the last caret. */
  function SearchFileOnly(line: string): (m: Option<Span>)
    requires SingleLine(line)
    ensures m.Some? ==> PicksFileOnly(line, m.value.open, m.value.close)
    ensures m.None? ==> !HasFileOnly(line)
  {
    match FirstPairIndexOf(line, Caret, AtSign, 0)
    case None => None
    case Some(i) =>
      var b := LastIndexFrom(line, Caret, i);
      if i + 3 <= b then Some(Span(i, b)) else None
  }

  /** re.search("\^(.+)\^", line): from the first caret to the last caret. */
  function SearchSectionOnly(line: string): (m: Option<Span>)
    requires SingleLine(line)
    ensures m.Some? ==> PicksSectionOnly(line, m.value.open, m.value.close)
    ensures m.None? ==> !HasSectionOnly(line)
  {
    match FirstIndexOf(line, Caret, 0)
    case None => None
    case Some(i) =>
      var b := LastIndexFrom(line, Caret, i);
      if i + 2 <= b then Some(Span(i, b)) else None
  }

  /**
   * findLink on the current line: the first of the three shapes that matches
   * decides, and its groups are returned as (section, file). Every group
   * holds one character at least.
   */
  function FindLink(line: string): (r: Link)
    requires SingleLine(line)
    ensures r.section.Some? ==> r.section.value != []
    ensures r.file.Some? ==> r.file.value != []
  {
    match SearchSectionFile(line)
    case Some(m) => Link(Some(line[m.open + 1 .. m.at]), Some(line[m.at + 1 .. m.close]))
    case None =>
      match SearchFileOnly(line)
      case Some(m) => Link(None, Some(line[m.open + 2 .. m.close]))
      case None =>
        match SearchSectionOnly(line)
        case Some(m) => Link(Some(line[m.open + 1 .. m.close]), None)
        case None => Link(None, None)
  }

  /**
   * The ^SECTION@FILE^ shape wins whenever it matches, and then the link holds
   * the two groups of the match re.search reports.
   */
  lemma FindLinkSectionFile(line: string)
    requires SingleLine(line)
    ensures (FindLink(line).section.Some? && FindLink(line).file.Some?) <==> HasSectionFile(line)
    ensures forall i, a, b :: PicksSectionFile(line, i, a, b) ==>
              FindLink(line) == Link(Some(line[i + 1 .. a]), Some(line[a + 1 .. b]))
  {
  }

  /**
   * The ^@FILE^ shape is tried only when the first does not match; its link
   * has no section and holds the group of the match re.search reports.
   */
  lemma FindLinkFileOnly(line: string)
    requires SingleLine(line)
    ensures (FindLink(line).section.None? && FindLink(line).file.Some?) <==>
              !HasSectionFile(line) && HasFileOnly(line)
    ensures forall i, b :: !HasSectionFile(line) && PicksFileOnly(line, i, b) ==>
              FindLink(line) == Link(None, Some(line[i + 2 .. b]))
  {
  }

  /**
   * The ^SECTION^ shape is tried only when neither other shape matches; its
   * link has no file and holds the group of the match re.search reports.
   */
  lemma FindLinkSectionOnly(line: string)
    requires SingleLine(line)
    ensures (FindLink(line).section.Some? && FindLink(line).file.None?) <==>
              !HasSectionFile(line) && !HasFileOnly(line) && HasSectionOnly(line)
    ensures forall i, b :: !HasSectionFile(line) && !HasFileOnly(line) && PicksSectionOnly(line, i, b) ==>
              FindLink(line) == Link(Some(line[i + 1 .. b]), None)
  {
  }

  /** findLink finds nothing exactly when no two carets of the line enclose a character. */
  lemma NoLinkWithoutCaretPair(line: string)
    requires SingleLine(line)
    ensures FindLink(line) == Link(None, None) <==> !HasCaretPair(line)
  {
  }

  predicate NoChar(s: string, c: char)
  {
    forall k :: 0 <= k < |s| ==> s[k] != c
  }

  /** A line without any caret holds no link. */
  lemma CaretFreeLineHasNoLink(line: string)
    requires SingleLine(line) && NoChar(line, Caret)
    ensures FindLink(line) == Link(None, None)
  {
    NoLinkWithoutCaretPair(line);
  }

  /** The text between the two carets of a link written in the shape `link` has. */
  function LinkText(link: Link): string
  {
    match link
    case Link(Some(s), Some(f)) => s + [AtSign] + f
    case Link(None, Some(f)) => [AtSign] + f
    case Link(Some(s), None) => s
    case Link(None, None) => []
  }

  /**
   * A ^SECTION@FILE^ link at known positions: no caret before the opening
   * one or after the closing one, and no `@` after the split one.
   */
  lemma SectionFileLinkAt(line: string, i: nat, a: nat, b: nat, section: string, file: string)
    requires SingleLine(line) && i + 1 < a && a + 1 < b < |line|
    requires line[i] == Caret && line[a] == AtSign && line[b] == Caret
    requires forall k :: 0 <= k < i ==> line[k] != Caret
    requires forall k :: b < k < |line| ==> line[k] != Caret
    requires forall k :: a < k < b ==> line[k] != AtSign
    requires line[i + 1 .. a] == section && line[a + 1 .. b] == file
    ensures FindLink(line) == Link(Some(section), Some(file))
  {
    assert FirstIndexOf(line, Caret, 0) == Some(i);
    assert LastIndexFrom(line, Caret, i) == b;
    assert LastIndexBefore(line, AtSign, b - 1) == Some(a);
  }

  /**
   * A ^@FILE^ link at known positions: no caret before the opening one or
   * after the closing one, and no `@` in the file name.
   */
  lemma FileLinkAt(line: string, i: nat, b: nat, file: string)
    requires SingleLine(line) && i + 3 <= b < |line|
    requires line[i] == Caret && line[i + 1] == AtSign && line[b] == Caret
    requires forall k :: 0 <= k < i ==> line[k] != Caret
    requires forall k :: b < k < |line| ==> line[k] != Caret
    requires forall k :: i + 1 < k < b ==> line[k] != AtSign
    requires line[i + 2 .. b] == file
    ensures FindLink(line) == Link(None, Some(file))
  {
    assert FirstIndexOf(line, Caret, 0) == Some(i);
    assert LastIndexFrom(line, Caret, i) == b;
    assert LastIndexBefore(line, AtSign, b - 1) == Some(i + 1);
    assert FirstPairIndexOf(line, Caret, AtSign, 0) == Some(i);
  }

  /**
   * A ^SECTION^ link at known positions: no caret before the opening one or
   * after the closing one, and no `@` in the section.
   */
  lemma SectionLinkAt(line: string, i: nat, b: nat, section: string)
    requires SingleLine(line) && i + 2 <= b < |line|
    requires line[i] == Caret && line[b] == Caret
    requires forall k :: 0 <= k < i ==> line[k] != Caret
    requires forall k :: b < k < |line| ==> line[k] != Caret
    requires forall k :: i < k < b ==> line[k] != AtSign
    requires line[i + 1 .. b] == section
    ensures FindLink(line) == Link(Some(section), None)
  {
    assert FirstIndexOf(line, Caret, 0) == Some(i);
    assert LastIndexFrom(line, Caret, i) == b;
    assert SearchSectionFile(line).None?;
    assert SearchFileOnly(line).None?;
  }

  /** Where the delimiters of pre + ^section@file^ + post fall, and what lies between them. */
  lemma SectionFileLayout(pre: string, section: string, file: string, post: string)
    requires SingleLine(pre) && SingleLine(section) && SingleLine(file) && SingleLine(post)
    requires NoChar(pre, Caret) && NoChar(post, Caret) && NoChar(file, AtSign)
    ensures var line := pre + [Caret] + section + [AtSign] + file + [Caret] + post;
      var i, a, b := |pre|, |pre| + 1 + |section|, |pre| + 2 + |section| + |file|;
      && SingleLine(line) && b < |line|
      && line[i] == Caret && line[a] == AtSign && line[b] == Caret
      && (forall k :: 0 <= k < i ==> line[k] != Caret)
      && (forall k :: b < k < |line| ==> line[k] != Caret)
      && (forall k :: a < k < b ==> line[k] != AtSign)
      && line[i + 1 .. a] == section && line[a + 1 .. b] == file
  {
    var line := pre + [Caret] + section + [AtSign] + file + [Caret] + post;
    var i, a, b := |pre|, |pre| + 1 + |section|, |pre| + 2 + |section| + |file|;
    assert forall k :: 0 <= k < i ==> line[k] == pre[k];
    assert forall k :: i < k < a ==> line[k] == section[k - i - 1];
    assert forall k :: a < k < b ==> line[k] == file[k - a - 1];
    assert forall k :: b < k < |line| ==> line[k] == post[k - b - 1];
    assert line[i + 1 .. a] == section;
    assert line[a + 1 .. b] == file;
  }

  /**
   * A ^SECTION@FILE^ link in caret-free surroundings parses back to its parts,
   * whatever the section holds (carets and `@` included), as long as the file
   * name holds no `@`.
   */
  lemma EmbeddedSectionFileLink(pre: string, section: string, file: string, post: string)
    requires SingleLine(pre) && SingleLine(section) && SingleLine(file) && SingleLine(post)
    requires NoChar(pre, Caret) && NoChar(post, Caret) && NoChar(file, AtSign)
    requires section != [] && file != []
    ensures SingleLine(pre + [Caret] + section + [AtSign] + file + [Caret] + post)
    ensures FindLink(pre + [Caret] + section + [AtSign] + file + [Caret] + post)
            == Link(Some(section), Some(file))
  {
    SectionFileLayout(pre, section, file, post);
    SectionFileLinkAt(pre + [Caret] + section + [AtSign] + file + [Caret] + post,
                      |pre|, |pre| + 1 + |section|, |pre| + 2 + |section| + |file|, section, file);
  }

  /** Where the delimiters of pre + ^@file^ + post fall, and what lies between them. */
  lemma FileLayout(pre: string, file: string, post: string)
    requires SingleLine(pre) && SingleLine(file) && SingleLine(post)
    requires NoChar(pre, Caret) && NoChar(post, Caret) && NoChar(file, AtSign)
    ensures var line := pre + [Caret, AtSign] + file + [Caret] + post;
      var i, b := |pre|, |pre| + 2 + |file|;
      && SingleLine(line) && b < |line|
      && line[i] == Caret && line[i + 1] == AtSign && line[b] == Caret
      && (forall k :: 0 <= k < i ==> line[k] != Caret)
      && (forall k :: b < k < |line| ==> line[k] != Caret)
      && (forall k :: i + 1 < k < b ==> line[k] != AtSign)
      && line[i + 2 .. b] == file
  {
    var line := pre + [Caret, AtSign] + file + [Caret] + post;
    var i, b := |pre|, |pre| + 2 + |file|;
    assert forall k :: 0 <= k < i ==> line[k] == pre[k];
    assert forall k :: i + 1 < k < b ==> line[k] == file[k - i - 2];
    assert forall k :: b < k < |line| ==> line[k] == post[k - b - 1];
    assert line[i + 2 .. b] == file;
  }

  /** A ^@FILE^ link in caret-free surroundings parses back to (None, FILE). */
  lemma EmbeddedFileLink(pre: string, file: string, post: string)
    requires SingleLine(pre) && SingleLine(file) && SingleLine(post)
    requires NoChar(pre, Caret) && NoChar(post, Caret) && NoChar(file, AtSign)
    requires file != []
    ensures SingleLine(pre + [Caret, AtSign] + file + [Caret] + post)
    ensures FindLink(pre + [Caret, AtSign] + file + [Caret] + post) == Link(None, Some(file))
  {
    FileLayout(pre, file, post);
    FileLinkAt(pre + [Caret, AtSign] + file + [Caret] + post, |pre|, |pre| + 2 + |file|, file);
  }

  /** Where the delimiters of pre + ^section^ + post fall, and what lies between them. */
  lemma SectionLayout(pre: string, section: string, post: string)
    requires SingleLine(pre) && SingleLine(section) && SingleLine(post)
    requires NoChar(pre, Caret) && NoChar(post, Caret) && NoChar(section, AtSign)
    ensures var line := pre + [Caret] + section + [Caret] + post;
      var i, b := |pre|, |pre| + 1 + |section|;
      && SingleLine(line) && b < |line|
      && line[i] == Caret && line[b] == Caret
      && (forall k :: 0 <= k < i ==> line[k] != Caret)
      && (forall k :: b < k < |line| ==> line[k] != Caret)
      && (forall k :: i < k < b ==> line[k] != AtSign)
      && line[i + 1 .. b] == section
  {
    var line := pre + [Caret] + section + [Caret] + post;
    var i, b := |pre|, |pre| + 1 + |section|;
    assert forall k :: 0 <= k < i ==> line[k] == pre[k];
    assert forall k :: i < k < b ==> line[k] == section[k - i - 1];
    assert forall k :: b < k < |line| ==> line[k] == post[k - b - 1];
    assert line[i + 1 .. b] == section;
  }

  /** A ^SECTION^ link in caret-free surroundings parses back to (SECTION, None). */
  lemma EmbeddedSectionLink(pre: string, section: string, post: string)
    requires SingleLine(pre) && SingleLine(section) && SingleLine(post)
    requires NoChar(pre, Caret) && NoChar(post, Caret) && NoChar(section, AtSign)
    requires section != []
    ensures SingleLine(pre + [Caret] + section + [Caret] + post)
    ensures FindLink(pre + [Caret] + section + [Caret] + post) == Link(Some(section), None)
  {
    SectionLayout(pre, section, post);
    SectionLinkAt(pre + [Caret] + section + [Caret] + post, |pre|, |pre| + 1 + |section|, section);
  }

  /** The example lines below, cut at their delimiters. */
  lemma ExampleLineParts()
    ensures "Blah Blah ^BREAKING@NEWS.MD^ Blah"
         == "Blah Blah " + [Caret] + "BREAKING" + [AtSign] + "NEWS.MD" + [Caret] + " Blah"
    ensures "Blah Blub ^BREAKING^ Waffle" == "Blah Blub " + [Caret] + "BREAKING" + [Caret] + " Waffle"
    ensures "Waffle Blah '^@NEWS.MD^' Blub" == "Waffle Blah '" + [Caret, AtSign] + "NEWS.MD" + [Caret] + "' Blub"
  {
  }

  /** The edge-case lines below, cut at their delimiters. */
  lemma EdgeLineParts()
    ensures "^x@y^z@w^" == [] + [Caret] + "x@y^z" + [AtSign] + "w" + [Caret] + []
    ensures "^@a@b^" == [] + [Caret] + "@a" + [AtSign] + "b" + [Caret] + []
    ensures "^^ ^" == [] + [Caret] + "^ " + [Caret] + []
  {
  }

  /** The first test line of the source: a SECTION@FILE link. */
  lemma SectionFileTestLine()
    ensures SingleLine("Blah Blah ^BREAKING@NEWS.MD^ Blah")
    ensures FindLink("Blah Blah ^BREAKING@NEWS.MD^ Blah") == Link(Some("BREAKING"), Some("NEWS.MD"))
  {
    ExampleLineParts();
    EmbeddedSectionFileLink("Blah Blah ", "BREAKING", "NEWS.MD", " Blah");
  }

  /** The second test line of the source: a SECTION link. */
  lemma SectionTestLine()
    ensures SingleLine("Blah Blub ^BREAKING^ Waffle")
    ensures FindLink("Blah Blub ^BREAKING^ Waffle") == Link(Some("BREAKING"), None)
  {
    ExampleLineParts();
    EmbeddedSectionLink("Blah Blub ", "BREAKING", " Waffle");
  }

  /** The third test line of the source: an @FILE link. */
  lemma FileTestLine()
    ensures SingleLine("Waffle Blah '^@NEWS.MD^' Blub")
    ensures FindLink("Waffle Blah '^@NEWS.MD^' Blub") == Link(None, Some("NEWS.MD"))
  {
    ExampleLineParts();
    EmbeddedFileLink("Waffle Blah '", "NEWS.MD", "' Blub");
  }

  /** The section swallows every `@` and caret before the last usable `@`. */
  lemma GreedySectionExample()
    ensures SingleLine("^x@y^z@w^") && FindLink("^x@y^z@w^") == Link(Some("x@y^z"), Some("w"))
  {
    EdgeLineParts();
    EmbeddedSectionFileLink("", "x@y^z", "w", "");
  }

  /** An @FILE link whose file name holds an `@` is read as SECTION@FILE. */
  lemma AtInFileNameExample()
    ensures SingleLine("^@a@b^") && FindLink("^@a@b^") == Link(Some("@a"), Some("b"))
  {
    EdgeLineParts();
    EmbeddedSectionFileLink("", "@a", "b", "");
  }

  /** Two adjacent carets enclose nothing, so the section runs to the last caret. */
  lemma AdjacentCaretsExample()
    ensures SingleLine("^^ ^") && FindLink("^^ ^") == Link(Some("^ "), None)
  {
    EdgeLineParts();
    EmbeddedSectionLink("", "^ ", "");
  }

  /** The first and the last caret of a line. */
  ghost predicate FirstAndLastCaret(line: string, first: nat, last: nat)
  {
    && first < |line| && line[first] == Caret && (forall k :: 0 <= k < first ==> line[k] != Caret)
    && last < |line| && line[last] == Caret && (forall k :: last < k < |line| ==> line[k] != Caret)
  }

  /**
   * Greedy matching makes every link span the whole stretch from the first
   * caret of the line to the last one: written back in its shape, the link
   * found is exactly the text between those two carets.
   */
  lemma LinkSpansFirstToLastCaret(line: string, first: nat, last: nat)
    requires SingleLine(line) && FirstAndLastCaret(line, first, last)
    requires FindLink(line) != Link(None, None)
    ensures first + 1 < last && line[first + 1 .. last] == LinkText(FindLink(line))
  {
    if SearchSectionFile(line).Some? {
      SectionFileSpansCarets(line, first, last);
      SectionFileLinkText(line, first, last);
    } else if SearchFileOnly(line).Some? {
      FileOnlySpansCarets(line, first, last);
      FileLinkText(line, first, last);
    } else {
      SectionOnlySpansCarets(line, first, last);
    }
  }

  /** The text of a ^SECTION@FILE^ link found between the carets at first and last. */
  lemma SectionFileLinkText(line: string, first: nat, last: nat)
    requires SingleLine(line) && SearchSectionFile(line).Some?
    requires SearchSectionFile(line).value.open == first && SearchSectionFile(line).value.close == last
    ensures first + 1 < last && line[first + 1 .. last] == LinkText(FindLink(line))
  {
    var a := SearchSectionFile(line).value.at;
    assert line[first + 1 .. last] == line[first + 1 .. a] + [AtSign] + line[a + 1 .. last];
  }

  /** The text of a ^@FILE^ link found between the carets at first and last. */
  lemma FileLinkText(line: string, first: nat, last: nat)
    requires SingleLine(line) && SearchSectionFile(line).None? && SearchFileOnly(line).Some?
    requires SearchFileOnly(line).value.open == first && SearchFileOnly(line).value.close == last
    ensures first + 1 < last && line[first + 1 .. last] == LinkText(FindLink(line))
  {
    assert line[first + 1 .. last] == [AtSign] + line[first + 2 .. last];
  }

  /** A match of `\^(.+)@(.+)\^` runs from the first caret to the last. */
  lemma SectionFileSpansCarets(line: string, first: nat, last: nat)
    requires SingleLine(line) && FirstAndLastCaret(line, first, last) && SearchSectionFile(line).Some?
    ensures SearchSectionFile(line).value.open == first && SearchSectionFile(line).value.close == last
  {
    var m := SearchSectionFile(line).value;
    assert SectionFileMatch(line, m.open, m.at, last);
    assert SectionFileMatch(line, first, m.at, m.close);
  }

  /**
   * A match of `\^@(.+)\^` runs from the first caret to the last when
   * `\^(.+)@(.+)\^` does not match: a caret before the `^@` would give that
   * shape a match.
   */
  lemma FileOnlySpansCarets(line: string, first: nat, last: nat)
    requires SingleLine(line) && FirstAndLastCaret(line, first, last)
    requires SearchSectionFile(line).None? && SearchFileOnly(line).Some?
    ensures SearchFileOnly(line).value.open == first && SearchFileOnly(line).value.close == last
  {
    var m := SearchFileOnly(line).value;
    assert FileOnlyMatch(line, m.open, last);
    if m.open != first {
      assert SectionFileMatch(line, first, m.open + 1, last);
      assert false;
    }
  }

  /**
   * A match of `\^(.+)\^` runs from the first caret to the last, and its
   * group is the whole link text.
   */
  lemma SectionOnlySpansCarets(line: string, first: nat, last: nat)
    requires SingleLine(line) && FirstAndLastCaret(line, first, last)
    requires SearchSectionFile(line).None? && SearchFileOnly(line).None? && SearchSectionOnly(line).Some?
    ensures first + 1 < last && line[first + 1 .. last] == LinkText(FindLink(line))
  {
    var m := SearchSectionOnly(line).value;
    assert SectionOnlyMatch(line, m.open, last);
    assert SectionOnlyMatch(line, first, m.close);
  }

  /**
   * A file name found by findLink is never empty and holds no `@` before its
   * last character: an earlier `@` would have been taken as the split.
   */
  lemma FileNameHoldsNoSplitAt(line: string)
    requires SingleLine(line) && FindLink(line).file.Some?
    ensures FindLink(line).file.value != []
    ensures forall k :: 0 <= k < |FindLink(line).file.value| - 1 ==> FindLink(line).file.value[k] != AtSign
  {
    var f := FindLink(line).file.value;
    if HasSectionFile(line) {
      var m := SearchSectionFile(line).value;
      var i, a, b := m.open, m.at, m.close;
      assert f == line[a + 1 .. b];
      forall k | 0 <= k < |f| - 1
        ensures f[k] != AtSign
      {
        if f[k] == AtSign {
          assert false;
        }
      }
    } else {
      var m := SearchFileOnly(line).value;
      var i, b := m.open, m.close;
      assert f == line[i + 2 .. b];
      forall k | 0 <= k < |f| - 1
        ensures f[k] != AtSign
      {
        if f[k] == AtSign {
          assert false;
        }
      }
    }
  }
}
