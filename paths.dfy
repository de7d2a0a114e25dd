/**
 * makeFilenameAbsolute and the two POSIX path functions it relies on,
 * `os.path.isabs` and `os.path.dirname` as `posixpath` defines them.
 */
module Paths {
  import opened Wrappers
  import opened Strings

  const Sep: char := '/'

  /** posixpath.isabs: the path starts with a separator. */
  predicate IsAbs(p: string)
  {
    |p| > 0 && p[0] == Sep
  }

  predicate AllSeps(s: string)
  {
    forall k :: 0 <= k < |s| ==> s[k] == Sep
  }

  /** str.rstrip('/'): the string without its trailing separators. */
  function StripTrailingSeps(s: string): (r: string)
    ensures |r| <= |s| && r == s[..|r|]
    ensures forall k :: |r| <= k < |s| ==> s[k] == Sep
    ensures r == [] || r[|r| - 1] != Sep
  {
    if s != [] && s[|s| - 1] == Sep then StripTrailingSeps(s[..|s| - 1]) else s
  }

  /**
   * p is d, then the separators p[|d|..m], then a last component p[m..]
   * without separators; d keeps that run only when it is nothing but
   * separators itself, and otherwise ends with a character that is not one.
   */
  ghost predicate SplitAt(p: string, d: string, m: int)
  {
    && |d| <= m <= |p| && d == p[..|d|]
    && (forall k :: |d| <= k < m ==> p[k] == Sep)
    && (forall k :: m <= k < |p| ==> p[k] != Sep)
    && (AllSeps(d) ==> m == |d|)
    && (!AllSeps(d) ==> d[|d| - 1] != Sep && |d| < m)
  }

  /** d is the directory part of p. */
  ghost predicate DirectoryPart(p: string, d: string)
  {
    exists m :: SplitAt(p, d, m)
  }

  /** A path has one directory part at most. */
  lemma DirectoryPartUnique(p: string, d: string, e: string)
    requires DirectoryPart(p, d) && DirectoryPart(p, e)
    ensures d == e
  {
    if |d| != |e| {
      var short, long := if |d| < |e| then d else e, if |d| < |e| then e else d;
      var ms :| SplitAt(p, short, ms);
      var ml :| SplitAt(p, long, ml);
      if AllSeps(long) {
        SeparatorPrefix(p, short, long);
      } else {
        LastCharacterOfDirectory(p, long, ml);
      }
      assert false;
    }
  }

  /** A shorter prefix of a prefix made of separators is made of them too, and so is the character after it. */
  lemma SeparatorPrefix(p: string, short: string, long: string)
    requires |short| < |long| <= |p| && short == p[..|short|] && long == p[..|long|] && AllSeps(long)
    ensures AllSeps(short) && p[|short|] == Sep
  {
    forall k | 0 <= k < |short| ensures short[k] == Sep {
      assert short[k] == long[k];
    }
    assert p[|short|] == long[|short|];
  }

  /** A directory part that is not all separators ends just before a separator. */
  lemma LastCharacterOfDirectory(p: string, d: string, m: int)
    requires SplitAt(p, d, m) && !AllSeps(d)
    ensures 0 < |d| < |p| && p[|d| - 1] != Sep && p[|d|] == Sep
  {
  }

  /**
   * posixpath.dirname: everything up to the last separator, with the trailing
   * separators dropped unless nothing else is left. The path is cut into the
   * result, a run of separators and a last component without separators.
   */
  function Dirname(p: string): (d: string)
    ensures DirectoryPart(p, d)
  {
    match LastIndexBefore(p, Sep, |p|)
    case None => assert SplitAt(p, [], 0); []
    case Some(k) =>
      var head := p[..k + 1];
      if AllSeps(head) then assert SplitAt(p, head, k + 1); head
      else
        var d := StripTrailingSeps(head);
        assert SplitAt(p, d, k + 1);
        d
  }

  /**
   * makeFilenameAbsolute: an absolute reference is kept; any other is put in
   * the directory of the current buffer's file, joined with a separator and
   * without normalising `.` or `..`.
   */
  function MakeFilenameAbsolute(file: string, current: string): (r: string)
    ensures IsAbs(file) ==> r == file
  {
    if IsAbs(file) then file else Dirname(current) + [Sep] + file
  }

  /**
   * The result ends with the reference as written; a relative one is preceded
   * by the directory of the current file and one separator, and the result is
   * absolute unless the current file's path is relative and holds a separator.
   */
  lemma AbsoluteReferenceJoin(file: string, current: string)
    ensures var r := MakeFilenameAbsolute(file, current);
      && |file| <= |r| && r[|r| - |file| ..] == file
      && (!IsAbs(file) ==> r[.. |r| - |file|] == Dirname(current) + [Sep])
      && (IsAbs(r) <==> IsAbs(file) || IsAbs(current) || Sep !in current)
  {
  }

  /** The directory of a file one level below the root. */
  lemma NotesDirname()
    ensures Dirname("/notes/a.md") == "/notes"
  {
    var p := "/notes/a.md";
    assert p[6] == Sep && p[7] != Sep && p[8] != Sep && p[9] != Sep && p[10] != Sep;
    assert LastIndexBefore(p, Sep, |p|) == Some(6);
    assert p[..7] == "/notes/";
    assert !AllSeps("/notes/") by {
      assert "/notes/"[1] != Sep;
    }
    assert StripTrailingSeps("/notes/") == "/notes";
  }

  /** A relative reference lands beside the current file. */
  lemma SiblingExample()
    ensures MakeFilenameAbsolute("NEWS.MD", "/notes/a.md") == "/notes/NEWS.MD"
  {
    NotesDirname();
  }

  /** `..` and `.` are kept as written, not collapsed. */
  lemma NoNormalisationExample()
    ensures MakeFilenameAbsolute("../b.md", "/notes/a.md") == "/notes/../b.md"
    ensures MakeFilenameAbsolute("./b.md", "/notes/a.md") == "/notes/./b.md"
  {
    NotesDirname();
  }

  /** A current file without any directory part puts the reference at the root. */
  lemma BareCurrentExample()
    ensures MakeFilenameAbsolute("b.md", "a.md") == "/b.md"
  {
  }

  /** A current file directly under the root gives a doubled separator. */
  lemma RootCurrentExample()
    ensures MakeFilenameAbsolute("b.md", "/a.md") == "//b.md"
  {
    assert SplitAt("/a.md", "/", 1);
    DirectoryPartUnique("/a.md", Dirname("/a.md"), "/");
  }
}
