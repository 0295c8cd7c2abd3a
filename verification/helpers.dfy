/**
 * guideseq/helpers.py: line counting over one file and over the files of a
 * folder that match `*.<extension>`. A file is its name and its text as
 * Python reads it in text mode; a folder is the list of its entries, in the
 * order the directory listing gives them.
 */
module Helpers {

  datatype File = File(name: string, content: string)

  /** The extension `countNumberOfLinesInFolder` uses when none is given. */
  const DefaultExtension: string := "fastq"

  /**
   * The lines Python yields when iterating a text file: each ends just after
   * a newline, except a last line that has none.
   */
  function Lines(content: string): (lines: seq<string>)
  {
    if content == [] then []
    else
      var rest := Lines(content[1..]);
      if content[0] == '\n' || rest == [] then [[content[0]]] + rest
      else [[content[0]] + rest[0]] + rest[1..]
  }

  function Concat(lines: seq<string>): string
  {
    if lines == [] then [] else lines[0] + Concat(lines[1..])
  }

  function NewlineCount(s: string): (n: nat)
    ensures n <= |s|
  {
    if s == [] then 0 else (if s[0] == '\n' then 1 else 0) + NewlineCount(s[1..])
  }

  /** Whether the text has an unterminated last line. */
  predicate OpenLastLine(s: string)
  {
    s != [] && s[|s| - 1] != '\n'
  }

  /** The lines cover the text exactly. */
  lemma {:induction false} LinesCover(content: string)
    ensures Concat(Lines(content)) == content
  {
    if content != [] {
      var rest := Lines(content[1..]);
      LinesCover(content[1..]);
      assert content == [content[0]] + content[1..];
      if content[0] != '\n' && rest != [] {
        assert Concat(rest) == rest[0] + Concat(rest[1..]);
        assert Lines(content)[1..] == rest[1..];
      } else {
        assert Lines(content)[1..] == rest;
      }
    }
  }

  /** No line is empty, and a newline only ever ends a line. */
  lemma {:induction false} LinesShape(content: string)
    ensures forall i :: 0 <= i < |Lines(content)| ==> Lines(content)[i] != []
    ensures forall i, j :: 0 <= i < |Lines(content)| && 0 <= j < |Lines(content)[i]| - 1 ==> Lines(content)[i][j] != '\n'
    ensures forall i :: 0 <= i < |Lines(content)| - 1 ==> Lines(content)[i][|Lines(content)[i]| - 1] == '\n'
  {
    if content != [] {
      var rest := Lines(content[1..]);
      LinesShape(content[1..]);
      if content[0] == '\n' || rest == [] {
        assert Lines(content)[1..] == rest;
      } else {
        assert Lines(content)[1..] == rest[1..];
      }
    }
  }

  /** The number of lines is the number of newlines, plus one for an unterminated last line. */
  lemma {:induction false} LineCountFormula(content: string)
    ensures |Lines(content)| == NewlineCount(content) + (if OpenLastLine(content) then 1 else 0)
  {
    if content != [] {
      var rest := Lines(content[1..]);
      LineCountFormula(content[1..]);
      assert rest == [] <==> content[1..] == [] by {
        LinesCover(content[1..]);
      }
      if content[1..] != [] {
        assert content[|content| - 1] == content[1..][|content[1..]| - 1];
      }
    }
  }

  /** Each line holds at least one character. */
  lemma {:induction false} LineCountBound(content: string)
    ensures |Lines(content)| <= |content|
  {
    LineCountFormula(content);
    if OpenLastLine(content) {
      NewlineCountPrefix(content);
    }
  }

  /** An unterminated last line leaves at least one character that is not a newline. */
  lemma {:induction false} NewlineCountPrefix(s: string)
    requires OpenLastLine(s)
    ensures NewlineCount(s) < |s|
  {
    if |s| > 1 {
      assert s[1..][|s[1..]| - 1] == s[|s| - 1];
      NewlineCountPrefix(s[1..]);
    }
  }

  /** countNumberOfLines(filepath) */
  method CountNumberOfLines(content: string) returns (count: nat)
    ensures count == |Lines(content)|
    ensures count == NewlineCount(content) + (if OpenLastLine(content) then 1 else 0)
    ensures count <= |content|
    ensures content == [] ==> count == 0
  {
    count := 0;
    var lines := Lines(content);
    for i := 0 to |lines|
      invariant count == i
    {
      count := count + 1;
    }
    LineCountFormula(content);
    LineCountBound(content);
  }

  /** Whether a name matches the glob `*.<extension>` (the star skips names starting with a dot). */
  predicate MatchesExtension(name: string, extension: string)
  {
    var suffix := "." + extension;
    |name| >= |suffix| && name[|name| - |suffix|..] == suffix && name[0] != '.'
  }

  /** The files of a listing that the glob selects, in listing order. */
  function Matching(files: seq<File>, extension: string): (selected: seq<File>)
    ensures forall f :: f in selected <==> f in files && MatchesExtension(f.name, extension)
  {
    if files == [] then []
    else
      var last := files[|files| - 1];
      Matching(files[..|files| - 1], extension) + (if MatchesExtension(last.name, extension) then [last] else [])
  }

  /** Total line count of the files of a listing that match the extension. */
  function FolderLineCount(files: seq<File>, extension: string): nat
  {
    if files == [] then 0
    else
      var last := files[|files| - 1];
      FolderLineCount(files[..|files| - 1], extension)
        + (if MatchesExtension(last.name, extension) then |Lines(last.content)| else 0)
  }

  /** Sum of the line counts of every file in a list. */
  function TotalLines(files: seq<File>): nat
  {
    if files == [] then 0 else TotalLines(files[..|files| - 1]) + |Lines(files[|files| - 1].content)|
  }

  /** countNumberOfLinesInFolder(folder_path, extension="fastq") */
  method CountNumberOfLinesInFolder(files: seq<File>, extension: string := DefaultExtension) returns (count: nat)
    ensures count == FolderLineCount(files, extension)
  {
    count := 0;
    for i := 0 to |files|
      invariant count == FolderLineCount(files[..i], extension)
    {
      assert files[..i + 1][..i] == files[..i];
      if MatchesExtension(files[i].name, extension) {
        var n := CountNumberOfLines(files[i].content);
        count := count + n;
      }
    }
    assert files[..|files|] == files;
  }

  // ---------------------------------------------------------------------------
  // Properties of the folder count

  /** The folder count is the plain line total of the matching files. */
  lemma {:induction false} FolderCountIsMatchingTotal(files: seq<File>, extension: string)
    ensures FolderLineCount(files, extension) == TotalLines(Matching(files, extension))
  {
    if files != [] {
      var init := files[..|files| - 1];
      var last := files[|files| - 1];
      FolderCountIsMatchingTotal(init, extension);
      var m := Matching(init, extension);
      if MatchesExtension(last.name, extension) {
        assert (m + [last])[..|m + [last]| - 1] == m;
      } else {
        assert m + [] == m;
      }
    }
  }

  /** A folder in which nothing matches counts zero lines. */
  lemma {:induction false} NoMatchCountsZero(files: seq<File>, extension: string)
    requires forall i :: 0 <= i < |files| ==> !MatchesExtension(files[i].name, extension)
    ensures FolderLineCount(files, extension) == 0
  {
    if files != [] {
      NoMatchCountsZero(files[..|files| - 1], extension);
    }
  }

  /** Listings counted in two parts add up. */
  lemma {:induction false} FolderCountAppend(a: seq<File>, b: seq<File>, extension: string)
    ensures FolderLineCount(a + b, extension) == FolderLineCount(a, extension) + FolderLineCount(b, extension)
  {
    if b == [] {
      assert a + b == a;
    } else {
      assert (a + b)[..|a + b| - 1] == a + b[..|b| - 1];
      FolderCountAppend(a, b[..|b| - 1], extension);
    }
  }

  /** One more file raises the count by its line count if it matches, and not at all otherwise. */
  lemma AddFile(files: seq<File>, f: File, extension: string)
    ensures FolderLineCount(files + [f], extension) ==
      FolderLineCount(files, extension) + if MatchesExtension(f.name, extension) then |Lines(f.content)| else 0
  {
    assert (files + [f])[..|files|] == files;
  }

  /** The order of the directory listing does not matter. */
  lemma {:induction false} FolderCountOrderFree(a: seq<File>, b: seq<File>, extension: string)
    requires multiset(a) == multiset(b)
    ensures FolderLineCount(a, extension) == FolderLineCount(b, extension)
  {
    if a != [] {
      var f := a[|a| - 1];
      assert f in multiset(b);
      var j :| 0 <= j < |b| && b[j] == f;
      var rest := b[..j] + b[j + 1..];
      assert b == b[..j] + [f] + b[j + 1..];
      assert a == a[..|a| - 1] + [f];
      assert multiset(b) == multiset(b[..j]) + multiset{f} + multiset(b[j + 1..]);
      assert multiset(a) == multiset(a[..|a| - 1]) + multiset{f};
      assert multiset(rest) == multiset(b[..j]) + multiset(b[j + 1..]);
      assert multiset(a[..|a| - 1]) == multiset(a) - multiset{f};
      assert multiset(rest) == multiset(b) - multiset{f};
      FolderCountOrderFree(a[..|a| - 1], rest, extension);
      FolderCountAppend(b[..j] + [f], b[j + 1..], extension);
      FolderCountAppend(b[..j], [f], extension);
      FolderCountAppend(b[..j], b[j + 1..], extension);
      AddFile(a[..|a| - 1], f, extension);
      AddFile([], f, extension);
    } else {
      assert b == [];
    }
  }
}
