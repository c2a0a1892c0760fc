/** The Qt path helpers the profile and download code relies on, for Unix
    paths with '/' as the only separator: QDir(dir).filePath(name),
    QFileInfo::fileName, QFileInfo::path and QFileInfo::absolutePath. */
module Paths {
  import opened Strings

  /** The path a QDir keeps for dir: "." for the empty path, and one trailing
      '/' removed from any longer path than "/". */
  function DirEntry(dir: string): (r: string)
    ensures r != []
    ensures r == "." || StartsWith(dir, r)
  {
    if dir == [] then "."
    else if |dir| > 1 && dir[|dir| - 1] == '/' then dir[..|dir| - 1]
    else dir
  }

  /** QDir(dir).filePath(name): an absolute name is returned as it is, an empty
      one gives the directory, and otherwise the two are joined with exactly
      one '/' between them. */
  function JoinPath(dir: string, name: string): string {
    var d := DirEntry(dir);
    if name == [] then d
    else if name[0] == '/' then name
    else if d[|d| - 1] == '/' then d + name
    else d + "/" + name
  }

  /** QFileInfo::fileName: the text after the last '/'. */
  function FileName(p: string): (r: string)
    ensures '/' !in r && EndsWith(p, r)
    ensures |r| < |p| ==> p[|p| - |r| - 1] == '/'
  {
    var r := AfterLast(p, '/');
    assert forall i :: 0 <= i < |r| ==> r[i] != '/';
    r
  }

  /** QFileInfo::path: "." without any '/', "/" when the only '/' that
      precedes the file name is the leading one, otherwise the text before the last '/'. */
  function DirPath(p: string): (r: string)
    ensures r != []
  {
    var k := |p| - |FileName(p)|;
    if k == 0 then "."
    else if k == 1 then "/"
    else p[..k - 1]
  }

  predicate IsAbsolute(p: string) {
    p != [] && p[0] == '/'
  }

  /** QFileInfo's absolute file name for a non-empty path: a relative path is
      put under the working directory cwd. QDir::cleanPath is not applied. */
  function AbsoluteName(p: string, cwd: string): (r: string)
    ensures IsAbsolute(p) ==> r == p
    ensures EndsWith(r, p)
  {
    if IsAbsolute(p) then p
    else if cwd != [] && cwd[|cwd| - 1] == '/' then cwd + p
    else cwd + "/" + p
  }

  /** A relative path is put under the working directory: the result starts
      with cwd, followed by the path directly when cwd already ends with '/'
      and by '/' and the path otherwise; under an absolute working directory
      the result is absolute. */
  lemma AbsoluteNameOfRelative(p: string, cwd: string)
    requires !IsAbsolute(p)
    ensures var r := AbsoluteName(p, cwd);
            StartsWith(r, cwd) && (r == cwd + p || r == cwd + "/" + p)
            && (r == cwd + p <==> cwd != [] && cwd[|cwd| - 1] == '/')
            && (IsAbsolute(cwd) ==> IsAbsolute(r))
  {
    var r := AbsoluteName(p, cwd);
    if cwd != [] && cwd[|cwd| - 1] == '/' {
      StartsWithConcat(cwd, p);
    } else {
      assert r == cwd + ("/" + p);
      StartsWithConcat(cwd, "/" + p);
      assert r != cwd + p by {
        assert |r| != |cwd + p|;
      }
    }
  }

  /** QFileInfo::absolutePath. */
  function AbsolutePath(p: string, cwd: string): string {
    DirPath(AbsoluteName(p, cwd))
  }

  /** No two consecutive separators. QDir::cleanPath also guarantees this, but
      it removes "." and ".." segments as well, which this predicate allows. */
  predicate NoEmptySegments(p: string) {
    forall i :: 0 <= i < |p| - 1 ==> !(p[i] == '/' && p[i + 1] == '/')
  }

  /** Joining a directory that does not end with '/' and a relative name puts
      exactly one '/' between them. */
  lemma JoinPlain(dir: string, name: string)
    requires dir != [] && dir[|dir| - 1] != '/'
    requires name != [] && name[0] != '/'
    ensures JoinPath(dir, name) == dir + "/" + name
  {
  }

  /** The file name of a joined path is the name that was joined. */
  lemma FileNameOfJoin(dir: string, name: string)
    requires name != [] && '/' !in name
    ensures FileName(JoinPath(dir, name)) == name
  {
    var d := DirEntry(dir);
    var j := JoinPath(dir, name);
    var pre := if d[|d| - 1] == '/' then d else d + "/";
    assert j == pre + name;
    AfterLastAbsent(name, '/');
    AfterLastAppend(pre, name, '/');
  }

  lemma {:induction false} AfterLastAppend(a: string, b: string, c: char)
    requires a != [] && a[|a| - 1] == c
    requires c !in b
    ensures AfterLast(a + b, c) == b
    decreases |b|
  {
    if b == [] {
      assert a + b == a;
    } else {
      var s := a + b;
      assert s[..|s| - 1] == a + b[..|b| - 1];
      assert s[|s| - 1] == b[|b| - 1];
      AfterLastAppend(a, b[..|b| - 1], c);
      assert b[..|b| - 1] + [b[|b| - 1]] == b;
    }
  }

  /** An absolute path with a file name and no empty segment is exactly its
      directory joined with its file name. */
  lemma SplitAndJoin(p: string)
    requires IsAbsolute(p) && NoEmptySegments(p) && FileName(p) != []
    ensures JoinPath(DirPath(p), FileName(p)) == p
  {
    var f := FileName(p);
    var k := |p| - |f|;
    assert p[k - 1] == '/';
    assert p == p[..k] + f;
    if k == 1 {
      assert p == "/" + f;
    } else {
      var d := p[..k - 1];
      assert p[..k] == d + "/";
      assert d[|d| - 1] != '/' by {
        assert d[|d| - 1] == p[k - 2];
      }
      assert f[0] != '/';
      JoinPlain(d, f);
    }
  }
}
