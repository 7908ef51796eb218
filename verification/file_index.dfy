/**
 * The schema file index built by `parse_files`: every file the directory walk
 * reports is matched against the configured path pattern; a match yields a
 * (database, table) key, which is mapped to the file's path. A later file
 * with the same key replaces the earlier one, and every matching file is
 * counted, replaced or not.
 *
 * The directory walk is given as a sequence of directories, the path joining
 * and normalisation as the function `join`, and the compiled path pattern as
 * the function `matcher`.
 */
module FileIndex {
  import opened Wrappers

  /** A (database, table) pair captured from a file path. */
  type Key = (string, string)

  /** One step of the directory walk: a directory and the names of the files directly in it. */
  datatype Dir = Dir(path: string, files: seq<string>)

  /** Why the run stops before anything is reconciled. */
  datatype ParseError = FolderMissing | NoSchemaFiles

  datatype ParseResult =
    | Failed(error: ParseError)
    | Indexed(index: map<Key, string>, count: nat)

  /** The full paths of the files of one directory, in walk order. */
  function DirPaths(dirPath: string, files: seq<string>, join: (string, string) -> string): (paths: seq<string>)
    ensures |paths| == |files|
    ensures forall k :: 0 <= k < |files| ==> paths[k] == join(dirPath, files[k])
  {
    if files == [] then []
    else DirPaths(dirPath, files[..|files| - 1], join) + [join(dirPath, files[|files| - 1])]
  }

  /** The full paths of all files of the walk, in the order the walk reports them. */
  function WalkPaths(walk: seq<Dir>, join: (string, string) -> string): seq<string>
  {
    if walk == [] then []
    else
      var last := walk[|walk| - 1];
      WalkPaths(walk[..|walk| - 1], join) + DirPaths(last.path, last.files, join)
  }

  /** The number of paths in `paths` that match. */
  function MatchCount(paths: seq<string>, matcher: string -> Option<Key>): (count: nat)
    ensures count <= |paths|
  {
    if paths == [] then 0
    else MatchCount(paths[..|paths| - 1], matcher) + (if matcher(paths[|paths| - 1]).Some? then 1 else 0)
  }

  /**
   * The index after visiting `paths` in order: each match stores its path under
   * its key, so every entry matches to the key it is stored under, and
   * overwriting never adds a key: at most as many keys as files matched.
   */
  function IndexOf(paths: seq<string>, matcher: string -> Option<Key>): (index: map<Key, string>)
    ensures forall key :: key in index ==> matcher(index[key]) == Some(key)
    ensures |index| <= MatchCount(paths, matcher)
  {
    if paths == [] then map[]
    else
      var earlier := IndexOf(paths[..|paths| - 1], matcher);
      match matcher(paths[|paths| - 1])
      case None => earlier
      case Some(key) => earlier[key := paths[|paths| - 1]]
  }

  lemma DirPathsStep(before: seq<string>, dirPath: string, files: seq<string>, j: nat, join: (string, string) -> string)
    requires j < |files|
    ensures before + DirPaths(dirPath, files[..j + 1], join) == before + DirPaths(dirPath, files[..j], join) + [join(dirPath, files[j])]
  {
    assert files[..j + 1][..j] == files[..j];
  }

  lemma WalkPathsStep(walk: seq<Dir>, i: nat, join: (string, string) -> string)
    requires i < |walk|
    ensures WalkPaths(walk[..i + 1], join) == WalkPaths(walk[..i], join) + DirPaths(walk[i].path, walk[i].files, join)
  {
    assert walk[..i + 1][..i] == walk[..i];
  }

  lemma VisitStep(paths: seq<string>, p: string, matcher: string -> Option<Key>)
    ensures IndexOf(paths + [p], matcher) == if matcher(p).Some? then IndexOf(paths, matcher)[matcher(p).value := p] else IndexOf(paths, matcher)
    ensures MatchCount(paths + [p], matcher) == MatchCount(paths, matcher) + if matcher(p).Some? then 1 else 0
  {
    assert (paths + [p])[..|paths|] == paths;
  }

  /**
   * The `parse_files` loop: a missing folder and a walk without any matching
   * file are errors; otherwise the index and the number of matching files.
   */
  method ParseFiles(folderExists: bool, walk: seq<Dir>, join: (string, string) -> string,
                    matcher: string -> Option<Key>) returns (r: ParseResult)
    ensures !folderExists ==> r == Failed(FolderMissing)
    ensures folderExists && MatchCount(WalkPaths(walk, join), matcher) == 0 ==> r == Failed(NoSchemaFiles)
    ensures folderExists && MatchCount(WalkPaths(walk, join), matcher) > 0 ==>
      r == Indexed(IndexOf(WalkPaths(walk, join), matcher), MatchCount(WalkPaths(walk, join), matcher))
  {
    if !folderExists {
      return Failed(FolderMissing);
    }
    var index: map<Key, string> := map[];
    var count := 0;
    ghost var visited: seq<string> := [];
    for i := 0 to |walk|
      invariant visited == WalkPaths(walk[..i], join)
      invariant index == IndexOf(visited, matcher) && count == MatchCount(visited, matcher)
    {
      var dir := walk[i];
      ghost var before := visited;
      for j := 0 to |dir.files|
        invariant visited == before + DirPaths(dir.path, dir.files[..j], join)
        invariant index == IndexOf(visited, matcher) && count == MatchCount(visited, matcher)
      {
        var fullPath := join(dir.path, dir.files[j]);
        var hits := matcher(fullPath);
        DirPathsStep(before, dir.path, dir.files, j, join);
        VisitStep(visited, fullPath, matcher);
        visited := visited + [fullPath];
        if hits.None? {
          continue;
        }
        count := count + 1;
        index := index[hits.value := fullPath];
      }
      assert dir.files[..|dir.files|] == dir.files;
      WalkPathsStep(walk, i, join);
    }
    assert walk[..|walk|] == walk;
    if count == 0 {
      return Failed(NoSchemaFiles);
    }
    return Indexed(index, count);
  }

  /** Every entry's path is one of the visited paths. */
  lemma {:induction false} IndexEntriesVisited(paths: seq<string>, matcher: string -> Option<Key>, key: Key)
    requires key in IndexOf(paths, matcher)
    ensures IndexOf(paths, matcher)[key] in paths
  {
    var prefix := paths[..|paths| - 1];
    var last := paths[|paths| - 1];
    assert paths == prefix + [last];
    if matcher(last) != Some(key) {
      IndexEntriesVisited(prefix, matcher, key);
    }
  }

  /** Every matching path contributes its key to the index. */
  lemma {:induction false} IndexHasEveryMatch(paths: seq<string>, matcher: string -> Option<Key>, i: nat)
    requires i < |paths| && matcher(paths[i]).Some?
    ensures matcher(paths[i]).value in IndexOf(paths, matcher)
  {
    if i < |paths| - 1 {
      IndexHasEveryMatch(paths[..|paths| - 1], matcher, i);
    }
  }

  /** The entry of a key is the last path that matched to it: later files overwrite earlier ones. */
  lemma {:induction false} LastMatchWins(paths: seq<string>, matcher: string -> Option<Key>, i: nat)
    requires i < |paths| && matcher(paths[i]).Some?
    requires forall j :: i < j < |paths| ==> matcher(paths[j]) != matcher(paths[i])
    ensures matcher(paths[i]).value in IndexOf(paths, matcher)
    ensures IndexOf(paths, matcher)[matcher(paths[i]).value] == paths[i]
  {
    if i < |paths| - 1 {
      var prefix := paths[..|paths| - 1];
      LastMatchWins(prefix, matcher, i);
    }
  }

  /** Two matching files with the same key leave the index strictly smaller than the count. */
  lemma {:induction false} DuplicateKeyLosesEntry(paths: seq<string>, matcher: string -> Option<Key>, i: nat, j: nat)
    requires i < j < |paths|
    requires matcher(paths[i]).Some? && matcher(paths[j]) == matcher(paths[i])
    ensures |IndexOf(paths, matcher)| < MatchCount(paths, matcher)
  {
    var prefix := paths[..|paths| - 1];
    if j == |paths| - 1 {
      IndexHasEveryMatch(prefix, matcher, i);
    } else {
      DuplicateKeyLosesEntry(prefix, matcher, i, j);
    }
  }

  /** The count is zero exactly when no visited path matches, which is when the run stops. */
  lemma {:induction false} ZeroCountIffNoMatch(paths: seq<string>, matcher: string -> Option<Key>)
    ensures MatchCount(paths, matcher) == 0 <==> forall i :: 0 <= i < |paths| ==> matcher(paths[i]).None?
  {
    if paths != [] {
      var prefix := paths[..|paths| - 1];
      ZeroCountIffNoMatch(prefix, matcher);
      assert forall i :: 0 <= i < |prefix| ==> prefix[i] == paths[i];
    }
  }
}
