/**
 * The top-level script: the sets and the map it fills, the difference
 * counter it increments, and the findings it prints, kept in one object
 * whose methods are the script's loops, and `Run`, which chains them.
 *
 * Loops over a Python set or dict visit the elements in an order the model
 * leaves open (`:|`), so every postcondition holds for every order.
 */
module Scan {
  import opened Wrappers
  import opened FileIndex
  import opened QualifiedNames
  import opened Report
  import opened Reconciliation
  import opened ContentDiff

  /** `value` is the path of some index entry whose key formats to `name`. */
  ghost predicate FromIndex(name: string, value: string, index: map<Key, string>)
  {
    exists key :: key in index && QualifiedName(key.0, key.1) == name && index[key] == value
  }

  /** `fileMap` is a map the file loop can build from `index`: one entry per qualified name, from a key with that name. */
  ghost predicate IsFileMapFor(fileMap: map<string, string>, index: map<Key, string>)
  {
    && fileMap.Keys == FileNames(index)
    && forall name :: name in fileMap ==> FromIndex(name, fileMap[name], index)
  }

  /** Without backticks in database names, the file map is determined: each name maps to its key's path. */
  lemma FileMapDetermined(fileMap: map<string, string>, index: map<Key, string>, key: Key)
    requires IsFileMapFor(fileMap, index)
    requires forall k :: k in index ==> '`' !in k.0
    requires key in index
    ensures QualifiedName(key.0, key.1) in fileMap
    ensures fileMap[QualifiedName(key.0, key.1)] == index[key]
  {
    var name := QualifiedName(key.0, key.1);
    assert name in FileNames(index);
    var other :| other in index && QualifiedName(other.0, other.1) == name && index[other] == fileMap[name];
    QualifiedNameInjective(key.0, key.1, other.0, other.1);
  }

  /**
   * Every name of `fileMap` maps to the path of an index key with that name
   * when it is one of `names`, and keeps its entry from `before` otherwise.
   */
  ghost predicate FilledFrom(fileMap: map<string, string>, before: map<string, string>,
                             names: set<string>, index: map<Key, string>)
  {
    forall name :: name in fileMap ==>
      if name in names then FromIndex(name, fileMap[name], index)
      else name in before && fileMap[name] == before[name]
  }

  /** Taking one more key out of the pending ones adds exactly its name. */
  lemma KeyNamesStep(keys: set<Key>, pending: set<Key>, key: Key)
    requires key in pending
    ensures KeyNames(keys - (pending - {key})) ==
      KeyNames(keys - pending) + (if key in keys then {QualifiedName(key.0, key.1)} else {})
  {
    if key in keys {
      assert key in keys - (pending - {key});
    }
  }

  /** Storing the path of one more key keeps the file map filled from the index. */
  lemma FilledFromStep(fileMap: map<string, string>, before: map<string, string>,
                       names: set<string>, index: map<Key, string>, key: Key)
    requires FilledFrom(fileMap, before, names, index) && key in index
    ensures FilledFrom(fileMap[QualifiedName(key.0, key.1) := index[key]], before,
                       names + {QualifiedName(key.0, key.1)}, index)
  {
    assert FromIndex(QualifiedName(key.0, key.1), index[key], index);
  }

  /** One turn of the file loop keeps the map's keys equal to the names and the map filled from the index. */
  lemma FileStep(fileSchemas: set<string>, fileMap: map<string, string>, before: map<string, string>,
                 index: map<Key, string>, pending: set<Key>, key: Key)
    requires key in pending && pending <= index.Keys && fileMap.Keys == fileSchemas
    requires FilledFrom(fileMap, before, KeyNames(index.Keys - pending), index)
    ensures var name := QualifiedName(key.0, key.1);
      && fileMap[name := index[key]].Keys == fileSchemas + {name}
      && KeyNames(index.Keys - (pending - {key})) == KeyNames(index.Keys - pending) + {name}
      && FilledFrom(fileMap[name := index[key]], before, KeyNames(index.Keys - (pending - {key})), index)
  {
    KeyNamesStep(index.Keys, pending, key);
    FilledFromStep(fileMap, before, KeyNames(index.Keys - pending), index, key);
  }

  class SchemaCheck {
    var fileSchemas: set<string>
    var dbSchemas: set<string>
    var fileMap: map<string, string>
    var differenceCount: nat
    /** The findings printed so far, in order. */
    var output: seq<Finding>

    /** Every file name has its path, and the counter counts the findings printed. */
    ghost predicate Valid()
      reads this
    {
      fileMap.Keys == fileSchemas && differenceCount == |output|
    }

    constructor ()
      ensures Valid()
      ensures fileSchemas == {} && dbSchemas == {} && fileMap == map[]
      ensures differenceCount == 0 && output == []
    {
      fileSchemas, dbSchemas, fileMap := {}, {}, map[];
      differenceCount, output := 0, [];
    }

    /** Formats every key of the index and records its name and its path. */
    method AddFileSchemas(index: map<Key, string>)
      requires Valid()
      modifies this
      ensures Valid()
      ensures fileSchemas == old(fileSchemas) + FileNames(index)
      ensures FilledFrom(fileMap, old(fileMap), FileNames(index), index)
      ensures dbSchemas == old(dbSchemas) && differenceCount == old(differenceCount) && output == old(output)
    {
      var pending := index.Keys;
      while pending != {}
        invariant pending <= index.Keys
        invariant fileSchemas == old(fileSchemas) + KeyNames(index.Keys - pending)
        invariant Valid()
        invariant FilledFrom(fileMap, old(fileMap), KeyNames(index.Keys - pending), index)
        invariant dbSchemas == old(dbSchemas) && differenceCount == old(differenceCount) && output == old(output)
        decreases pending
      {
        var key :| key in pending;
        var (db, schema) := key;
        var file := index[key];
        var schemaString := QualifiedName(db, schema);
        FileStep(fileSchemas, fileMap, old(fileMap), index, pending, key);
        fileMap := fileMap[schemaString := file];
        fileSchemas := fileSchemas + {schemaString};
        pending := pending - {key};
      }
      assert index.Keys - pending == index.Keys;
      assert KeyNames(index.Keys) == FileNames(index);
    }

    /** Formats every metadata row and records its name. */
    method AddDbSchemas(rows: seq<(string, string)>)
      requires Valid()
      modifies this
      ensures Valid()
      ensures dbSchemas == old(dbSchemas) + DbNames(rows)
      ensures fileSchemas == old(fileSchemas) && fileMap == old(fileMap)
      ensures differenceCount == old(differenceCount) && output == old(output)
    {
      for i := 0 to |rows|
        invariant Valid()
        invariant dbSchemas == old(dbSchemas) + DbNames(rows[..i])
        invariant fileSchemas == old(fileSchemas) && fileMap == old(fileMap)
        invariant differenceCount == old(differenceCount) && output == old(output)
      {
        var (tableSchema, tableName) := rows[i];
        assert DbNames(rows[..i + 1]) == DbNames(rows[..i]) + {QualifiedName(tableSchema, tableName)} by {
          assert rows[..i + 1] == rows[..i] + [rows[i]];
        }
        dbSchemas := dbSchemas + {QualifiedName(tableSchema, tableName)};
      }
      assert rows[..|rows|] == rows;
    }

    /** Reports every name of the symmetric difference that its flag does not suppress. */
    method Reconcile(prefs: Preferences)
      requires Valid()
      modifies this
      ensures Valid()
      ensures fileSchemas == old(fileSchemas) && dbSchemas == old(dbSchemas) && fileMap == old(fileMap)
      ensures |output| >= |old(output)| && output[..|old(output)|] == old(output)
      ensures PrintedByNames(output[|old(output)|..], SchemaDifference(fileSchemas, dbSchemas),
                             DifferenceFindings(fileSchemas, prefs))
      ensures multiset(output[|old(output)|..]) ==
        multiset(Reported(SchemaDifference(fileSchemas, dbSchemas), fileSchemas, prefs))
      ensures differenceCount == old(differenceCount) + ReconcileCount(fileSchemas, dbSchemas, prefs)
    {
      ghost var findingsOf := DifferenceFindings(fileSchemas, prefs);
      var schemaDifference := SchemaDifference(fileSchemas, dbSchemas);
      var pending := schemaDifference;
      ghost var order: seq<string> := [];
      while pending != {}
        invariant Enumerating(order, pending, schemaDifference)
        invariant Valid()
        invariant fileSchemas == old(fileSchemas) && dbSchemas == old(dbSchemas) && fileMap == old(fileMap)
        invariant output == old(output) + Flatten(order, findingsOf)
        decreases pending
      {
        var dif :| dif in pending;
        ReportDifference(dif, prefs);
        FlattenStep(old(output), order, dif, findingsOf);
        EnumeratingStep(order, pending, schemaDifference, dif);
        order := order + [dif];
        pending := pending - {dif};
      }
      EnumeratingDone(order, schemaDifference);
      FlattenCollect(order, findingsOf);
      CollectReported(schemaDifference, fileSchemas, prefs);
      ReportedCount(fileSchemas, dbSchemas, prefs);
      AppendedPart(old(output), Flatten(order, findingsOf), output);
    }

    /** The body of the loop over the difference: print one name's finding and count it, unless suppressed. */
    method ReportDifference(dif: string, prefs: Preferences)
      requires Valid()
      modifies this
      ensures Valid()
      ensures fileSchemas == old(fileSchemas) && dbSchemas == old(dbSchemas) && fileMap == old(fileMap)
      ensures output == old(output) + DifferenceFindings(fileSchemas, prefs)(dif)
    {
      if dif in fileSchemas {
        if !(prefs.ignoreNotInDatabase == "True") {
          output := output + [NotInDatabase(dif)];
          differenceCount := differenceCount + 1;
        }
      } else {
        if !(prefs.ignoreNoFile == "True") {
          output := output + [NoFileSchema(dif)];
          differenceCount := differenceCount + 1;
        }
      }
    }

    /** Diffs every table present on both sides and reports every line the diff emits. */
    method CompareMatches(showCreate: string -> string, readFile: string -> string, diff: Differ)
      requires Valid()
      modifies this
      ensures Valid()
      ensures fileSchemas == old(fileSchemas) && dbSchemas == old(dbSchemas) && fileMap == old(fileMap)
      ensures |output| >= |old(output)| && output[..|old(output)|] == old(output)
      ensures PrintedByNames(output[|old(output)|..], SchemaMatch(fileSchemas, dbSchemas),
                             TableFindings(fileMap, showCreate, readFile, diff))
      ensures multiset(output[|old(output)|..]) ==
        Collect(SchemaMatch(fileSchemas, dbSchemas), TableFindings(fileMap, showCreate, readFile, diff))
      ensures differenceCount == old(differenceCount) +
        |Collect(SchemaMatch(fileSchemas, dbSchemas), TableFindings(fileMap, showCreate, readFile, diff))|
    {
      var findingsOf := TableFindings(fileMap, showCreate, readFile, diff);
      var schemaMatch := SchemaMatch(fileSchemas, dbSchemas);
      var pending := schemaMatch;
      ghost var order: seq<string> := [];
      while pending != {}
        invariant Enumerating(order, pending, schemaMatch)
        invariant Valid()
        invariant fileSchemas == old(fileSchemas) && dbSchemas == old(dbSchemas) && fileMap == old(fileMap)
        invariant output == old(output) + Flatten(order, findingsOf)
        decreases pending
      {
        var matched :| matched in pending;
        CompareTableOf(matched, findingsOf, showCreate, readFile, diff);
        FlattenStep(old(output), order, matched, findingsOf);
        EnumeratingStep(order, pending, schemaMatch, matched);
        order := order + [matched];
        pending := pending - {matched};
      }
      EnumeratingDone(order, schemaMatch);
      FlattenCollect(order, findingsOf);
      AppendedPart(old(output), Flatten(order, findingsOf), output);
    }

    /** The body of the loop over the matches: diff one table and print its lines. */
    method CompareTableOf(matched: string, findingsOf: string -> seq<Finding>,
                          showCreate: string -> string, readFile: string -> string, diff: Differ)
      requires Valid() && matched in fileSchemas
      requires findingsOf == TableFindings(fileMap, showCreate, readFile, diff)
      modifies this
      ensures Valid()
      ensures fileSchemas == old(fileSchemas) && dbSchemas == old(dbSchemas) && fileMap == old(fileMap)
      ensures output == old(output) + findingsOf(matched)
    {
      var file := fileMap[matched];
      var fileDiff := CompareTable(matched, file, showCreate(matched), readFile(file), diff);
      PrintTableDiff(matched, fileDiff);
    }

    /** Prints one [TABLE DIFF] finding per diff line of one table, counting each. */
    method PrintTableDiff(name: string, fileDiff: seq<string>)
      requires Valid()
      modifies this
      ensures Valid()
      ensures fileSchemas == old(fileSchemas) && dbSchemas == old(dbSchemas) && fileMap == old(fileMap)
      ensures output == old(output) + DiffFindings(name, fileDiff)
    {
      for k := 0 to |fileDiff|
        invariant Valid()
        invariant fileSchemas == old(fileSchemas) && dbSchemas == old(dbSchemas) && fileMap == old(fileMap)
        invariant output == old(output) + DiffFindings(name, fileDiff[..k])
      {
        assert fileDiff[..k + 1][..k] == fileDiff[..k];
        output := output + [TableDiff(name, fileDiff[k])];
        differenceCount := differenceCount + 1;
      }
      assert fileDiff[..|fileDiff|] == fileDiff;
    }
  }

  /** What a run prints: its fatal error, or the file count, the findings and the final count. */
  datatype Outcome =
    | Aborted(error: ParseError)
    | Done(filesFound: nat, findings: seq<Finding>, differenceCount: nat)

  /**
   * `findings` and `count` are what the reconciliation and the table diffs
   * print and count, for a file map the file loop can build from `index`:
   * up to `cut`, each reported finding of the difference once; from `cut`
   * on, the diff lines of the matched tables, table by table.
   */
  ghost predicate Accounts(findings: seq<Finding>, count: nat, cut: nat, fileMap: map<string, string>,
                           index: map<Key, string>, rows: seq<(string, string)>, prefs: Preferences,
                           showCreate: string -> string, readFile: string -> string, diff: Differ)
  {
    var fileSchemas, dbSchemas := FileNames(index), DbNames(rows);
    var tableFindings := TableFindings(fileMap, showCreate, readFile, diff);
    var tables := Collect(SchemaMatch(fileSchemas, dbSchemas), tableFindings);
    && IsFileMapFor(fileMap, index)
    && cut <= |findings|
    && PrintedByNames(findings[..cut], SchemaDifference(fileSchemas, dbSchemas), DifferenceFindings(fileSchemas, prefs))
    && PrintedByNames(findings[cut..], SchemaMatch(fileSchemas, dbSchemas), tableFindings)
    && multiset(findings) == multiset(Reported(SchemaDifference(fileSchemas, dbSchemas), fileSchemas, prefs)) + tables
    && count == ReconcileCount(fileSchemas, dbSchemas, prefs) + |tables|
  }

  /**
   * The whole check: index the files, collect the names of both sides,
   * report the difference, then diff every table found on both sides.
   */
  method Run(folderExists: bool, walk: seq<Dir>, join: (string, string) -> string,
             matcher: string -> Option<Key>, rows: seq<(string, string)>, prefs: Preferences,
             showCreate: string -> string, readFile: string -> string, diff: Differ)
    returns (r: Outcome)
    ensures !folderExists ==> r == Aborted(FolderMissing)
    ensures folderExists && MatchCount(WalkPaths(walk, join), matcher) == 0 ==> r == Aborted(NoSchemaFiles)
    ensures folderExists && MatchCount(WalkPaths(walk, join), matcher) > 0 ==> r.Done?
    ensures r.Done? ==>
      var index := IndexOf(WalkPaths(walk, join), matcher);
      var fileSchemas, dbSchemas := FileNames(index), DbNames(rows);
      && r.filesFound == MatchCount(WalkPaths(walk, join), matcher)
      && r.differenceCount == |r.findings|
      && exists cut, fileMap ::
           Accounts(r.findings, r.differenceCount, cut, fileMap, index, rows, prefs, showCreate, readFile, diff)
  {
    var parsed := ParseFiles(folderExists, walk, join, matcher);
    if parsed.Failed? {
      return Aborted(parsed.error);
    }
    var check := Collected(parsed.index, rows);
    check.Reconcile(prefs);
    ghost var reconciled := check.output;
    assert reconciled[0..] == reconciled;
    check.CompareMatches(showCreate, readFile, diff);
    RunAccounts(check.output, reconciled, check.differenceCount, check.fileMap,
                parsed.index, rows, prefs, showCreate, readFile, diff);
    r := Done(parsed.count, check.output, check.differenceCount);
  }

  /** The first two loops of the script: both name sets and the file map, filled from a fresh check. */
  method Collected(index: map<Key, string>, rows: seq<(string, string)>) returns (check: SchemaCheck)
    ensures fresh(check) && check.Valid()
    ensures check.fileSchemas == FileNames(index) && check.dbSchemas == DbNames(rows)
    ensures IsFileMapFor(check.fileMap, index)
    ensures check.output == [] && check.differenceCount == 0
  {
    check := new SchemaCheck();
    check.AddFileSchemas(index);
    FilledFromNothing(check.fileMap, index);
    check.AddDbSchemas(rows);
  }

  /**
   * The reconciliation's output followed by the table diffs' output, each
   * printed name by name, is what `Run` promises.
   */
  lemma RunAccounts(output: seq<Finding>, reconciled: seq<Finding>, count: nat, fileMap: map<string, string>,
                    index: map<Key, string>, rows: seq<(string, string)>, prefs: Preferences,
                    showCreate: string -> string, readFile: string -> string, diff: Differ)
    requires IsFileMapFor(fileMap, index)
    requires |reconciled| <= |output| && output[..|reconciled|] == reconciled
    requires PrintedByNames(reconciled, SchemaDifference(FileNames(index), DbNames(rows)),
                            DifferenceFindings(FileNames(index), prefs))
    requires PrintedByNames(output[|reconciled|..], SchemaMatch(FileNames(index), DbNames(rows)),
                            TableFindings(fileMap, showCreate, readFile, diff))
    requires count == ReconcileCount(FileNames(index), DbNames(rows), prefs) +
      |Collect(SchemaMatch(FileNames(index), DbNames(rows)), TableFindings(fileMap, showCreate, readFile, diff))|
    ensures Accounts(output, count, |reconciled|, fileMap, index, rows, prefs, showCreate, readFile, diff)
  {
    var fileSchemas, dbSchemas := FileNames(index), DbNames(rows);
    PrintedByNamesCollect(reconciled, SchemaDifference(fileSchemas, dbSchemas), DifferenceFindings(fileSchemas, prefs));
    CollectReported(SchemaDifference(fileSchemas, dbSchemas), fileSchemas, prefs);
    PrintedByNamesCollect(output[|reconciled|..], SchemaMatch(fileSchemas, dbSchemas),
                          TableFindings(fileMap, showCreate, readFile, diff));
    PrintedInTwoParts(output, reconciled);
    assert reconciled[0..] == reconciled;
  }

  /** A file map filled from the index alone, starting from nothing, is one the file loop can build. */
  lemma FilledFromNothing(fileMap: map<string, string>, index: map<Key, string>)
    requires fileMap.Keys == {} + FileNames(index)
    requires FilledFrom(fileMap, map[], FileNames(index), index)
    ensures IsFileMapFor(fileMap, index)
  {
  }

  /** Output printed by two loops in turn: its multiset is the sum of theirs. */
  lemma PrintedInTwoParts(out: seq<Finding>, first: seq<Finding>)
    requires |out| >= |first| && out[..|first|] == first
    ensures multiset(out) == multiset(first[0..]) + multiset(out[|first|..])
  {
    assert out == first + out[|first|..];
    assert first[0..] == first;
  }

  /** What a loop appended to the output: the part after the old output, whose length is its multiset's size. */
  lemma AppendedPart<T>(start: seq<T>, printed: seq<T>, out: seq<T>)
    requires out == start + printed
    ensures |out| >= |start| && out[..|start|] == start && out[|start|..] == printed
    ensures |out| == |start| + |multiset(printed)|
  {
    assert out[|start|..] == printed;
  }
}
