/**
 * Reconciling the file side with the database side: names in exactly one of
 * the two sets are findings, names in both are compared by content. A finding
 * is suppressed when its preference flag is exactly the string "True".
 */
module Reconciliation {
  import opened Wrappers
  import opened Report

  /** The two preference flags, as the raw strings of the configuration. */
  datatype Preferences = Preferences(ignoreNoFile: string, ignoreNotInDatabase: string)

  /** Only the exact string "True" switches a flag on; "true" or "yes" do not. */
  predicate Suppresses(flag: string)
  {
    flag == "True"
  }

  /** The names present on exactly one side (`dbSchemas ^ fileSchemas`). */
  function SchemaDifference(fileSchemas: set<string>, dbSchemas: set<string>): (diff: set<string>)
    ensures forall q :: q in diff <==> (q in fileSchemas) != (q in dbSchemas)
  {
    (dbSchemas - fileSchemas) + (fileSchemas - dbSchemas)
  }

  /** The names present on both sides, whose contents are compared. */
  function SchemaMatch(fileSchemas: set<string>, dbSchemas: set<string>): (matched: set<string>)
    ensures forall q :: q in matched <==> q in fileSchemas && q in dbSchemas
  {
    fileSchemas * dbSchemas
  }

  /**
   * The finding one name of the difference produces, if it is not suppressed:
   * a finding about that name, [NOT IN DATABASE] exactly when the name is a
   * file name, and nothing exactly when the flag of its side is on.
   */
  function Classify(name: string, fileSchemas: set<string>, prefs: Preferences): (r: Option<Finding>)
    ensures r.Some? ==> r.value.name == name && !r.value.TableDiff?
    ensures r.Some? ==> (r.value.NotInDatabase? <==> name in fileSchemas)
    ensures r.None? <==> Suppresses(if name in fileSchemas then prefs.ignoreNotInDatabase else prefs.ignoreNoFile)
  {
    if name in fileSchemas then
      if Suppresses(prefs.ignoreNotInDatabase) then None else Some(NotInDatabase(name))
    else
      if Suppresses(prefs.ignoreNoFile) then None else Some(NoFileSchema(name))
  }

  /** What the reconciliation loop prints for one name of the difference: its finding, or nothing. */
  function DifferenceFindings(fileSchemas: set<string>, prefs: Preferences): string -> seq<Finding>
  {
    name => match Classify(name, fileSchemas, prefs)
      case Some(f) => [f]
      case None => []
  }

  /** The findings the names of `names` produce. */
  ghost function Reported(names: set<string>, fileSchemas: set<string>, prefs: Preferences): set<Finding>
  {
    set name | name in names && Classify(name, fileSchemas, prefs).Some? :: Classify(name, fileSchemas, prefs).value
  }

  /** The counter's increase: |file - db| unless suppressed, plus |db - file| unless suppressed. */
  function ReconcileCount(fileSchemas: set<string>, dbSchemas: set<string>, prefs: Preferences): (count: nat)
    ensures count <= |SchemaDifference(fileSchemas, dbSchemas)|
    ensures !Suppresses(prefs.ignoreNoFile) && !Suppresses(prefs.ignoreNotInDatabase) ==>
      count == |SchemaDifference(fileSchemas, dbSchemas)|
  {
    assert (dbSchemas - fileSchemas) * (fileSchemas - dbSchemas) == {};
    (if Suppresses(prefs.ignoreNotInDatabase) then 0 else |fileSchemas - dbSchemas|) +
    (if Suppresses(prefs.ignoreNoFile) then 0 else |dbSchemas - fileSchemas|)
  }

  /** Every name of the union is either a difference or a match, never both. */
  lemma DifferenceAndMatchPartition(fileSchemas: set<string>, dbSchemas: set<string>)
    ensures SchemaDifference(fileSchemas, dbSchemas) * SchemaMatch(fileSchemas, dbSchemas) == {}
    ensures SchemaDifference(fileSchemas, dbSchemas) + SchemaMatch(fileSchemas, dbSchemas) == fileSchemas + dbSchemas
  {
  }

  /**
   * A finding for the difference is [NOT IN DATABASE] for a file-only name and
   * [NO FILE SCHEMA] for a database-only name, each unless its flag is "True".
   */
  lemma ReportedFindings(fileSchemas: set<string>, dbSchemas: set<string>, prefs: Preferences, f: Finding)
    ensures f in Reported(SchemaDifference(fileSchemas, dbSchemas), fileSchemas, prefs) <==>
      || (f.NotInDatabase? && f.name in fileSchemas && f.name !in dbSchemas && !Suppresses(prefs.ignoreNotInDatabase))
      || (f.NoFileSchema? && f.name in dbSchemas && f.name !in fileSchemas && !Suppresses(prefs.ignoreNoFile))
  {
    var diff := SchemaDifference(fileSchemas, dbSchemas);
    if f.NotInDatabase? || f.NoFileSchema? {
      if f.name in diff {
        assert Classify(f.name, fileSchemas, prefs).Some? ==> Classify(f.name, fileSchemas, prefs).value.name == f.name;
      }
    }
  }

  /** Adding one unseen name adds at most its own finding, which was not there before. */
  lemma ReportedStep(names: set<string>, name: string, fileSchemas: set<string>, prefs: Preferences)
    requires name !in names
    ensures var c := Classify(name, fileSchemas, prefs);
      && (c.Some? ==> c.value !in Reported(names, fileSchemas, prefs))
      && Reported(names + {name}, fileSchemas, prefs) ==
           Reported(names, fileSchemas, prefs) + (if c.Some? then {c.value} else {})
  {
    var c := Classify(name, fileSchemas, prefs);
    if c.Some? {
      assert c.value.name == name;
      forall g | g in Reported(names, fileSchemas, prefs) ensures g.name in names {
        var n :| n in names && Classify(n, fileSchemas, prefs).Some? && Classify(n, fileSchemas, prefs).value == g;
      }
    }
  }

  /** The same step, for the multiset of the findings a loop prints. */
  lemma ReportedMultisetStep(names: set<string>, name: string, fileSchemas: set<string>, prefs: Preferences)
    requires name !in names
    ensures multiset(Reported(names + {name}, fileSchemas, prefs)) ==
      multiset(Reported(names, fileSchemas, prefs)) + multiset(DifferenceFindings(fileSchemas, prefs)(name))
  {
    ReportedStep(names, name, fileSchemas, prefs);
  }

  /** Printing each name's finding, in any order, prints every reported finding exactly once. */
  lemma {:induction false} CollectReported(names: set<string>, fileSchemas: set<string>, prefs: Preferences)
    ensures Collect(names, DifferenceFindings(fileSchemas, prefs)) == multiset(Reported(names, fileSchemas, prefs))
    decreases names
  {
    if names != {} {
      var name :| name in names;
      var rest := names - {name};
      CollectAnyOrder(names, DifferenceFindings(fileSchemas, prefs), name);
      CollectReported(rest, fileSchemas, prefs);
      assert names == rest + {name};
      ReportedMultisetStep(rest, name, fileSchemas, prefs);
    }
  }

  /** The findings of a set of names, counted by side. */
  lemma {:induction false} ReportedSize(names: set<string>, fileSchemas: set<string>, prefs: Preferences)
    ensures |Reported(names, fileSchemas, prefs)| ==
      (if Suppresses(prefs.ignoreNotInDatabase) then 0 else |names * fileSchemas|) +
      (if Suppresses(prefs.ignoreNoFile) then 0 else |names - fileSchemas|)
    decreases names
  {
    if names != {} {
      var name :| name in names;
      var rest := names - {name};
      ReportedSize(rest, fileSchemas, prefs);
      ReportedStep(rest, name, fileSchemas, prefs);
      assert names == rest + {name};
      SidesStep(rest, name, fileSchemas);
    }
  }

  /** Adding one unseen name adds it to exactly one side of `fileSchemas`. */
  lemma SidesStep(rest: set<string>, name: string, fileSchemas: set<string>)
    requires name !in rest
    ensures |(rest + {name}) * fileSchemas| == |rest * fileSchemas| + (if name in fileSchemas then 1 else 0)
    ensures |(rest + {name}) - fileSchemas| == |rest - fileSchemas| + (if name in fileSchemas then 0 else 1)
  {
    if name in fileSchemas {
      assert (rest + {name}) * fileSchemas == rest * fileSchemas + {name};
      assert (rest + {name}) - fileSchemas == rest - fileSchemas;
    } else {
      assert (rest + {name}) * fileSchemas == rest * fileSchemas;
      assert (rest + {name}) - fileSchemas == (rest - fileSchemas) + {name};
    }
  }

  /** The number of findings is exactly the counter formula. */
  lemma ReportedCount(fileSchemas: set<string>, dbSchemas: set<string>, prefs: Preferences)
    ensures |Reported(SchemaDifference(fileSchemas, dbSchemas), fileSchemas, prefs)| == ReconcileCount(fileSchemas, dbSchemas, prefs)
  {
    var diff := SchemaDifference(fileSchemas, dbSchemas);
    ReportedSize(diff, fileSchemas, prefs);
    assert diff * fileSchemas == fileSchemas - dbSchemas;
    assert diff - fileSchemas == dbSchemas - fileSchemas;
  }

  /** Equal sides give no finding, whatever the flags. */
  lemma EqualSetsNoFindings(schemas: set<string>, prefs: Preferences)
    ensures Reported(SchemaDifference(schemas, schemas), schemas, prefs) == {}
    ensures ReconcileCount(schemas, schemas, prefs) == 0
  {
    ReportedCount(schemas, schemas, prefs);
  }

  /** With IgnoreNoFile exactly "True" no [NO FILE SCHEMA] finding is ever reported. */
  lemma IgnoreNoFileSilencesDatabaseOnly(fileSchemas: set<string>, dbSchemas: set<string>, prefs: Preferences, name: string)
    requires Suppresses(prefs.ignoreNoFile)
    ensures NoFileSchema(name) !in Reported(SchemaDifference(fileSchemas, dbSchemas), fileSchemas, prefs)
  {
    ReportedFindings(fileSchemas, dbSchemas, prefs, NoFileSchema(name));
  }
}
