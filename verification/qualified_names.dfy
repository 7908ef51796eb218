/**
 * The canonical `db`.`table` string under which both sides are compared:
 * the file side formats the (database, table) key of the index, the database
 * side formats each (table_schema, table_name) row, with the same format.
 */
module QualifiedNames {
  import opened FileIndex

  /** A backtick, the database, a backtick, a dot, a backtick, the table, a backtick. */
  function QualifiedName(db: string, table: string): (q: string)
    ensures |q| == |db| + |table| + 5
  {
    "`" + db + "`.`" + table + "`"
  }

  /** The parts of a qualified name: each component sits between its backticks. */
  lemma QualifiedNameParts(db: string, table: string)
    ensures var q := QualifiedName(db, table);
      && q[0] == '`' && q[1..|db| + 1] == db && q[|db| + 1..|db| + 4] == "`.`"
      && q[|db| + 4..|q| - 1] == table && q[|q| - 1] == '`'
  {
  }

  /** The qualified names of a set of keys. */
  function KeyNames(keys: set<Key>): set<string>
  {
    set key | key in keys :: QualifiedName(key.0, key.1)
  }

  /** The qualified names of the index's keys (the file side). */
  function FileNames(index: map<Key, string>): (names: set<string>)
    ensures forall key :: key in index ==> QualifiedName(key.0, key.1) in names
  {
    KeyNames(index.Keys)
  }

  /** The file side has one name per key, fewer when two keys share a name. */
  lemma FileNamesNoMoreThanKeys(index: map<Key, string>)
    ensures |FileNames(index)| <= |index|
  {
    KeyNamesNoMoreThanKeys(index.Keys);
  }

  /** A set of keys has no more names than keys. */
  lemma {:induction false} KeyNamesNoMoreThanKeys(keys: set<Key>)
    ensures |KeyNames(keys)| <= |keys|
    decreases keys
  {
    if keys != {} {
      var key :| key in keys;
      KeyNamesNoMoreThanKeys(keys - {key});
      assert KeyNames(keys) <= KeyNames(keys - {key}) + {QualifiedName(key.0, key.1)} by {
        forall q | q in KeyNames(keys) ensures q in KeyNames(keys - {key}) + {QualifiedName(key.0, key.1)} {
          var k :| k in keys && QualifiedName(k.0, k.1) == q;
          if k != key {
            assert k in keys - {key};
          }
        }
      }
      SubsetSize(KeyNames(keys), KeyNames(keys - {key}) + {QualifiedName(key.0, key.1)});
    }
  }

  /** A subset is no larger than its superset. */
  lemma {:induction false} SubsetSize<T>(a: set<T>, b: set<T>)
    requires a <= b
    ensures |a| <= |b|
  {
    assert b == a + (b - a);
  }

  /**
   * The qualified names of the metadata rows (the database side): exactly the
   * names of the rows, no more of them than rows.
   */
  function DbNames(rows: seq<(string, string)>): (names: set<string>)
    ensures forall row :: row in rows ==> QualifiedName(row.0, row.1) in names
    ensures |names| <= |rows|
  {
    if rows == [] then {}
    else
      var init, last := rows[..|rows| - 1], rows[|rows| - 1];
      assert rows == init + [last];
      DbNames(init) + {QualifiedName(last.0, last.1)}
  }

  /** Every name of the database side comes from one of the rows. */
  lemma {:induction false} DbNamesFromRows(rows: seq<(string, string)>, q: string)
    requires q in DbNames(rows)
    ensures exists row :: row in rows && QualifiedName(row.0, row.1) == q
  {
    var init, last := rows[..|rows| - 1], rows[|rows| - 1];
    assert rows == init + [last];
    if q != QualifiedName(last.0, last.1) {
      DbNamesFromRows(init, q);
      var row :| row in init && QualifiedName(row.0, row.1) == q;
      assert row in rows;
    }
  }

  /**
   * Equal components give equal names, and when the database names hold no
   * backtick, equal names come only from equal components.
   */
  lemma QualifiedNameInjective(db1: string, table1: string, db2: string, table2: string)
    requires '`' !in db1 && '`' !in db2
    ensures QualifiedName(db1, table1) == QualifiedName(db2, table2) <==> db1 == db2 && table1 == table2
  {
    var q1, q2 := QualifiedName(db1, table1), QualifiedName(db2, table2);
    if q1 == q2 {
      assert forall k :: 1 <= k <= |db1| ==> q1[k] == db1[k - 1];
      assert forall k :: 1 <= k <= |db2| ==> q2[k] == db2[k - 1];
      assert q1[|db1| + 1] == '`' && q2[|db2| + 1] == '`';
      assert db1 == q1[1..|db1| + 1] == q2[1..|db2| + 1] == db2;
      assert table1 == q1[|db1| + 4..|q1| - 1] == q2[|db2| + 4..|q2| - 1] == table2;
    }
  }

  /** With a backtick inside a name, two different pairs share one qualified name. */
  lemma BacktickNamesCollide()
    ensures QualifiedName("a`.`b", "c") == QualifiedName("a", "b`.`c")
    ensures ("a`.`b", "c") != ("a", "b`.`c")
  {
  }

  /** A row and an index key with the same components give the same name on both sides. */
  lemma SameComponentsSameName(index: map<Key, string>, rows: seq<(string, string)>, key: Key)
    requires key in index && key in rows
    ensures QualifiedName(key.0, key.1) in FileNames(index) * DbNames(rows)
  {
  }
}
