/**
 * The tagged lines the check prints, one per difference it counts, and the
 * findings of a loop over a set of names, which Python visits in an order
 * the model leaves open.
 */
module Report {

  datatype Finding =
    | NotInDatabase(name: string)          // [NOT IN DATABASE]: a schema file without a table
    | NoFileSchema(name: string)           // [NO FILE SCHEMA]: a table without a schema file
    | TableDiff(name: string, line: string) // [TABLE DIFF]: one line of the unified diff of a table

  /** All findings of a set of names, as a multiset: the order of the names does not matter. */
  ghost function Collect(names: set<string>, findingsOf: string -> seq<Finding>): multiset<Finding>
    decreases names
  {
    if names == {} then multiset{}
    else
      var name :| name in names;
      multiset(findingsOf(name)) + Collect(names - {name}, findingsOf)
  }

  /** Any name can be taken out first: the collection is independent of the visiting order. */
  lemma {:induction false} CollectAnyOrder(names: set<string>, findingsOf: string -> seq<Finding>, name: string)
    requires name in names
    ensures Collect(names, findingsOf) == multiset(findingsOf(name)) + Collect(names - {name}, findingsOf)
    decreases names
  {
    var first :| first in names && Collect(names, findingsOf) == multiset(findingsOf(first)) + Collect(names - {first}, findingsOf);
    if first != name {
      CollectAnyOrder(names - {first}, findingsOf, name);
      CollectAnyOrder(names - {name}, findingsOf, first);
      assert names - {first} - {name} == names - {name} - {first};
    }
  }

  /** The findings of the names in the order they were visited, one name after another. */
  function Flatten(order: seq<string>, findingsOf: string -> seq<Finding>): seq<Finding>
  {
    if order == [] then []
    else Flatten(order[..|order| - 1], findingsOf) + findingsOf(order[|order| - 1])
  }

  /** `order` lists, once each, the names of `all` already visited; `pending` holds the rest. */
  ghost predicate Enumerating(order: seq<string>, pending: set<string>, all: set<string>)
  {
    && pending <= all
    && (forall x :: x in order <==> x in all && x !in pending)
    && (forall i, j :: 0 <= i < j < |order| ==> order[i] != order[j])
  }

  /** Visiting a pending name keeps the enumeration. */
  lemma EnumeratingStep(order: seq<string>, pending: set<string>, all: set<string>, name: string)
    requires Enumerating(order, pending, all) && name in pending
    ensures Enumerating(order + [name], pending - {name}, all)
  {
  }

  /** Once nothing is pending, the visiting order lists every name of the set exactly once. */
  lemma EnumeratingDone(order: seq<string>, all: set<string>)
    requires Enumerating(order, {}, all)
    ensures (forall i, j :: 0 <= i < j < |order| ==> order[i] != order[j]) && (set x | x in order) == all
  {
  }

  /** Printing the findings of one more name extends what was printed before. */
  lemma FlattenStep(start: seq<Finding>, order: seq<string>, name: string, findingsOf: string -> seq<Finding>)
    ensures start + Flatten(order + [name], findingsOf) == start + Flatten(order, findingsOf) + findingsOf(name)
  {
    assert (order + [name])[..|order|] == order;
  }

  /** Any visiting order without repeats prints the multiset of the visited set. */
  lemma {:induction false} FlattenCollect(order: seq<string>, findingsOf: string -> seq<Finding>)
    requires forall i, j :: 0 <= i < j < |order| ==> order[i] != order[j]
    ensures multiset(Flatten(order, findingsOf)) == Collect((set x | x in order), findingsOf)
  {
    if order != [] {
      var init, last := order[..|order| - 1], order[|order| - 1];
      assert order == init + [last];
      assert forall i, j :: 0 <= i < j < |init| ==> init[i] != init[j] by {
        forall i, j | 0 <= i < j < |init| ensures init[i] != init[j] {
          assert init[i] == order[i] && init[j] == order[j];
        }
      }
      calc {
        multiset(Flatten(order, findingsOf));
        multiset(Flatten(init, findingsOf)) + multiset(findingsOf(last));
        { FlattenCollect(init, findingsOf); }
        Collect((set x | x in init), findingsOf) + multiset(findingsOf(last));
        { AllButLast(order, init, last); }
        Collect((set x | x in order) - {last}, findingsOf) + multiset(findingsOf(last));
        { CollectAnyOrder((set x | x in order), findingsOf, last); }
        Collect((set x | x in order), findingsOf);
      }
    }
  }

  /** Without repeats, the names of all but the last element are the names of the whole minus the last. */
  lemma AllButLast(order: seq<string>, init: seq<string>, last: string)
    requires order == init + [last]
    requires forall i, j :: 0 <= i < j < |order| ==> order[i] != order[j]
    ensures (set x | x in order) - {last} == set x | x in init
  {
    forall n | n in order && n != last ensures n in init {
      var i :| 0 <= i < |order| && order[i] == n;
      assert init[i] == n;
    }
    forall n | n in init ensures n in order && n != last {
      var i :| 0 <= i < |init| && init[i] == n;
      assert order[i] == n && order[|init|] == last;
    }
  }

  /**
   * `printed` is what a loop over the set `all` prints: for each name, in some
   * order that visits every name once, that name's findings, kept together.
   */
  ghost predicate PrintedByNames(printed: seq<Finding>, all: set<string>, findingsOf: string -> seq<Finding>)
  {
    exists order :: Enumerating(order, {}, all) && printed == Flatten(order, findingsOf)
  }

  /** Whatever the order, such output holds each name's findings exactly once. */
  lemma PrintedByNamesCollect(printed: seq<Finding>, all: set<string>, findingsOf: string -> seq<Finding>)
    requires PrintedByNames(printed, all, findingsOf)
    ensures multiset(printed) == Collect(all, findingsOf)
  {
    var order :| Enumerating(order, {}, all) && printed == Flatten(order, findingsOf);
    EnumeratingDone(order, all);
    FlattenCollect(order, findingsOf);
  }
}
