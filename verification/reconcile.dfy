/** Reconciling the list of restaurant names scraped from the shared map
    with the rows already stored: which names to create, which stored
    items to hand to `delete_from_dynamo`, and which names the monthly job
    refreshes. Names are
    compared as plain strings; the scraped list may hold duplicates. */
module Reconcile {
  import opened Wrappers
  import opened Text

  // ---------------------------------------------------------------------
  // Names not yet stored

  /** The names, in order and with repetitions, that are not among `known`
      (Python's `[n for n in names if n not in known]`). */
  function Missing(names: seq<string>, known: set<string>): (r: seq<string>)
    ensures |r| <= |names|
    ensures forall n :: n in r <==> n in names && n !in known
  {
    if names == [] then []
    else (if names[0] in known then [] else [names[0]]) + Missing(names[1..], known)
  }

  /** Repetitions are kept: a name not among `known` occurs as often as in
      the list, one among `known` not at all. */
  lemma {:induction false} MissingCounts(names: seq<string>, known: set<string>, n: string)
    ensures multiset(Missing(names, known))[n] == if n in known then 0 else multiset(names)[n]
  {
    if names != [] {
      var head := if names[0] in known then [] else [names[0]];
      assert multiset(Missing(names, known))[n] == multiset(head)[n] + multiset(Missing(names[1..], known))[n] by {
        assert Missing(names, known) == head + Missing(names[1..], known);
      }
      assert multiset(names)[n] == multiset([names[0]])[n] + multiset(names[1..])[n] by {
        HeadTail(names);
      }
      assert multiset(head)[n] == if n in known then 0 else multiset([names[0]])[n];
      MissingCounts(names[1..], known, n);
    }
  }

  /** Filtering keeps the order of the list: it commutes with
      concatenation. */
  lemma {:induction false} MissingAppend(a: seq<string>, b: seq<string>, known: set<string>)
    ensures Missing(a + b, known) == Missing(a, known) + Missing(b, known)
  {
    if a == [] {
      assert a + b == b;
    } else {
      var h := if a[0] in known then [] else [a[0]];
      assert Missing(a + b, known) == h + Missing(a[1..] + b, known) by {
        assert (a + b)[0] == a[0] && (a + b)[1..] == a[1..] + b;
      }
      MissingAppend(a[1..], b, known);
      AppendAssoc(h, Missing(a[1..], known), Missing(b, known));
    }
  }

  /** Filtering twice by the same names is filtering once. */
  lemma {:induction false} MissingIdempotent(names: seq<string>, known: set<string>)
    ensures Missing(Missing(names, known), known) == Missing(names, known)
  {
    if names != [] {
      var rest := Missing(names[1..], known);
      MissingIdempotent(names[1..], known);
      if names[0] !in known {
        assert Missing(names, known) == [names[0]] + rest;
        assert Missing(names, known)[1..] == rest;
      } else {
        assert Missing(names, known) == rest;
      }
    }
  }

  // ---------------------------------------------------------------------
  // The create/delete handler

  /** An item of the DynamoDB table as scanned: either key may be absent. */
  datatype StoredItem = StoredItem(googleName: Option<string>, googleId: Option<string>)

  /** Each item's name, `''` standing in for a missing one. */
  function ExistingNames(items: seq<StoredItem>): (r: seq<string>)
    ensures |r| == |items|
    ensures forall i :: 0 <= i < |items| ==> r[i] == items[i].googleName.GetOr("")
  {
    if items == [] then [] else [items[0].googleName.GetOr("")] + ExistingNames(items[1..])
  }

  function Elements(s: seq<string>): (r: set<string>)
    ensures forall n :: n in r <==> n in s
  {
    set n | n in s
  }

  /** The names the handler creates a record for: listed, and not the
      name (or `''`) of any scanned item. */
  function NamesToPut(items: seq<StoredItem>, names: seq<string>): (r: seq<string>)
    ensures forall n :: n in r <==> n in names && n !in ExistingNames(items)
  {
    Missing(names, Elements(ExistingNames(items)))
  }

  /** A scanned item is a delete target when its name is missing (`None`
      is never in the list) or is not in the list. */
  predicate ToDelete(item: StoredItem, names: seq<string>) {
    item.googleName.None? || item.googleName.value !in names
  }

  function DeleteTargets(items: seq<StoredItem>, names: seq<string>): (r: seq<StoredItem>)
    ensures forall it :: it in r <==> it in items && ToDelete(it, names)
  {
    if items == [] then []
    else (if ToDelete(items[0], names) then [items[0]] else []) + DeleteTargets(items[1..], names)
  }

  /** What the handler asks DynamoDB to do: a put looks the place up by
      name (no id); `delete_from_dynamo` sends an `update_item` keyed by the
      stored name and id, conditioned on both attributes existing and with
      no update expression, so it removes nothing from the table. */
  datatype Action = Put(name: string) | ConditionalUpdate(storedName: Option<string>, id: Option<string>)

  function Puts(names: seq<string>): (r: seq<Action>)
    ensures |r| == |names| && forall i :: 0 <= i < |names| ==> r[i] == Put(names[i])
  {
    if names == [] then [] else [Put(names[0])] + Puts(names[1..])
  }

  /** The calls `delete_from_dynamo` makes for the targets, in order. */
  function DeleteCalls(items: seq<StoredItem>): (r: seq<Action>)
    ensures |r| == |items|
    ensures forall i :: 0 <= i < |items| ==> r[i] == ConditionalUpdate(items[i].googleName, items[i].googleId)
  {
    if items == [] then [] else [ConditionalUpdate(items[0].googleName, items[0].googleId)] + DeleteCalls(items[1..])
  }

  /** Issuing `planned` in order when the calls at the indices in `failing`
      raise: the calls before the first failing one are issued, and the run
      ends there. The flag says whether a call raised. */
  function Attempt<T>(planned: seq<T>, failing: set<nat>): (r: (seq<T>, bool))
    ensures |r.0| <= |planned| && r.0 == planned[..|r.0|]
    ensures forall k :: 0 <= k < |r.0| ==> k !in failing
    ensures r.1 <==> exists k :: 0 <= k < |planned| && k in failing
    ensures r.1 ==> |r.0| in failing
    ensures !r.1 ==> r.0 == planned
    decreases |planned|
  {
    if planned == [] then ([], false)
    else if 0 in failing then ([], true)
    else
      var shifted := set k | k in failing && k > 0 :: k - 1;
      assert forall k: nat :: k in shifted <==> k + 1 in failing by {
        forall k: nat | k + 1 in failing
          ensures k in shifted
        {
          assert k + 1 > 0 && (k + 1) - 1 == k;
        }
      }
      var rest := Attempt(planned[1..], shifted);
      AttemptShift(planned, failing, shifted, rest.0, rest.1);
      ([planned[0]] + rest.0, rest.1)
  }

  /** Shifting the failing indices down by one carries `Attempt`'s facts
      about the tail over to the whole list. */
  lemma AttemptShift<T>(planned: seq<T>, failing: set<nat>, shifted: set<nat>, done: seq<T>, raised: bool)
    requires planned != [] && 0 !in failing
    requires forall k: nat :: k in shifted <==> k + 1 in failing
    requires && |done| <= |planned[1..]| && done == planned[1..][..|done|]
             && (forall k :: 0 <= k < |done| ==> k !in shifted)
             && (raised <==> exists k :: 0 <= k < |planned[1..]| && k in shifted)
             && (raised ==> |done| in shifted)
             && (!raised ==> done == planned[1..])
    ensures var r := [planned[0]] + done;
            && |r| <= |planned| && r == planned[..|r|]
            && (forall k :: 0 <= k < |r| ==> k !in failing)
            && (raised <==> exists k :: 0 <= k < |planned| && k in failing)
            && (raised ==> |r| in failing)
            && (!raised ==> r == planned)
  {
    var r := [planned[0]] + done;
    assert r == planned[..|r|] by {
      assert planned == [planned[0]] + planned[1..];
    }
    forall k | 0 <= k < |r|
      ensures k !in failing
    {
      if k > 0 {
        assert k - 1 !in shifted;
      }
    }
    if exists k :: 0 <= k < |planned| && k in failing {
      var k :| 0 <= k < |planned| && k in failing;
      assert k > 0 && k - 1 in shifted;
    }
    if raised {
      var k :| 0 <= k < |planned[1..]| && k in shifted;
      assert k + 1 in failing;
      assert |done| + 1 in failing;
    }
  }

  /** A run of the handler: the actions issued, in order, and the exception
      that ended it, if any. */
  datatype HandlerRun = HandlerRun(actions: seq<Action>, error: Option<string>)

  /** `save_to_dynamo` raising on a put: `process_google_fields` fails on a
      missing location or on hours without descriptions. */
  const SaveFailed := "save_to_dynamo raised"

  const UnboundName := "UnboundLocalError: cannot access local variable 'google_name' where it is not associated with a value"

  /** No save of the puts raises. */
  predicate PutsSucceed(items: seq<StoredItem>, names: seq<string>, failing: set<nat>) {
    forall k :: 0 <= k < |NamesToPut(items, names)| ==> k !in failing
  }

  /** The handler as written. `failing` holds the indices of the puts whose
      save raises; the first such raise ends the run. The delete loop's log
      line names the put loop's variable; with no put, that variable was
      never bound, so the log line of the first target raises before its call.
      `rescanned` is the table as scanned again after the puts. */
  function HandlerAsWritten(items: seq<StoredItem>, names: seq<string>, rescanned: seq<StoredItem>, failing: set<nat>): (r: HandlerRun)
    ensures r.error.None? <==>
              PutsSucceed(items, names, failing) && (NamesToPut(items, names) != [] || DeleteTargets(rescanned, names) == [])
    ensures r.error == Some(UnboundName) <==>
              PutsSucceed(items, names, failing) && NamesToPut(items, names) == [] && DeleteTargets(rescanned, names) != []
    ensures r.error.Some? ==>
              && |r.actions| <= |NamesToPut(items, names)|
              && r.actions == Puts(NamesToPut(items, names))[..|r.actions|]
              && (forall k :: 0 <= k < |r.actions| ==> k !in failing)
    ensures r.error == Some(SaveFailed) ==> |r.actions| in failing
  {
    var puts := NamesToPut(items, names);
    var deletes := DeleteTargets(rescanned, names);
    var (done, raised) := Attempt(Puts(puts), failing);
    if raised then HandlerRun(done, Some(SaveFailed))
    else if puts == [] && deletes != [] then HandlerRun([], Some(UnboundName))
    else HandlerRun(done + DeleteCalls(deletes), None)
  }

  lemma PutIn(names: seq<string>, n: string)
    ensures Put(n) in Puts(names) <==> n in names
  {
    if n in names {
      var i :| 0 <= i < |names| && names[i] == n;
      assert Puts(names)[i] == Put(n);
    }
  }

  lemma DeleteIn(items: seq<StoredItem>, n: Option<string>, id: Option<string>)
    ensures ConditionalUpdate(n, id) in DeleteCalls(items) <==> StoredItem(n, id) in items
  {
    if StoredItem(n, id) in items {
      var i :| 0 <= i < |items| && items[i] == StoredItem(n, id);
      assert DeleteCalls(items)[i] == ConditionalUpdate(n, id);
    }
  }

  /** The handler as intended: every put, then a `delete_from_dynamo` call
      for every delisted item; only a raising save ends it early. */
  function Handler(items: seq<StoredItem>, names: seq<string>, rescanned: seq<StoredItem>, failing: set<nat>): (r: HandlerRun)
    ensures r.error.None? <==> PutsSucceed(items, names, failing)
    ensures r.error.None? ==> forall n :: Put(n) in r.actions <==> n in names && n !in ExistingNames(items)
    ensures r.error.None? ==> forall n, id :: ConditionalUpdate(n, id) in r.actions <==>
              StoredItem(n, id) in rescanned && ToDelete(StoredItem(n, id), names)
    ensures r.error.Some? ==>
              && |r.actions| <= |NamesToPut(items, names)|
              && r.actions == Puts(NamesToPut(items, names))[..|r.actions|]
              && (forall k :: 0 <= k < |r.actions| ==> k !in failing)
              && |r.actions| in failing
  {
    var puts := NamesToPut(items, names);
    var deletes := DeleteTargets(rescanned, names);
    var (done, raised) := Attempt(Puts(puts), failing);
    if raised then HandlerRun(done, Some(SaveFailed))
    else
      forall n
        ensures Put(n) in done + DeleteCalls(deletes) <==> n in puts
      {
        PutIn(puts, n);
      }
      forall n, id
        ensures ConditionalUpdate(n, id) in done + DeleteCalls(deletes) <==> StoredItem(n, id) in deletes
      {
        DeleteIn(deletes, n, id);
      }
      HandlerRun(done + DeleteCalls(deletes), None)
  }

  /** No name is both created and a delete target: every created name is
      listed, and no target's name is. */
  lemma NoNamePutAndDeleted(items: seq<StoredItem>, names: seq<string>, rescanned: seq<StoredItem>, failing: set<nat>, n: string, id: Option<string>)
    requires PutsSucceed(items, names, failing)
    requires Put(n) in Handler(items, names, rescanned, failing).actions
    ensures ConditionalUpdate(Some(n), id) !in Handler(items, names, rescanned, failing).actions
  {
  }

  /** The handler as written does what was intended unless nothing is put
      and there is a delete target. */
  lemma HandlerAgreesWhenSomethingPut(items: seq<StoredItem>, names: seq<string>, rescanned: seq<StoredItem>, failing: set<nat>)
    requires NamesToPut(items, names) != [] || DeleteTargets(rescanned, names) == []
    ensures HandlerAsWritten(items, names, rescanned, failing) == Handler(items, names, rescanned, failing)
  {
  }

  /** A stored name that has left the list, with every listed name already
      stored: the intended run calls `delete_from_dynamo` for it, the run as
      written raises before that call. */
  lemma HandlerAsWrittenSkipsDeletes()
    ensures var items := [StoredItem(Some("A"), Some("id-a")), StoredItem(Some("B"), Some("id-b"))];
            var names := ["A"];
            && HandlerAsWritten(items, names, items, {}) == HandlerRun([], Some(UnboundName))
            && Handler(items, names, items, {}).actions == [ConditionalUpdate(Some("B"), Some("id-b"))]
  {
    var items := [StoredItem(Some("A"), Some("id-a")), StoredItem(Some("B"), Some("id-b"))];
    var names := ["A"];
    assert ExistingNames(items) == ["A", "B"];
    assert Elements(ExistingNames(items)) == {"A", "B"};
    assert NamesToPut(items, names) == [];
    assert DeleteTargets(items[1..], names) == [items[1]];
    assert DeleteTargets(items, names) == [items[1]];
  }

  // ---------------------------------------------------------------------
  // The monthly update handler

  /** A listed name is refreshed when it occurs inside some scanned name
      (`''` for an item without one). */
  predicate InSomeName(n: string, existing: seq<string>) {
    exists e :: e in existing && Contains(e, n)
  }

  function Selected(names: seq<string>, existing: seq<string>): (r: seq<string>)
    ensures |r| <= |names|
    ensures forall n :: n in r <==> n in names && InSomeName(n, existing)
  {
    if names == [] then []
    else (if InSomeName(names[0], existing) then [names[0]] else []) + Selected(names[1..], existing)
  }

  /** A write of the monthly job: a save carrying the stored item's id,
      which `Dynamo.Save` turns into an update, or into a put when the id
      is missing or empty. */
  datatype Write = Write(name: string, id: Option<string>)

  /** For one name, a write per item whose name equals it, in scan order. */
  function WritesFor(n: string, items: seq<StoredItem>): (r: seq<Write>)
    ensures forall w :: w in r <==> w.name == n && StoredItem(Some(n), w.id) in items
  {
    if items == [] then []
    else (if items[0].googleName == Some(n) then [Write(n, items[0].googleId)] else [])
         + WritesFor(n, items[1..])
  }

  /** The writes for each name of the list in turn. */
  function Writes(names: seq<string>, items: seq<StoredItem>): (r: seq<Write>)
    ensures forall w :: w in r <==> w.name in names && StoredItem(Some(w.name), w.id) in items
  {
    if names == [] then [] else WritesFor(names[0], items) + Writes(names[1..], items)
  }

  /** The monthly job: select by containment, write by equality. */
  function MonthlyUpdate(items: seq<StoredItem>, names: seq<string>): (r: seq<Write>)
    ensures forall w :: w in r ==> w.name in names && StoredItem(Some(w.name), w.id) in items
  {
    Writes(Selected(names, ExistingNames(items)), items)
  }

  /** The monthly job when the saves at the indices in `failing` raise:
      the writes before the first such save are made, and the raise ends
      the run. */
  function MonthlyRun(items: seq<StoredItem>, names: seq<string>, failing: set<nat>): (r: (seq<Write>, Option<string>))
    ensures |r.0| <= |MonthlyUpdate(items, names)| && r.0 == MonthlyUpdate(items, names)[..|r.0|]
    ensures forall k :: 0 <= k < |r.0| ==> k !in failing
    ensures r.1.None? <==> forall k :: 0 <= k < |MonthlyUpdate(items, names)| ==> k !in failing
    ensures r.1.None? ==> r.0 == Writes(names, items)
    ensures r.1.Some? ==> |r.0| in failing
  {
    var (done, raised) := Attempt(MonthlyUpdate(items, names), failing);
    SelectionChangesNoWrite(items, names);
    (done, if raised then Some(SaveFailed) else None)
  }

  /** Every name equal to a scanned name is selected. */
  lemma ExactNameSelected(items: seq<StoredItem>, names: seq<string>, n: string)
    requires n in names && n in ExistingNames(items)
    ensures n in Selected(names, ExistingNames(items))
  {
    assert OccursAt(n, n, 0);
  }

  /** The empty name occurs in every name, so it is selected as soon as
      anything is stored. */
  lemma EmptyNameSelected(items: seq<StoredItem>, names: seq<string>)
    requires "" in names && items != []
    ensures "" in Selected(names, ExistingNames(items))
  {
    var e := ExistingNames(items)[0];
    assert OccursAt(e, "", 0);
    assert e in ExistingNames(items) && Contains(e, "");
  }

  /** A name selected only because it occurs inside a longer stored name
      causes no write. */
  lemma ProperSubstringNotWritten(items: seq<StoredItem>, names: seq<string>, n: string)
    requires n in Selected(names, ExistingNames(items))
    requires forall it :: it in items ==> it.googleName != Some(n)
    ensures forall w :: w in MonthlyUpdate(items, names) ==> w.name != n
  {
  }

  /** Selection does not change what is written: a listed name with a
      stored equal name is always selected, and a name without one writes
      nothing. */
  lemma {:induction false} SelectionChangesNoWrite(items: seq<StoredItem>, names: seq<string>)
    ensures MonthlyUpdate(items, names) == Writes(names, items)
  {
    SelectedWrites(items, names, ExistingNames(items));
  }

  lemma {:induction false} SelectedWrites(items: seq<StoredItem>, names: seq<string>, existing: seq<string>)
    requires existing == ExistingNames(items)
    ensures Writes(Selected(names, existing), items) == Writes(names, items)
  {
    if names != [] {
      var n := names[0];
      SelectedWrites(items, names[1..], existing);
      assert Writes(names, items) == WritesFor(n, items) + Writes(names[1..], items);
      if InSomeName(n, existing) {
        assert Selected(names, existing) == [n] + Selected(names[1..], existing);
        assert Selected(names, existing)[1..] == Selected(names[1..], existing);
      } else {
        assert Selected(names, existing) == Selected(names[1..], existing);
        NoWritesWithoutEqualName(n, items);
        assert WritesFor(n, items) + Writes(names[1..], items) == Writes(names[1..], items);
      }
    }
  }

  /** A name that occurs in no scanned name equals none of them either. */
  lemma NoWritesWithoutEqualName(n: string, items: seq<StoredItem>)
    requires !InSomeName(n, ExistingNames(items))
    ensures WritesFor(n, items) == []
  {
    assert OccursAt(n, n, 0);
    forall i | 0 <= i < |items|
      ensures items[i].googleName != Some(n)
    {
      var e := ExistingNames(items)[i];
      assert e in ExistingNames(items);
      assert !Contains(e, n);
    }
  }
}
