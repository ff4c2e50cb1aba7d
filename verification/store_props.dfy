/** Properties of the list store that relate several calls: idempotence, the
    no-duplicate invariant, order preservation of `removeList`, and the
    whole-store invariant over any sequence of user actions. */
module ListStoreProperties {
  import opened JsText
  import opened ListStore

  // ---------------------------------------------------------------------------
  // Idempotence
  // ---------------------------------------------------------------------------

  /** Offering the same task to the same lists a second time changes nothing. */
  lemma {:induction false} AppendToMatchingIdempotent(lists: seq<TaskList>, task: string, listId: string)
    ensures AppendToMatching(AppendToMatching(lists, task, listId), task, listId)
         == AppendToMatching(lists, task, listId)
  {
    var once := AppendToMatching(lists, task, listId);
    var twice := AppendToMatching(once, task, listId);
    forall k | 0 <= k < |once| ensures twice[k] == once[k] {
      if once[k].id == listId {
        assert task in once[k].tasks;
      }
    }
  }

  /** Sending the same text to the same list twice equals sending it once. */
  lemma SendTaskToListIdempotent(lists: seq<TaskList>, task: string, listId: string)
    ensures SendTaskToList(SendTaskToList(lists, task, listId), task, listId)
         == SendTaskToList(lists, task, listId)
  {
    if Trim(task) != "" {
      AppendToMatchingIdempotent(lists, Trim(task), listId);
    }
  }

  /** Dropping the same payload on the same list twice equals dropping it once. */
  lemma DropTaskIdempotent(lists: seq<TaskList>, payload: string, listId: string)
    ensures DropTask(DropTask(lists, payload, listId), payload, listId)
         == DropTask(lists, payload, listId)
  {
    if Trim(payload) != "" {
      AppendToMatchingIdempotent(lists, payload, listId);
    }
  }

  /** Removing the same id twice equals removing it once. */
  lemma {:induction false} RemoveListIdempotent(lists: seq<TaskList>, id: string)
    ensures RemoveList(RemoveList(lists, id), id) == RemoveList(lists, id)
  {
    if lists != [] {
      RemoveListIdempotent(lists[1..], id);
      if lists[0].id != id {
        var rest := RemoveList(lists[1..], id);
        assert ([lists[0]] + rest)[1..] == rest;
      }
    }
  }

  /** Renaming twice keeps only the second title; renaming to the same title
      twice is therefore the same as renaming once. */
  lemma {:induction false} UpdateListTitleLastWins(lists: seq<TaskList>, id: string, first: string, second: string)
    ensures UpdateListTitle(UpdateListTitle(lists, id, first), id, second)
         == UpdateListTitle(lists, id, second)
  {
    var a := UpdateListTitle(UpdateListTitle(lists, id, first), id, second);
    var b := UpdateListTitle(lists, id, second);
    forall k | 0 <= k < |lists| ensures a[k] == b[k] {
      if lists[k].id == id {
        assert a[k].title == second == b[k].title;
      }
    }
  }

  // ---------------------------------------------------------------------------
  // removeList: exactly the other lists, in order
  // ---------------------------------------------------------------------------

  /** `removeList` distributes over concatenation, so it keeps the surviving
      lists in their original relative order. */
  lemma {:induction false} RemoveListConcat(a: seq<TaskList>, b: seq<TaskList>, id: string)
    ensures RemoveList(a + b, id) == RemoveList(a, id) + RemoveList(b, id)
  {
    if a == [] {
      assert a + b == b;
    } else {
      assert (a + b)[0] == a[0];
      assert (a + b)[1..] == a[1..] + b;
      RemoveListConcat(a[1..], b, id);
    }
  }

  /** Removing an id no list carries returns the collection unchanged. */
  lemma {:induction false} RemoveListAbsent(lists: seq<TaskList>, id: string)
    requires forall k :: 0 <= k < |lists| ==> lists[k].id != id
    ensures RemoveList(lists, id) == lists
  {
    if lists != [] {
      RemoveListAbsent(lists[1..], id);
      assert lists == [lists[0]] + lists[1..];
    }
  }

  /** On a single list, `removeList` keeps it exactly when its id differs. */
  lemma {:induction false} RemoveListSingle(l: TaskList, id: string)
    ensures RemoveList([l], id) == if l.id == id then [] else [l]
  {
    assert [l][1..] == [];
  }

  /** Adding a list and removing it by its id leaves the other lists as they
      were (every list with that id goes, old ones included). */
  lemma AddListThenRemove(lists: seq<TaskList>, id: string)
    ensures RemoveList(AddList(lists, id), id) == RemoveList(lists, id)
    ensures (forall k :: 0 <= k < |lists| ==> lists[k].id != id) ==>
              RemoveList(AddList(lists, id), id) == lists
  {
    var added := TaskList(id, DefaultTitle, []);
    RemoveListConcat(lists, [added], id);
    RemoveListSingle(added, id);
    assert RemoveList(lists, id) + [] == RemoveList(lists, id);
    if forall k :: 0 <= k < |lists| ==> lists[k].id != id {
      RemoveListAbsent(lists, id);
    }
  }

  // ---------------------------------------------------------------------------
  // The no-duplicate invariant
  // ---------------------------------------------------------------------------

  lemma AppendAbsentKeepsNoDuplicates(tasks: seq<string>, task: string)
    requires NoDuplicates(tasks) && task !in tasks
    ensures NoDuplicates(tasks + [task])
  {
  }

  /** The shared append step keeps every list duplicate-free. */
  lemma AppendToMatchingKeepsWellFormed(lists: seq<TaskList>, task: string, listId: string)
    requires WellFormed(lists)
    ensures WellFormed(AppendToMatching(lists, task, listId))
  {
    var r := AppendToMatching(lists, task, listId);
    forall k | 0 <= k < |r| ensures NoDuplicates(r[k].tasks) {
      if lists[k].id == listId && task !in lists[k].tasks {
        AppendAbsentKeepsNoDuplicates(lists[k].tasks, task);
      }
    }
  }

  lemma SendTaskToListKeepsWellFormed(lists: seq<TaskList>, task: string, listId: string)
    requires WellFormed(lists)
    ensures WellFormed(SendTaskToList(lists, task, listId))
  {
    AppendToMatchingKeepsWellFormed(lists, Trim(task), listId);
  }

  lemma DropTaskKeepsWellFormed(lists: seq<TaskList>, payload: string, listId: string)
    requires WellFormed(lists)
    ensures WellFormed(DropTask(lists, payload, listId))
  {
    AppendToMatchingKeepsWellFormed(lists, payload, listId);
  }

  lemma RemoveListKeepsWellFormed(lists: seq<TaskList>, id: string)
    requires WellFormed(lists)
    ensures WellFormed(RemoveList(lists, id))
  {
    var r := RemoveList(lists, id);
    forall k | 0 <= k < |r| ensures NoDuplicates(r[k].tasks) {
      assert r[k] in lists;
    }
  }

  // ---------------------------------------------------------------------------
  // Trimmed tasks: sendTaskToList stores only trimmed text, dropTask need not
  // ---------------------------------------------------------------------------

  /** Every task in every list is already in trimmed form. */
  predicate AllTrimmed(lists: seq<TaskList>) {
    forall k, j :: 0 <= k < |lists| && 0 <= j < |lists[k].tasks| ==>
      Trim(lists[k].tasks[j]) == lists[k].tasks[j]
  }

  /** `sendTaskToList` only ever stores trimmed text. */
  lemma SendTaskToListKeepsTrimmed(lists: seq<TaskList>, task: string, listId: string)
    requires AllTrimmed(lists)
    ensures AllTrimmed(SendTaskToList(lists, task, listId))
  {
    TrimIdempotent(task);
  }

  /** `dropTask` stores the untrimmed payload, so one list can end up holding
      both " milk" and "milk", which `sendTaskToList` alone never produces. */
  lemma DropTaskStoresUntrimmed()
    ensures var lists := [TaskList("a", DefaultTitle, ["milk"])];
      && SendTaskToList(lists, " milk", "a") == lists
      && DropTask(lists, " milk", "a") == [TaskList("a", DefaultTitle, ["milk", " milk"])]
      && !AllTrimmed(DropTask(lists, " milk", "a"))
  {
    var lists := [TaskList("a", DefaultTitle, ["milk"])];
    assert IsWhitespace(' ');
    assert LeadingWhitespace(" milk") == 1;
    assert Trim(" milk") == "milk";
    assert " milk" != "milk";
    assert !AllWhitespace(" milk") by { assert !IsWhitespace(" milk"[1]); }
    assert " milk" !in lists[0].tasks;
    var r := DropTask(lists, " milk", "a");
    assert r[0] == TaskList("a", DefaultTitle, ["milk", " milk"]);
    assert Trim(r[0].tasks[1]) != r[0].tasks[1];
  }

  // ---------------------------------------------------------------------------
  // The store over any sequence of user actions
  // ---------------------------------------------------------------------------

  /** One user action on the list collection, as `Main` wires it to the UI. */
  datatype Action =
    | Add(id: string)
    | Remove(id: string)
    | Rename(id: string, title: string)
    | Send(task: string, listId: string)
    | Drop(payload: string, listId: string)

  function Apply(lists: seq<TaskList>, a: Action): seq<TaskList> {
    match a
    case Add(id) => AddList(lists, id)
    case Remove(id) => RemoveList(lists, id)
    case Rename(id, title) => UpdateListTitle(lists, id, title)
    case Send(task, listId) => SendTaskToList(lists, task, listId)
    case Drop(payload, listId) => DropTask(lists, payload, listId)
  }

  function ApplyAll(lists: seq<TaskList>, actions: seq<Action>): seq<TaskList>
    decreases |actions|
  {
    if actions == [] then lists else ApplyAll(Apply(lists, actions[0]), actions[1..])
  }

  lemma ApplyKeepsWellFormed(lists: seq<TaskList>, a: Action)
    requires WellFormed(lists)
    ensures WellFormed(Apply(lists, a))
  {
    match a
    case Add(id) =>
    case Remove(id) => RemoveListKeepsWellFormed(lists, id);
    case Rename(id, title) =>
    case Send(task, listId) => SendTaskToListKeepsWellFormed(lists, task, listId);
    case Drop(payload, listId) => DropTaskKeepsWellFormed(lists, payload, listId);
  }

  /** Starting from the empty collection (`useState([])`), no sequence of user
      actions ever puts the same task twice into one list. */
  lemma {:induction false} ApplyAllKeepsWellFormed(lists: seq<TaskList>, actions: seq<Action>)
    requires WellFormed(lists)
    ensures WellFormed(ApplyAll(lists, actions))
    decreases |actions|
  {
    if actions != [] {
      ApplyKeepsWellFormed(lists, actions[0]);
      ApplyAllKeepsWellFormed(Apply(lists, actions[0]), actions[1..]);
    }
  }

  lemma BuyMilkIsTrimmed()
    ensures !AllWhitespace("Buy milk") && Trim("Buy milk") == "Buy milk"
  {
    var t := "Buy milk";
    assert !IsWhitespace(t[0]) && !IsWhitespace(t[|t| - 1]);
    TrimStops(t);
  }

  /** Two lists A and B; "Buy milk" sent to A, dropped on A again (no
      duplicate), then dropped on B. */
  lemma TwoListScenario()
    ensures ApplyAll([], [Add("A"), Add("B"), Send("Buy milk", "A"),
                          Drop("Buy milk", "A"), Drop("Buy milk", "B")])
         == [TaskList("A", DefaultTitle, ["Buy milk"]), TaskList("B", DefaultTitle, ["Buy milk"])]
  {
    var a := TaskList("A", DefaultTitle, []);
    var b := TaskList("B", DefaultTitle, []);
    var a' := TaskList("A", DefaultTitle, ["Buy milk"]);
    var b' := TaskList("B", DefaultTitle, ["Buy milk"]);
    BuyMilkIsTrimmed();
    var s1 := [a];
    var s2 := [a, b];
    var s3 := SendTaskToList(s2, "Buy milk", "A");
    assert s3[0] == a' && s3[1] == b;
    assert s3 == [a', b];
    var s4 := DropTask(s3, "Buy milk", "A");
    assert s4 == s3;
    var s5 := DropTask(s4, "Buy milk", "B");
    assert s5[0] == a' && s5[1] == b';
    assert s5 == [a', b'];
    var acts := [Add("A"), Add("B"), Send("Buy milk", "A"), Drop("Buy milk", "A"), Drop("Buy milk", "B")];
    assert ApplyAll(s5, acts[5..]) == s5;
    assert ApplyAll(s4, acts[4..]) == ApplyAll(s5, acts[5..]);
    assert ApplyAll(s3, acts[3..]) == ApplyAll(s4, acts[4..]);
    assert ApplyAll(s2, acts[2..]) == ApplyAll(s3, acts[3..]);
    assert ApplyAll(s1, acts[1..]) == ApplyAll(s2, acts[2..]);
    assert ApplyAll([], acts) == ApplyAll(s1, acts[1..]);
  }
}
