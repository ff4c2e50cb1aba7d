/** The list collection held by the top-level `Main` component: a sequence of
    task lists, each changed only through pure whole-sequence updates built
    from `map`, `filter` or an append (static/app.js:312-360).

    Ids are opaque strings and are NOT assumed unique: every operation acts on
    every list whose id matches. */
module ListStore {
  import opened JsText

  datatype TaskList = TaskList(id: string, title: string, tasks: seq<string>)

  /** The title `addList` gives a fresh list. */
  const DefaultTitle: string := "New List"

  /** No task text occurs twice in `tasks`. */
  predicate NoDuplicates(tasks: seq<string>) {
    forall i, j :: 0 <= i < j < |tasks| ==> tasks[i] != tasks[j]
  }

  /** The store's invariant: every list is free of duplicate tasks. */
  predicate WellFormed(lists: seq<TaskList>) {
    forall k :: 0 <= k < |lists| ==> NoDuplicates(lists[k].tasks)
  }

  /** `lists` and `lists'` hold lists with the same ids and titles at the
      same positions (only task sequences may differ). */
  predicate SameShape(lists: seq<TaskList>, lists': seq<TaskList>) {
    && |lists'| == |lists|
    && forall k :: 0 <= k < |lists| ==>
         lists'[k].id == lists[k].id && lists'[k].title == lists[k].title
  }

  /** Every list whose id differs from `id` is left exactly as it was. */
  predicate OthersUnchanged(lists: seq<TaskList>, lists': seq<TaskList>, id: string)
    requires |lists'| == |lists|
  {
    forall k :: 0 <= k < |lists| && lists[k].id != id ==> lists'[k] == lists[k]
  }

  // ---------------------------------------------------------------------------
  // addList
  // ---------------------------------------------------------------------------

  /** `addList`, with the randomly generated id passed in: a new empty list
      titled "New List" goes at the end, and the earlier lists stay as they
      were, in order. */
  function AddList(lists: seq<TaskList>, id: string): (r: seq<TaskList>)
    ensures |r| == |lists| + 1
    ensures r[..|lists|] == lists
    ensures r[|lists|].id == id && r[|lists|].title == "New List"
    ensures r[|lists|].tasks == []
  {
    lists + [TaskList(id, DefaultTitle, [])]
  }

  // ---------------------------------------------------------------------------
  // The append step shared by sendTaskToList and dropTask
  // ---------------------------------------------------------------------------

  /** One list after offering it `task` for list `listId`. */
  function OfferTask(list: TaskList, task: string, listId: string): TaskList {
    if list.id == listId && task !in list.tasks
    then list.(tasks := list.tasks + [task])
    else list
  }

  /** The `prev.map(...)` both task operations run: `task` is appended to the
      end of every list whose id is `listId` and that does not contain it
      yet; everything else is kept. */
  function AppendToMatching(lists: seq<TaskList>, task: string, listId: string): (r: seq<TaskList>)
    ensures SameShape(lists, r)
    ensures OthersUnchanged(lists, r, listId)
    ensures forall k :: 0 <= k < |lists| && task in lists[k].tasks ==> r[k] == lists[k]
    ensures forall k :: 0 <= k < |lists| && lists[k].id == listId && task !in lists[k].tasks ==>
              r[k].tasks == lists[k].tasks + [task]
    ensures forall k :: 0 <= k < |lists| ==>
              (task in r[k].tasks <==> task in lists[k].tasks || lists[k].id == listId)
  {
    if lists == [] then []
    else [OfferTask(lists[0], task, listId)] + AppendToMatching(lists[1..], task, listId)
  }

  // ---------------------------------------------------------------------------
  // sendTaskToList, dropTask, removeList, updateListTitle
  // ---------------------------------------------------------------------------

  /** `sendTaskToList(task, listId)`: the trimmed text is appended to the
      matching lists that lack it; text that trims to nothing changes nothing. */
  function SendTaskToList(lists: seq<TaskList>, task: string, listId: string): (r: seq<TaskList>)
    ensures AllWhitespace(task) ==> r == lists
    ensures SameShape(lists, r)
    ensures OthersUnchanged(lists, r, listId)
    ensures forall k :: 0 <= k < |lists| && lists[k].id == listId ==>
              if AllWhitespace(task) || Trim(task) in lists[k].tasks then r[k] == lists[k]
              else r[k].tasks == lists[k].tasks + [Trim(task)]
  {
    var clean := Trim(task);
    if clean == "" then lists else AppendToMatching(lists, clean, listId)
  }

  /** `dropTask(e, listId)` with the drag payload `payload`: trimming only
      decides whether the drop is ignored; what is stored is the payload as
      it came, untrimmed. */
  function DropTask(lists: seq<TaskList>, payload: string, listId: string): (r: seq<TaskList>)
    ensures AllWhitespace(payload) ==> r == lists
    ensures SameShape(lists, r)
    ensures OthersUnchanged(lists, r, listId)
    ensures forall k :: 0 <= k < |lists| && lists[k].id == listId ==>
              if AllWhitespace(payload) || payload in lists[k].tasks then r[k] == lists[k]
              else r[k].tasks == lists[k].tasks + [payload]
  {
    if Trim(payload) == "" then lists else AppendToMatching(lists, payload, listId)
  }

  /** `removeList(id)`: the lists whose id differs from `id`, in their
      original order. */
  function RemoveList(lists: seq<TaskList>, id: string): (r: seq<TaskList>)
    ensures forall l :: l in r <==> l in lists && l.id != id
    ensures forall l :: multiset(r)[l] == if l.id == id then 0 else multiset(lists)[l]
  {
    if lists == [] then []
    else
      assert lists == [lists[0]] + lists[1..];
      if lists[0].id != id then [lists[0]] + RemoveList(lists[1..], id)
      else RemoveList(lists[1..], id)
  }

  /** `updateListTitle(id, newTitle)`: every list with id `id` gets the new
      title (any string, the empty one included); ids and tasks are kept. */
  function UpdateListTitle(lists: seq<TaskList>, id: string, newTitle: string): (r: seq<TaskList>)
    ensures |r| == |lists|
    ensures OthersUnchanged(lists, r, id)
    ensures forall k :: 0 <= k < |lists| ==>
              r[k].id == lists[k].id && r[k].tasks == lists[k].tasks
    ensures forall k :: 0 <= k < |lists| && lists[k].id == id ==> r[k].title == newTitle
  {
    if lists == [] then []
    else
      var head := if lists[0].id == id then lists[0].(title := newTitle) else lists[0];
      [head] + UpdateListTitle(lists[1..], id, newTitle)
  }
}
