/** The service layer over the store: rejects blank text, stores stripped text,
    and reports a missing id or a second completion as typed errors. */
module Service {
  import opened Models
  import opened Whitespace

  /** The three ways a service operation fails: blank text (Python's `ValueError`),
      an unknown id (`TodoNotFoundError`) and a second completion
      (`TodoAlreadyCompleteError`); the last two carry the offending id. */
  datatype Error = InvalidInput | NotFound(id: int) | AlreadyComplete(id: int)

  datatype Result<T> = Ok(value: T) | Err(error: Error)

  /** Every record's text is non-empty and has no surrounding whitespace (so
      stripping it again leaves it as it is, by `StripOfTrimmed`): what the
      service guarantees for the records it creates or edits. */
  ghost predicate TextsStripped(s: seq<Todo>) {
    forall t :: t in s ==> t.text != [] && Trimmed(t.text)
  }

  /** Swapping one record for a record with clean text keeps all texts clean. */
  lemma ReplaceKeepsTexts(before: seq<Todo>, after: seq<Todo>, t: Todo)
    requires TextsStripped(before) && ReplacedById(before, after, t)
    requires t.text != [] && Trimmed(t.text)
    ensures TextsStripped(after)
  {
    forall u | u in after ensures u.text != [] && Trimmed(u.text) {
      var j :| 0 <= j < |after| && after[j] == u;
      assert before[j] in before;
    }
  }

  /** Removing one record keeps all texts clean. */
  lemma RemoveKeepsTexts(s: seq<Todo>, k: int)
    requires TextsStripped(s) && 0 <= k < |s|
    ensures TextsStripped(s[..k] + s[k + 1..])
  {
    assert forall u :: u in s[..k] + s[k + 1..] ==> u in s;
  }

  class TodoService {
    const store: TodoStore

    ghost predicate Valid()
      reads this, store
    {
      store.Valid()
    }

    /** A service over a new, empty store. */
    constructor ()
      ensures Valid() && fresh(store)
      ensures store.todos == [] && store.nextId == 1
      ensures TextsStripped(store.todos)
    {
      store := new TodoStore();
    }

    /** A service over a store the caller supplies (and may keep using). */
    constructor WithStore(s: TodoStore)
      requires s.Valid()
      ensures Valid() && store == s
    {
      store := s;
    }

    /** Rejects text that is empty once stripped; otherwise stores the stripped
        text as a new incomplete record with the next id. */
    method AddTodo(text: string) returns (r: Result<Todo>)
      requires Valid()
      modifies store
      ensures Valid() && CompletionKept(old(store.todos), store.todos)
      ensures Strip(text) == [] ==> r == Err(InvalidInput) && unchanged(store)
      ensures Strip(text) != [] ==>
                && r == Ok(Todo(old(store.nextId), Strip(text), false))
                && store.todos == old(store.todos) + [r.value]
                && store.nextId == old(store.nextId) + 1
                && store.Issued == old(store.Issued) + [r.value.id]
                && r.value.text != [] && Trimmed(r.value.text)
      ensures TextsStripped(old(store.todos)) ==> TextsStripped(store.todos)
    {
      var stripped := Strip(text);
      if stripped == [] {
        CompletionKeptUnchanged(store.todos);
        return Err(InvalidInput);
      }
      var t := store.Add(stripped);
      r := Ok(t);
    }

    /** All records in insertion order; nothing changes. */
    method GetTodos() returns (r: seq<Todo>)
      ensures r == store.todos
    {
      r := store.GetAll();
    }

    /** Completes the record carrying `id`: not-found when there is none,
        already-complete when its flag is set, otherwise sets the flag and
        returns the updated record. */
    method CompleteTodo(id: int) returns (r: Result<Todo>)
      requires Valid()
      modifies store
      ensures Valid() && CompletionKept(old(store.todos), store.todos)
      ensures var found := old(Lookup(store.todos, id));
              found.None? ==> r == Err(NotFound(id)) && unchanged(store)
      ensures var found := old(Lookup(store.todos, id));
              found.Some? && found.value.completed ==> r == Err(AlreadyComplete(id)) && unchanged(store)
      ensures var found := old(Lookup(store.todos, id));
              found.Some? && !found.value.completed ==>
                && r == Ok(found.value.(completed := true))
                && ReplacedById(old(store.todos), store.todos, r.value)
                && store.nextId == old(store.nextId) && store.Issued == old(store.Issued)
      ensures TextsStripped(old(store.todos)) ==> TextsStripped(store.todos)
    {
      var found := store.GetById(id);
      if found.None? {
        CompletionKeptUnchanged(store.todos);
        return Err(NotFound(id));
      }
      if found.value.completed {
        CompletionKeptUnchanged(store.todos);
        return Err(AlreadyComplete(id));
      }
      ghost var before := store.todos;
      var done := store.Complete(id);
      r := Ok(done.value);
      if TextsStripped(before) {
        ReplaceKeepsTexts(before, store.todos, r.value);
      }
    }

    /** Replaces the text of the record carrying `id` by the stripped `text`:
        invalid-input when that is empty (checked first, whether or not the id
        exists), not-found when there is no such record. */
    method UpdateTodo(id: int, text: string) returns (r: Result<Todo>)
      requires Valid()
      modifies store
      ensures Valid() && CompletionKept(old(store.todos), store.todos)
      ensures Strip(text) == [] ==> r == Err(InvalidInput) && unchanged(store)
      ensures var found := old(Lookup(store.todos, id));
              Strip(text) != [] && found.None? ==> r == Err(NotFound(id)) && unchanged(store)
      ensures var found := old(Lookup(store.todos, id));
              Strip(text) != [] && found.Some? ==>
                && r == Ok(found.value.(text := Strip(text)))
                && ReplacedById(old(store.todos), store.todos, r.value)
                && store.nextId == old(store.nextId) && store.Issued == old(store.Issued)
      ensures TextsStripped(old(store.todos)) ==> TextsStripped(store.todos)
    {
      var stripped := Strip(text);
      if stripped == [] {
        CompletionKeptUnchanged(store.todos);
        return Err(InvalidInput);
      }
      var found := store.GetById(id);
      if found.None? {
        CompletionKeptUnchanged(store.todos);
        return Err(NotFound(id));
      }
      ghost var before := store.todos;
      var updated := store.Update(id, stripped);
      r := Ok(updated.value);
      if TextsStripped(before) {
        ReplaceKeepsTexts(before, store.todos, r.value);
      }
    }

    /** Removes the record carrying `id`: not-found when there is none,
        otherwise `true` and that record is gone. Never `false`. */
    method DeleteTodo(id: int) returns (r: Result<bool>)
      requires Valid()
      modifies store
      ensures Valid() && CompletionKept(old(store.todos), store.todos)
      ensures old(Lookup(store.todos, id)).None? ==> r == Err(NotFound(id)) && unchanged(store)
      ensures old(Lookup(store.todos, id)).Some? ==>
                && r == Ok(true)
                && store.nextId == old(store.nextId) && store.Issued == old(store.Issued)
                && exists k :: 0 <= k < |old(store.todos)| && old(store.todos)[k].id == id
                               && store.todos == old(store.todos)[..k] + old(store.todos)[k + 1..]
      ensures TextsStripped(old(store.todos)) ==> TextsStripped(store.todos)
    {
      var found := store.GetById(id);
      if found.None? {
        CompletionKeptUnchanged(store.todos);
        return Err(NotFound(id));
      }
      ghost var before := store.todos;
      var deleted := store.Delete(id);
      r := Ok(deleted);
      ghost var k :| 0 <= k < |before| && before[k].id == id && store.todos == before[..k] + before[k + 1..];
      if TextsStripped(before) {
        RemoveKeepsTexts(before, k);
      }
    }
  }
}
