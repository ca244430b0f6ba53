/** The todo record and the in-memory store that owns the records and the id counter. */
module Models {

  datatype Option<T> = None | Some(value: T)

  /** One todo item: its id, its description and whether it is done; a new
      item is not done unless the caller says otherwise. */
  datatype Todo = Todo(id: int, text: string, completed: bool := false)

  /** Ids strictly increase in list order; in particular no id occurs twice. */
  ghost predicate IdsAscending(s: seq<Todo>) {
    forall i, j :: 0 <= i < j < |s| ==> s[i].id < s[j].id
  }

  /** The first record of `s` whose id is `id`, if any. */
  function Lookup(s: seq<Todo>, id: int): (r: Option<Todo>)
    ensures r.None? <==> forall j :: 0 <= j < |s| ==> s[j].id != id
    ensures r.Some? ==> r.value in s && r.value.id == id
  {
    if s == [] then None
    else if s[0].id == id then Some(s[0])
    else Lookup(s[1..], id)
  }

  /** The record at the first position carrying `id` is the one `Lookup` finds. */
  lemma {:induction false} LookupFirst(s: seq<Todo>, k: int)
    requires 0 <= k < |s|
    requires forall j :: 0 <= j < k ==> s[j].id != s[k].id
    ensures Lookup(s, s[k].id) == Some(s[k])
  {
    if k > 0 {
      LookupFirst(s[1..], k - 1);
    }
  }

  /** Once ids are unique, "the first match" and "the match" are the same record. */
  lemma LookupUnique(s: seq<Todo>, k: int)
    requires IdsAscending(s) && 0 <= k < |s|
    ensures Lookup(s, s[k].id) == Some(s[k])
  {
    LookupFirst(s, k);
  }

  /** `after` is `before` with every record carrying `t.id` replaced by `t`, and
      nothing else changed (no reordering, no insertion, no removal). */
  ghost predicate ReplacedById(before: seq<Todo>, after: seq<Todo>, t: Todo) {
    && |after| == |before|
    && forall j :: 0 <= j < |before| ==> after[j] == (if before[j].id == t.id then t else before[j])
  }

  /** Replacing the record at `k` by one with the same id, whose flag is set
      if the old one's was, keeps the ids (hence their order) and every flag
      that was set. */
  lemma ReplaceKeeps(before: seq<Todo>, after: seq<Todo>, t: Todo, k: int)
    requires IdsAscending(before) && 0 <= k < |before| && before[k].id == t.id
    requires before[k].completed ==> t.completed
    requires ReplacedById(before, after, t)
    ensures IdsAscending(after)
    ensures forall j :: 0 <= j < |after| ==> after[j].id == before[j].id
    ensures CompletionKept(before, after)
  {
    forall i, j | 0 <= i < |before| && 0 <= j < |after| && before[i].id == after[j].id && before[i].completed
      ensures after[j].completed
    {
      assert before[j].id == after[j].id;
      assert i == j;
    }
  }

  /** Replacing a record by itself changes nothing. */
  lemma ReplaceBySelf(before: seq<Todo>, after: seq<Todo>, k: int)
    requires 0 <= k < |before| && IdsAscending(before)
    requires ReplacedById(before, after, before[k])
    ensures after == before
  {
    forall j | 0 <= j < |before| ensures after[j] == before[j] {
      if before[j].id == before[k].id {
        assert j == k;
      }
    }
  }

  /** No record that was completed in `before` is incomplete in `after`: the
      completed flag only goes from false to true. */
  ghost predicate CompletionKept(before: seq<Todo>, after: seq<Todo>) {
    forall i, j :: 0 <= i < |before| && 0 <= j < |after| && before[i].id == after[j].id && before[i].completed
      ==> after[j].completed
  }

  /** With unique ids, leaving the records alone keeps every flag. */
  lemma CompletionKeptUnchanged(s: seq<Todo>)
    requires IdsAscending(s)
    ensures CompletionKept(s, s)
  {
    forall i, j | 0 <= i < |s| && 0 <= j < |s| && s[i].id == s[j].id
      ensures i == j
    {
    }
  }

  /** Appending a record whose id exceeds every id present keeps the ids
      ascending and every flag that was set. */
  lemma AppendKeeps(s: seq<Todo>, t: Todo)
    requires IdsAscending(s)
    requires forall k :: 0 <= k < |s| ==> s[k].id < t.id
    ensures IdsAscending(s + [t])
    ensures CompletionKept(s, s + [t])
  {
    var u := s + [t];
    forall i, j | 0 <= i < |s| && 0 <= j < |u| && s[i].id == u[j].id && s[i].completed
      ensures u[j].completed
    {
      assert j < |s|;
      assert i == j;
    }
  }

  /** Removing one record keeps the ids ascending and keeps every surviving
      record's completed flag. */
  lemma {:induction false} RemoveKeeps(s: seq<Todo>, k: int)
    requires IdsAscending(s) && 0 <= k < |s|
    ensures IdsAscending(s[..k] + s[k + 1..])
    ensures CompletionKept(s, s[..k] + s[k + 1..])
  {
    var t := s[..k] + s[k + 1..];
    forall j | 0 <= j < |t| ensures t[j] == s[if j < k then j else j + 1] {
    }
    forall i, j | 0 <= i < |s| && 0 <= j < |t| && s[i].id == t[j].id && s[i].completed
      ensures t[j].completed
    {
      var j' := if j < k then j else j + 1;
      assert s[j'] == t[j];
      assert i == j';
    }
  }

  /** The store of todo records, in insertion order, and the counter that
      supplies the next id. */
  class TodoStore {
    var todos: seq<Todo>
    var nextId: int
    /** Every id the store has handed out, in the order it did so; deleting a
        record does not take its id back. */
    ghost var Issued: seq<int>

    /** The store's invariant: ids issued so far are 1, 2, ..., nextId - 1, each
        record held carries one of them (so the counter exceeds every id held),
        and ids strictly increase in list order. */
    ghost predicate Valid()
      reads this
    {
      && nextId == |Issued| + 1
      && (forall k :: 0 <= k < |Issued| ==> Issued[k] == k + 1)
      && (forall k :: 0 <= k < |todos| ==> 1 <= todos[k].id < nextId)
      && IdsAscending(todos)
    }

    /** An empty store whose counter starts at 1. */
    constructor ()
      ensures Valid()
      ensures todos == [] && nextId == 1 && Issued == []
    {
      todos := [];
      nextId := 1;
      Issued := [];
    }

    /** Appends a new incomplete record carrying the next id and advances the counter. */
    method Add(text: string) returns (t: Todo)
      requires Valid()
      modifies this
      ensures Valid()
      ensures t == Todo(old(nextId), text, false)
      ensures todos == old(todos) + [t]
      ensures nextId == old(nextId) + 1
      ensures Issued == old(Issued) + [t.id]
      ensures forall x :: x in old(Issued) ==> x < t.id
      ensures CompletionKept(old(todos), todos)
    {
      t := Todo(nextId, text, false);
      AppendKeeps(todos, t);
      todos := todos + [t];
      Issued := Issued + [nextId];
      nextId := nextId + 1;
    }

    /** A copy of all records in insertion order; the store is not changed. */
    method GetAll() returns (r: seq<Todo>)
      ensures r == todos
    {
      r := todos;
    }

    /** The linear scan behind `get_by_id`: the position of the first record
        carrying `id`. The position stands for the live record that the
        scan hands back, which `Complete` and `Update` then change in place. */
    method Find(id: int) returns (k: Option<nat>)
      ensures k.None? ==> Lookup(todos, id).None?
      ensures k.Some? ==> k.value < |todos| && todos[k.value].id == id
      ensures k.Some? ==> forall j :: 0 <= j < k.value ==> todos[j].id != id
      ensures k.Some? ==> Lookup(todos, id) == Some(todos[k.value])
    {
      var i := 0;
      while i < |todos|
        invariant 0 <= i <= |todos|
        invariant forall j :: 0 <= j < i ==> todos[j].id != id
      {
        if todos[i].id == id {
          LookupFirst(todos, i);
          return Some(i);
        }
        i := i + 1;
      }
      return None;
    }

    /** The record carrying `id`, or `None` when there is none. */
    method GetById(id: int) returns (r: Option<Todo>)
      ensures r == Lookup(todos, id)
    {
      var k := Find(id);
      if k.Some? {
        r := Some(todos[k.value]);
      } else {
        r := None;
      }
    }

    /** Marks the record carrying `id` as completed, whatever its flag was, and
        returns it; on an unknown id returns `None` and changes nothing. */
    method Complete(id: int) returns (r: Option<Todo>)
      requires Valid()
      modifies this
      ensures Valid() && nextId == old(nextId) && Issued == old(Issued)
      ensures old(Lookup(todos, id)).None? ==> r.None? && todos == old(todos)
      ensures old(Lookup(todos, id)).Some? ==>
                r == Some(old(Lookup(todos, id)).value.(completed := true))
                && ReplacedById(old(todos), todos, r.value)
      ensures old(Lookup(todos, id)).Some? && old(Lookup(todos, id)).value.completed ==> todos == old(todos)
      ensures CompletionKept(old(todos), todos)
    {
      var k := Find(id);
      if k.None? {
        return None;
      }
      var i := k.value;
      var t := todos[i].(completed := true);
      ghost var before := todos;
      todos := todos[i := t];
      assert ReplacedById(before, todos, t);
      ReplaceKeeps(before, todos, t, i);
      if before[i].completed {
        ReplaceBySelf(before, todos, i);
      }
      r := Some(t);
    }

    /** Replaces the text of the record carrying `id` and returns it; on an
        unknown id returns `None` and changes nothing. */
    method Update(id: int, text: string) returns (r: Option<Todo>)
      requires Valid()
      modifies this
      ensures Valid() && nextId == old(nextId) && Issued == old(Issued)
      ensures old(Lookup(todos, id)).None? ==> r.None? && todos == old(todos)
      ensures old(Lookup(todos, id)).Some? ==>
                r == Some(old(Lookup(todos, id)).value.(text := text))
                && ReplacedById(old(todos), todos, r.value)
      ensures CompletionKept(old(todos), todos)
    {
      var k := Find(id);
      if k.None? {
        return None;
      }
      var i := k.value;
      var t := todos[i].(text := text);
      ghost var before := todos;
      todos := todos[i := t];
      assert ReplacedById(before, todos, t);
      ReplaceKeeps(before, todos, t, i);
      r := Some(t);
    }

    /** Removes the first record carrying `id`, keeping the others in order,
        and tells whether there was one. The counter is left alone. */
    method Delete(id: int) returns (deleted: bool)
      requires Valid()
      modifies this
      ensures Valid() && nextId == old(nextId) && Issued == old(Issued)
      ensures deleted <==> old(Lookup(todos, id)).Some?
      ensures !deleted ==> todos == old(todos)
      ensures deleted ==>
                exists k :: 0 <= k < |old(todos)| && old(todos)[k].id == id
                            && todos == old(todos)[..k] + old(todos)[k + 1..]
      ensures CompletionKept(old(todos), todos)
    {
      var i := 0;
      while i < |todos|
        invariant 0 <= i <= |todos|
        invariant forall j :: 0 <= j < i ==> todos[j].id != id
      {
        if todos[i].id == id {
          ghost var before := todos;
          RemoveKeeps(todos, i);
          todos := todos[..i] + todos[i + 1..];
          assert forall j :: 0 <= j < |todos| ==> todos[j] == before[if j < i then j else j + 1];
          return true;
        }
        i := i + 1;
      }
      return false;
    }

    /** The number of records held. */
    method Count() returns (n: nat)
      ensures n == |todos|
    {
      n := |todos|;
    }
  }
}
