/** The in-memory task store: one ordered list of task records, updated in
    place by create, update and delete, and read by list and get. */
module TaskStore {
  import opened Tasks
  import opened Records

  class Store {
    /** The module-level `tasks` list, in insertion order. */
    var tasks: seq<Task>

    /** Ids are pairwise distinct and positive. */
    ghost predicate Valid()
      reads this
    {
      DistinctIds(tasks) && PositiveIds(tasks)
    }

    /** The process starts with an empty list. */
    constructor ()
      ensures Valid() && tasks == []
    {
      tasks := [];
    }

    /** create: a request without a title is rejected and nothing changes;
        otherwise one record is appended whose id is larger than every id
        present, and that record is returned. */
    method Create(req: Request) returns (r: Outcome)
      requires Valid()
      modifies this
      ensures Valid()
      ensures req.title.None? ==> r == ValidationError && tasks == old(tasks)
      ensures req.title.Some? ==>
        var p := Validate(req).value;
        r == Ok(NewRecord(old(tasks), p)) && tasks == old(tasks) + [r.task]
      ensures r.Ok? ==> forall i | 0 <= i < |old(tasks)| :: old(tasks)[i].id < r.task.id
      ensures r.Ok? ==> FindIndex(tasks, r.task.id) == Some(|old(tasks)|)
    {
      match Validate(req) {
        case None =>
          r := ValidationError;
        case Some(p) =>
          var t := NewRecord(tasks, p);
          tasks := tasks + [t];
          r := Ok(t);
          assert tasks[|tasks| - 1] == t;
      }
    }

    /** list: the whole list, in insertion order. */
    function List(): (r: seq<Task>)
      reads this
      ensures r == tasks
    {
      tasks
    }

    /** get: the record whose id matches, or NotFound when none does. */
    function Get(id: int): (r: Outcome)
      reads this
      ensures !r.ValidationError?
      ensures r.NotFound? <==> forall j | 0 <= j < |tasks| :: tasks[j].id != id
      ensures r.Ok? ==> r.task.id == id && r.task in tasks
      ensures DistinctIds(tasks) ==> forall j | 0 <= j < |tasks| && tasks[j].id == id :: r == Ok(tasks[j])
    {
      match FindIndex(tasks, id)
      case None => NotFound
      case Some(i) => Ok(tasks[i])
    }

    /** update: the body is validated first; then the record with that id
        has its title, description and completed overwritten by the
        payload's (defaults included) and keeps its id and position; every
        other record is unchanged. An absent id gives NotFound. */
    method Update(id: int, req: Request) returns (r: Outcome)
      requires Valid()
      modifies this
      ensures Valid()
      ensures req.title.None? ==> r == ValidationError && tasks == old(tasks)
      ensures req.title.Some? && old(Get(id)).NotFound? ==> r == NotFound && tasks == old(tasks)
      ensures req.title.Some? && old(Get(id)).Ok? ==>
        var p := Validate(req).value;
        var i := FindIndex(old(tasks), id).value;
        r == Ok(Task(id, p.title, p.description, p.completed)) && tasks == old(tasks)[i := r.task]
      ensures |tasks| == |old(tasks)|
      ensures forall j | 0 <= j < |tasks| :: tasks[j].id == old(tasks)[j].id
    {
      match Validate(req) {
        case None =>
          r := ValidationError;
        case Some(p) =>
          match FindIndex(tasks, id) {
            case None =>
              r := NotFound;
            case Some(i) =>
              var t := Overwrite(tasks[i], p);
              tasks := tasks[i := t];
              r := Ok(t);
          }
      }
    }

    /** delete: the record with that id is removed and returned; the others
        keep their relative order, and afterwards no record has that id. An
        absent id gives NotFound. */
    method Delete(id: int) returns (r: Outcome)
      requires Valid()
      modifies this
      ensures Valid()
      ensures old(Get(id)).NotFound? ==> r == NotFound && tasks == old(tasks)
      ensures old(Get(id)).Ok? ==>
        var i := FindIndex(old(tasks), id).value;
        r == Ok(old(tasks)[i]) && tasks == old(tasks)[..i] + old(tasks)[i + 1..]
      ensures Get(id) == NotFound
    {
      match FindIndex(tasks, id) {
        case None =>
          r := NotFound;
        case Some(i) =>
          var t := tasks[i];
          RemoveFirstAt(tasks, i);
          RemoveAtKeepsIds(tasks, i);
          tasks := RemoveFirst(tasks, t);
          r := Ok(t);
      }
    }
  }

  /** N creates on a fresh store, one per payload, each with a body that
      carries all three fields: list then holds N records in creation
      order, the k-th with id k and the k-th payload's fields. */
  method CreateFromEmpty(ps: seq<Payload>) returns (s: Store)
    ensures s.Valid() && s.List() == CreateAll(ps)
    ensures |s.List()| == |ps|
    ensures forall k | 0 <= k < |ps| ::
      s.List()[k] == Task(k + 1, ps[k].title, ps[k].description, ps[k].completed)
  {
    s := new Store();
    var n := 0;
    while n < |ps|
      invariant 0 <= n <= |ps|
      invariant s.Valid() && s.tasks == CreateAll(ps[..n])
    {
      var p := ps[n];
      var req := Request(Some(p.title), p.description, Some(p.completed));
      assert Validate(req) == Some(p);
      CreateAllStep(ps, n);
      var r := s.Create(req);
      n := n + 1;
    }
    assert ps[..n] == ps;
    CreateAllFromEmpty(ps);
  }

  /** A session on a fresh store: create, update with a body that omits
      the description, delete, get the deleted id, create again. */
  method ExampleSession() returns (created: Outcome, updated: Outcome, deleted: Outcome, after: Outcome, again: Outcome)
    ensures created == Ok(Task(1, "Buy groceries", Some("Milk, eggs, bread"), false))
    ensures updated == Ok(Task(1, "Buy groceries and more", None, true))
    ensures deleted == updated
    ensures after == NotFound
    ensures again == Ok(Task(1, "Buy groceries", None, false))
  {
    var s := new Store();
    var first := Request(Some("Buy groceries"), Some("Milk, eggs, bread"), None);
    assert MaxId(s.tasks) == 0;
    created := s.Create(first);
    assert s.tasks == [Task(1, "Buy groceries", Some("Milk, eggs, bread"), false)];
    assert FindIndex(s.tasks, 1) == Some(0);
    updated := s.Update(1, Request(Some("Buy groceries and more"), None, Some(true)));
    assert s.tasks == [Task(1, "Buy groceries and more", None, true)];
    deleted := s.Delete(1);
    assert s.tasks == [];
    after := s.Get(1);
    again := s.Create(Request(Some("Buy groceries"), None, None));
  }
}
