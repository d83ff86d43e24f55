/** Pure functions over the store's list of task records: the id that
    create hands out, the scan by id that get, update and delete share, and
    the removal of a record from the list. */
module Records {
  import opened Tasks

  /** No two records share an id. */
  predicate DistinctIds(ts: seq<Task>)
  {
    forall i, j | 0 <= i < j < |ts| :: ts[i].id != ts[j].id
  }

  /** Every id is at least 1 (the smallest id create ever assigns). */
  predicate PositiveIds(ts: seq<Task>)
  {
    forall i | 0 <= i < |ts| :: ts[i].id >= 1
  }

  function Max(a: int, b: int): (r: int)
  {
    if a < b then b else a
  }

  /** The largest id in the list, or 0 when the list is empty: the
      `max(..., default=0)` that create computes. */
  function MaxId(ts: seq<Task>): (m: int)
    ensures forall i | 0 <= i < |ts| :: ts[i].id <= m
    ensures ts == [] ==> m == 0
    ensures ts != [] ==> exists i | 0 <= i < |ts| :: ts[i].id == m
  {
    if |ts| == 0 then 0
    else if |ts| == 1 then ts[0].id
    else
      var prefix := ts[..|ts| - 1];
      assert forall i | 0 <= i < |prefix| :: prefix[i] == ts[i];
      Max(MaxId(prefix), ts[|ts| - 1].id)
  }

  /** The record create stores for payload `p`: its id is one more than
      the largest id present, so it is larger than every id in the list. */
  function NewRecord(ts: seq<Task>, p: Payload): (t: Task)
    ensures forall i | 0 <= i < |ts| :: ts[i].id < t.id
    ensures PositiveIds(ts) ==> t.id >= 1
    ensures ts == [] ==> t.id == 1
    ensures ts != [] ==> exists i | 0 <= i < |ts| :: ts[i].id == t.id - 1
    ensures t.title == p.title && t.description == p.description && t.completed == p.completed
  {
    var m := MaxId(ts);
    assert ts != [] ==> exists i | 0 <= i < |ts| :: ts[i].id == m;
    Task(m + 1, p.title, p.description, p.completed)
  }

  /** The position of the first record whose id is `id`, or None: the
      generator scan `next((t for t in tasks if t["id"] == id), None)`. */
  function FindIndex(ts: seq<Task>, id: int): (r: Option<nat>)
    ensures r.Some? ==> r.value < |ts| && ts[r.value].id == id
    ensures r.Some? ==> forall j | 0 <= j < r.value :: ts[j].id != id
    ensures r.None? <==> forall j | 0 <= j < |ts| :: ts[j].id != id
  {
    if |ts| == 0 then None
    else if ts[0].id == id then Some(0)
    else
      match FindIndex(ts[1..], id)
      case None => None
      case Some(k) => Some(k + 1)
  }

  /** `dict.update` of a stored record with a validated payload: the three
      payload fields are overwritten, the id is left alone. */
  function Overwrite(t: Task, p: Payload): (r: Task)
    ensures r.id == t.id
    ensures r.title == p.title && r.description == p.description && r.completed == p.completed
  {
    t.(title := p.title, description := p.description, completed := p.completed)
  }

  /** Python's `list.remove(x)`: drops the first element equal to `x`
      (whole-record equality, as for dicts). Delete (main.py:98) only calls
      it with an element of the list. */
  function RemoveFirst(ts: seq<Task>, x: Task): (r: seq<Task>)
    requires x in ts
    ensures |r| == |ts| - 1
  {
    if ts[0] == x then ts[1..]
    else [ts[0]] + RemoveFirst(ts[1..], x)
  }

  /** Removing the record found at position `i` by the scan drops exactly
      that position: no earlier element equals it. */
  lemma {:induction false} RemoveFirstAt(ts: seq<Task>, i: nat)
    requires i < |ts|
    requires forall j | 0 <= j < i :: ts[j] != ts[i]
    ensures RemoveFirst(ts, ts[i]) == ts[..i] + ts[i + 1..]
  {
    if i > 0 {
      FirstInTail(ts, i);
      RemoveFirstAt(ts[1..], i - 1);
      RemoveFirstSkips(ts, ts[i]);
      SpliceCons(ts, i);
    } else {
      assert ts[..0] + ts[1..] == ts[1..];
    }
  }

  /** Past a head that differs, the first element equal to `x` is the
      one in the tail. */
  lemma RemoveFirstSkips(ts: seq<Task>, x: Task)
    requires x in ts && ts[0] != x
    ensures x in ts[1..]
    ensures RemoveFirst(ts, x) == [ts[0]] + RemoveFirst(ts[1..], x)
  {
    assert ts == [ts[0]] + ts[1..];
  }

  /** The position `i` of `ts` is position `i - 1` of its tail, and it is
      still the first of its value there. */
  lemma FirstInTail(ts: seq<Task>, i: nat)
    requires 0 < i < |ts|
    requires forall j | 0 <= j < i :: ts[j] != ts[i]
    ensures ts[1..][i - 1] == ts[i]
    ensures forall j | 0 <= j < i - 1 :: ts[1..][j] != ts[1..][i - 1]
  {
    forall j | 0 <= j < i - 1
      ensures ts[1..][j] != ts[1..][i - 1]
    {
      assert ts[1..][j] == ts[j + 1];
    }
  }

  /** Putting the head back in front of the tail with a position removed
      gives the list with that position removed. */
  lemma SpliceCons(ts: seq<Task>, i: nat)
    requires 0 < i < |ts|
    ensures [ts[0]] + (ts[1..][..i - 1] + ts[1..][i..]) == ts[..i] + ts[i + 1..]
  {
    assert ts[1..][..i - 1] == ts[1..i];
    assert ts[1..][i..] == ts[i + 1..];
    assert [ts[0]] + ts[1..i] == ts[..i];
  }

  /** Deleting a record keeps the ids distinct and positive. */
  lemma {:induction false} RemoveAtKeepsIds(ts: seq<Task>, i: nat)
    requires i < |ts|
    requires DistinctIds(ts) && PositiveIds(ts)
    ensures DistinctIds(ts[..i] + ts[i + 1..]) && PositiveIds(ts[..i] + ts[i + 1..])
    ensures forall j | 0 <= j < |ts| && j != i :: ts[j] in ts[..i] + ts[i + 1..]
  {
    var r := ts[..i] + ts[i + 1..];
    assert forall k | 0 <= k < |r| :: r[k] == ts[if k < i then k else k + 1];
    forall j | 0 <= j < |ts| && j != i
      ensures ts[j] in r
    {
      assert r[if j < i then j else j - 1] == ts[j];
    }
  }

  /** The list after `ps` creates on an empty store. */
  function CreateAll(ps: seq<Payload>): (r: seq<Task>)
  {
    if ps == [] then []
    else
      var before := CreateAll(ps[..|ps| - 1]);
      before + [NewRecord(before, ps[|ps| - 1])]
  }

  /** N creates from empty leave N records whose largest id is N. */
  lemma {:induction false} CreateAllSize(ps: seq<Payload>)
    ensures |CreateAll(ps)| == |ps| && MaxId(CreateAll(ps)) == |ps|
  {
    if ps != [] {
      var n := |ps| - 1;
      var before := CreateAll(ps[..n]);
      CreateAllSize(ps[..n]);
      var all := before + [NewRecord(before, ps[n])];
      assert all[..n] == before;
    }
  }

  /** The last of N creates from empty stores the last payload under id
      N. */
  lemma CreateAllLast(ps: seq<Payload>)
    requires ps != []
    ensures |CreateAll(ps)| == |ps|
    ensures CreateAll(ps)[|ps| - 1] == Task(|ps|, ps[|ps| - 1].title, ps[|ps| - 1].description, ps[|ps| - 1].completed)
  {
    var n := |ps| - 1;
    CreateAllSize(ps[..n]);
    var before := CreateAll(ps[..n]);
    assert NewRecord(before, ps[n]).id == MaxId(before) + 1;
  }

  /** A create leaves the records before it in place. */
  lemma CreateAllPrefix(ps: seq<Payload>)
    requires ps != []
    ensures |CreateAll(ps)| == |ps|
    ensures CreateAll(ps)[..|ps| - 1] == CreateAll(ps[..|ps| - 1])
  {
    CreateAllSize(ps);
    CreateAllSize(ps[..|ps| - 1]);
  }

  /** The k-th of N creates from empty stores the k-th payload under id
      k + 1, and later creates leave it in place. */
  lemma {:induction false} CreateAllAt(ps: seq<Payload>, k: nat)
    requires k < |ps|
    ensures |CreateAll(ps)| == |ps|
    ensures CreateAll(ps)[k] == Task(k + 1, ps[k].title, ps[k].description, ps[k].completed)
  {
    CreateAllLast(ps);
    var n := |ps| - 1;
    if k < n {
      var front := ps[..n];
      CreateAllAt(front, k);
      CreateAllPrefix(ps);
      assert front[k] == ps[k];
      assert CreateAll(ps)[k] == CreateAll(ps)[..n][k];
    }
  }

  /** One more create extends the list of the creates before it. */
  lemma CreateAllStep(ps: seq<Payload>, n: nat)
    requires n < |ps|
    ensures CreateAll(ps[..n + 1]) == CreateAll(ps[..n]) + [NewRecord(CreateAll(ps[..n]), ps[n])]
  {
    assert ps[..n + 1][..n] == ps[..n];
  }

  /** After N creates from empty the list holds N records, in creation
      order, the k-th with id k and the k-th payload's fields. */
  lemma {:induction false} CreateAllFromEmpty(ps: seq<Payload>)
    ensures |CreateAll(ps)| == |ps|
    ensures forall k | 0 <= k < |ps| ::
      CreateAll(ps)[k] == Task(k + 1, ps[k].title, ps[k].description, ps[k].completed)
  {
    CreateAllSize(ps);
    forall k | 0 <= k < |ps|
      ensures CreateAll(ps)[k] == Task(k + 1, ps[k].title, ps[k].description, ps[k].completed)
    {
      CreateAllAt(ps, k);
    }
  }

  /** Deleting the record with the largest id lowers the next id create
      hands out to at most the deleted id, so that id can be assigned
      again. */
  lemma DeleteMaxAllowsReuse(ts: seq<Task>, i: nat, p: Payload)
    requires i < |ts| && DistinctIds(ts) && PositiveIds(ts)
    requires ts[i].id == MaxId(ts)
    ensures NewRecord(ts[..i] + ts[i + 1..], p).id <= ts[i].id
  {
    var r := ts[..i] + ts[i + 1..];
    forall k | 0 <= k < |r|
      ensures r[k].id < ts[i].id
    {
      var j := if k < i then k else k + 1;
      assert r[k] == ts[j] && j != i;
    }
    if r != [] {
      var k :| 0 <= k < |r| && r[k].id == MaxId(r);
    } else {
      assert ts[i].id >= 1;
    }
  }
}
