/** The pure list transformations the client applies to its in-memory task list
    after a successful call: replace-by-id (`tasks.map`), prepend (array spread)
    and remove-by-id (`tasks.filter`). */
module TaskList {
  import opened TaskModel

  /** No two entries share an id, as the store guarantees for the records it serves. */
  ghost predicate UniqueIds(ts: seq<Task>) {
    forall i, j :: 0 <= i < j < |ts| ==> ts[i].id != ts[j].id
  }

  ghost predicate HasId(ts: seq<Task>, id: int) {
    exists t :: t in ts && t.id == id
  }

  /** Every entry whose id is `id` becomes `reply`; the others stay where they are. */
  function ReplaceById(ts: seq<Task>, id: int, reply: Task): (r: seq<Task>)
    ensures |r| == |ts|
    ensures forall i :: 0 <= i < |ts| && ts[i].id != id ==> r[i] == ts[i]
    ensures forall i :: 0 <= i < |ts| && ts[i].id == id ==> r[i] == reply
  {
    if ts == [] then []
    else [if ts[0].id == id then reply else ts[0]] + ReplaceById(ts[1..], id, reply)
  }

  /** The newly created record goes in front of the list. */
  function Prepend(created: Task, ts: seq<Task>): (r: seq<Task>)
    ensures |r| == |ts| + 1 && r[0] == created && r[1..] == ts
    ensures forall t :: t in r <==> t == created || t in ts
  {
    [created] + ts
  }

  /** The list without the entries whose id is `id`. */
  function RemoveById(ts: seq<Task>, id: int): (r: seq<Task>)
    ensures forall t :: t in r <==> t in ts && t.id != id
    ensures |r| <= |ts|
  {
    if ts == [] then []
    else if ts[0].id == id then RemoveById(ts[1..], id)
    else [ts[0]] + RemoveById(ts[1..], id)
  }

  /** Removing works piecewise on a concatenation, so the kept entries stay in
      their original order. */
  lemma {:induction false} RemoveByIdAppend(a: seq<Task>, b: seq<Task>, id: int)
    ensures RemoveById(a + b, id) == RemoveById(a, id) + RemoveById(b, id)
  {
    if a == [] {
      assert a + b == b;
    } else {
      assert (a + b)[0] == a[0];
      assert (a + b)[1..] == a[1..] + b;
      RemoveByIdAppend(a[1..], b, id);
    }
  }

  /** Each record with another id keeps its number of occurrences; records with
      the id are all gone. */
  lemma {:induction false} RemoveByIdCount(ts: seq<Task>, id: int, t: Task)
    ensures multiset(RemoveById(ts, id))[t] == if t.id == id then 0 else multiset(ts)[t]
  {
    if ts != [] {
      RemoveByIdCount(ts[1..], id, t);
      assert ts == [ts[0]] + ts[1..];
    }
  }

  /** Removing an id that is not in the list leaves the list as it was. */
  lemma {:induction false} RemoveAbsentId(ts: seq<Task>, id: int)
    requires !HasId(ts, id)
    ensures RemoveById(ts, id) == ts
  {
    if ts != [] {
      assert ts[0] in ts;
      assert !HasId(ts[1..], id) by {
        forall t | t in ts[1..] ensures t.id != id {
          assert t in ts;
        }
      }
      RemoveAbsentId(ts[1..], id);
      assert ts == [ts[0]] + ts[1..];
    }
  }

  /** A second delete of the same id changes nothing. */
  lemma RemoveByIdIdempotent(ts: seq<Task>, id: int)
    ensures RemoveById(RemoveById(ts, id), id) == RemoveById(ts, id)
  {
    RemoveAbsentId(RemoveById(ts, id), id);
  }

  /** Replacing an id that is not in the list leaves the list as it was. */
  lemma ReplaceAbsentId(ts: seq<Task>, id: int, reply: Task)
    requires !HasId(ts, id)
    ensures ReplaceById(ts, id, reply) == ts
  {
    var r := ReplaceById(ts, id, reply);
    forall i | 0 <= i < |ts| ensures r[i] == ts[i] {
      assert ts[i] in ts;
    }
  }

  /** Two replies for the same id: the later one wins. */
  lemma ReplaceByIdTwice(ts: seq<Task>, id: int, first: Task, second: Task)
    requires first.id == id
    ensures ReplaceById(ReplaceById(ts, id, first), id, second) == ReplaceById(ts, id, second)
  {
  }

  /** Deleting a task after it was updated gives the same list as deleting it
      straight away, when the reply kept the id. */
  lemma {:induction false} RemoveAfterReplace(ts: seq<Task>, id: int, reply: Task)
    requires reply.id == id
    ensures RemoveById(ReplaceById(ts, id, reply), id) == RemoveById(ts, id)
  {
    if ts != [] {
      var r := ReplaceById(ts, id, reply);
      assert r[1..] == ReplaceById(ts[1..], id, reply);
      RemoveAfterReplace(ts[1..], id, reply);
    }
  }

  /** Deleting a freshly created task restores the list it was prepended to. */
  lemma DeleteUndoesCreate(created: Task, ts: seq<Task>)
    requires !HasId(ts, created.id)
    ensures RemoveById(Prepend(created, ts), created.id) == ts
  {
    assert Prepend(created, ts)[1..] == ts;
    RemoveAbsentId(ts, created.id);
  }

  /** A created record with a fresh id keeps the ids unique. */
  lemma PrependKeepsUnique(created: Task, ts: seq<Task>)
    requires UniqueIds(ts) && !HasId(ts, created.id)
    ensures UniqueIds(Prepend(created, ts))
  {
    var r := Prepend(created, ts);
    forall i, j | 0 <= i < j < |r| ensures r[i].id != r[j].id {
      if i == 0 {
        assert r[j] == ts[j - 1];
        assert ts[j - 1] in ts;
      }
    }
  }

  /** An update whose reply keeps the id keeps the ids unique. */
  lemma ReplaceKeepsUnique(ts: seq<Task>, id: int, reply: Task)
    requires UniqueIds(ts) && reply.id == id
    ensures UniqueIds(ReplaceById(ts, id, reply))
  {
  }

  /** A delete keeps the ids unique. */
  lemma {:induction false} RemoveKeepsUnique(ts: seq<Task>, id: int)
    requires UniqueIds(ts)
    ensures UniqueIds(RemoveById(ts, id))
  {
    if ts != [] {
      var rest := RemoveById(ts[1..], id);
      assert UniqueIds(ts[1..]) by {
        forall i, j | 0 <= i < j < |ts[1..]| ensures ts[1..][i].id != ts[1..][j].id {
          assert ts[1..][i] == ts[i + 1] && ts[1..][j] == ts[j + 1];
        }
      }
      RemoveKeepsUnique(ts[1..], id);
      if ts[0].id != id {
        var r := [ts[0]] + rest;
        forall i, j | 0 <= i < j < |r| ensures r[i].id != r[j].id {
          if i == 0 {
            assert r[j] == rest[j - 1];
            assert rest[j - 1] in ts[1..];
            var k :| 0 <= k < |ts[1..]| && ts[1..][k] == rest[j - 1];
            assert ts[k + 1] == rest[j - 1];
          }
        }
      }
    }
  }
}
