/** Escalated cases and the two whole-list edits the tracker makes to them:
    `updateCaseStatus` (a `map`) and `deleteCase` (a `filter`), app.js. */
module Cases {

  datatype Status = Open | Returned

  /** One stored case, with the fields `handleFormSubmit` writes. */
  datatype Case = Case(
    id: string,
    orgNumber: string,
    department: string,
    dateEscalated: string,
    description: string,
    dueDate: string,
    status: Status)

  /** The ids of `cases`, in order. */
  function Ids(cases: seq<Case>): (ids: seq<string>)
    ensures |ids| == |cases|
    ensures forall i | 0 <= i < |cases| :: ids[i] == cases[i].id
  {
    if cases == [] then [] else Ids(cases[..|cases| - 1]) + [cases[|cases| - 1].id]
  }

  /** No two cases share an id. */
  predicate UniqueIds(cases: seq<Case>) {
    forall i, j | 0 <= i < j < |cases| :: cases[i].id != cases[j].id
  }

  /** `cases.map(c => c.id === id ? { ...c, status } : c)` (app.js:184-186). */
  function WithStatus(cases: seq<Case>, id: string, status: Status): (r: seq<Case>)
    ensures |r| == |cases|
    ensures forall i | 0 <= i < |cases| ::
      r[i] == if cases[i].id == id then cases[i].(status := status) else cases[i]
  {
    if cases == [] then []
    else
      var c := cases[0];
      [if c.id == id then c.(status := status) else c] + WithStatus(cases[1..], id, status)
  }

  /** `cases.filter(c => c.id !== id)` (app.js:195). */
  function Without(cases: seq<Case>, id: string): (r: seq<Case>)
    ensures |r| <= |cases|
    ensures forall c :: c in r <==> c in cases && c.id != id
  {
    if cases == [] then []
    else if cases[0].id == id then Without(cases[1..], id)
    else [cases[0]] + Without(cases[1..], id)
  }

  /** The number of cases with the given id. */
  function CountId(cases: seq<Case>, id: string): (n: nat)
    ensures n <= |cases|
    ensures n == 0 <==> id !in Ids(cases)
  {
    if cases == [] then 0
    else (if cases[0].id == id then 1 else 0) + CountId(cases[1..], id)
  }

  // ---- updateCaseStatus ----

  /** An id no case has leaves the list exactly as it was. */
  lemma WithStatusUnknownId(cases: seq<Case>, id: string, status: Status)
    requires id !in Ids(cases)
    ensures WithStatus(cases, id, status) == cases
  {
    var r := WithStatus(cases, id, status);
    forall i | 0 <= i < |cases| ensures r[i] == cases[i] {
      assert Ids(cases)[i] == cases[i].id;
    }
  }

  /** A status update changes no id, no order and no field other than `status`. */
  lemma WithStatusKeepsAllButStatus(cases: seq<Case>, id: string, status: Status)
    ensures Ids(WithStatus(cases, id, status)) == Ids(cases)
    ensures forall i | 0 <= i < |cases| ::
      WithStatus(cases, id, status)[i].(status := cases[i].status) == cases[i]
    ensures forall i | 0 <= i < |cases| && cases[i].id == id ::
      WithStatus(cases, id, status)[i].status == status
  {
    var r := WithStatus(cases, id, status);
    forall i | 0 <= i < |cases| ensures Ids(r)[i] == Ids(cases)[i] {
      assert r[i].id == cases[i].id;
    }
  }

  lemma WithStatusKeepsUniqueIds(cases: seq<Case>, id: string, status: Status)
    requires UniqueIds(cases)
    ensures UniqueIds(WithStatus(cases, id, status))
  {
  }

  /** Setting the same status twice is setting it once. */
  lemma WithStatusIdempotent(cases: seq<Case>, id: string, status: Status)
    ensures WithStatus(WithStatus(cases, id, status), id, status) == WithStatus(cases, id, status)
  {
  }

  /** "Mark as returned" followed by "Reopen" (or the other way round) gives back the
      list, when the cases with that id all had the status restored. */
  lemma WithStatusUndo(cases: seq<Case>, id: string, status: Status, previous: Status)
    requires forall i | 0 <= i < |cases| && cases[i].id == id :: cases[i].status == previous
    ensures WithStatus(WithStatus(cases, id, status), id, previous) == cases
  {
  }

  // ---- deleteCase ----

  /** Deleting keeps the remaining cases in their original order: filtering a
      concatenation filters each part. */
  lemma {:induction false} WithoutConcat(a: seq<Case>, b: seq<Case>, id: string)
    ensures Without(a + b, id) == Without(a, id) + Without(b, id)
    decreases |a|
  {
    if a != [] {
      assert (a + b)[0] == a[0] && (a + b)[1..] == a[1..] + b;
      WithoutConcat(a[1..], b, id);
      var x, y := Without(a[1..], id), Without(b, id);
      if a[0].id == id {
        assert Without(a + b, id) == Without(a[1..] + b, id);
        assert Without(a, id) == x;
      } else {
        assert Without(a + b, id) == [a[0]] + Without(a[1..] + b, id);
        assert Without(a, id) == [a[0]] + x;
        assert [a[0]] + (x + y) == ([a[0]] + x) + y;
      }
    } else {
      assert a + b == b;
    }
  }

  /** Exactly the cases with that id are removed. */
  lemma {:induction false} WithoutRemovesCount(cases: seq<Case>, id: string)
    ensures |Without(cases, id)| == |cases| - CountId(cases, id)
    decreases |cases|
  {
    if cases != [] {
      WithoutRemovesCount(cases[1..], id);
    }
  }

  /** Deleting an id no case has changes nothing. */
  lemma WithoutUnknownId(cases: seq<Case>, id: string)
    requires id !in Ids(cases)
    ensures Without(cases, id) == cases
  {
    forall i | 0 <= i < |cases| ensures cases[i].id != id {
      assert Ids(cases)[i] == cases[i].id;
    }
    WithoutNoMatch(cases, id);
  }

  lemma {:induction false} WithoutNoMatch(cases: seq<Case>, id: string)
    requires forall i | 0 <= i < |cases| :: cases[i].id != id
    ensures Without(cases, id) == cases
    decreases |cases|
  {
    if cases != [] {
      var rest := cases[1..];
      assert forall i | 0 <= i < |rest| :: rest[i] == cases[i + 1];
      WithoutNoMatch(rest, id);
      assert cases == [cases[0]] + rest;
    }
  }

  /** Removing cases cannot make two ids equal. */
  lemma {:induction false} WithoutKeepsUniqueIds(cases: seq<Case>, id: string)
    requires UniqueIds(cases)
    ensures UniqueIds(Without(cases, id))
    decreases |cases|
  {
    if cases != [] {
      WithoutKeepsUniqueIds(cases[1..], id);
      var rest := Without(cases[1..], id);
      if cases[0].id != id {
        forall c | c in rest ensures c.id != cases[0].id {
          var k :| 0 <= k < |cases[1..]| && cases[1..][k] == c;
          assert cases[k + 1] == c;
        }
        var r := [cases[0]] + rest;
        forall i, j | 0 <= i < j < |r| ensures r[i].id != r[j].id {
          if i == 0 {
            assert r[j] == rest[j - 1] && r[j] in rest;
          } else {
            assert r[i] == rest[i - 1] && r[j] == rest[j - 1];
          }
        }
      }
    }
  }

  // ---- creation ----

  /** Appending a case whose id is new keeps ids unique. */
  lemma AppendFreshKeepsUniqueIds(cases: seq<Case>, c: Case)
    requires UniqueIds(cases) && c.id !in Ids(cases)
    ensures UniqueIds(cases + [c])
  {
    var r := cases + [c];
    forall i, j | 0 <= i < j < |r| ensures r[i].id != r[j].id {
      if j == |cases| {
        assert Ids(cases)[i] == cases[i].id;
      }
    }
  }

  /** Deleting a case just added under a new id gives back the list before it. */
  lemma DeleteUndoesAppend(cases: seq<Case>, c: Case)
    requires c.id !in Ids(cases)
    ensures Without(cases + [c], c.id) == cases
  {
    WithoutConcat(cases, [c], c.id);
    WithoutUnknownId(cases, c.id);
    assert Without([c], c.id) == [] by {
      assert [c][1..] == [];
    }
  }
}
