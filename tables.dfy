/** The database as the controllers see it: a table is a map from a row's id to
    the row, and the HTTP outcome of a handler is a `Response`. */
module Tables {
  import opened Seqs

  /** The id of the authenticated requester (`req.user.id`). */
  type UserId = string

  /** Every row is stored under its own id, and ids stay below the next id to be issued. */
  ghost predicate Keyed<T>(m: map<nat, T>, key: T -> nat, nextId: nat)
  {
    forall k :: k in m ==> key(m[k]) == k && k < nextId
  }

  /** The rows whose id is below `n`, in increasing id order
      (the order in which `findMany` meets them before it sorts). */
  function RowsBelow<T>(m: map<nat, T>, key: T -> nat, n: nat): (r: seq<T>)
    requires forall k :: k in m ==> key(m[k]) == k
    ensures forall i :: 0 <= i < |r| ==> key(r[i]) in m && m[key(r[i])] == r[i] && key(r[i]) < n
    ensures forall k :: k in m && k < n ==> m[k] in r
    ensures forall i, j :: 0 <= i < j < |r| ==> key(r[i]) < key(r[j])
  {
    if n == 0 then []
    else
      var rest := RowsBelow(m, key, n - 1);
      RowsBelowStep(m, key, n, rest);
      if n - 1 in m then rest + [m[n - 1]] else rest
  }

  /** One more id: the row under `n - 1`, if any, goes after the rows below it. */
  lemma RowsBelowStep<T>(m: map<nat, T>, key: T -> nat, n: nat, rest: seq<T>)
    requires forall k :: k in m ==> key(m[k]) == k
    requires n > 0
    requires forall i :: 0 <= i < |rest| ==> key(rest[i]) in m && m[key(rest[i])] == rest[i] && key(rest[i]) < n - 1
    requires forall k :: k in m && k < n - 1 ==> m[k] in rest
    requires forall i, j :: 0 <= i < j < |rest| ==> key(rest[i]) < key(rest[j])
    ensures var r := if n - 1 in m then rest + [m[n - 1]] else rest;
      && (forall i :: 0 <= i < |r| ==> key(r[i]) in m && m[key(r[i])] == r[i] && key(r[i]) < n)
      && (forall k :: k in m && k < n ==> m[k] in r)
      && (forall i, j :: 0 <= i < j < |r| ==> key(r[i]) < key(r[j]))
  {
    if n - 1 in m {
      var r := rest + [m[n - 1]];
      assert forall i :: 0 <= i < |rest| ==> r[i] == rest[i];
      assert r[|rest|] == m[n - 1];
    } else {
      assert forall k :: k in m && k < n ==> k < n - 1;
    }
  }

  /** All rows of a table, each exactly once. */
  function Rows<T(!new)>(m: map<nat, T>, key: T -> nat, nextId: nat): (r: seq<T>)
    requires Keyed(m, key, nextId)
    ensures NoDuplicates(r)
    ensures forall x :: x in r <==> key(x) in m && m[key(x)] == x
  {
    var r := RowsBelow(m, key, nextId);
    assert forall x :: x in r ==> key(x) in m && m[key(x)] == x by {
      forall x | x in r ensures key(x) in m && m[key(x)] == x {
        var i :| 0 <= i < |r| && r[i] == x;
      }
    }
    r
  }

  /** The HTTP outcome of a handler: 200 (`Ok`) or 201 (`Created`) carrying a
      body, or 400, 403 or 404 carrying the JSON `message`. */
  datatype Response<T> =
    | Ok(body: T)
    | Created(body: T)
    | BadRequest(message: string)
    | Forbidden(message: string)
    | NotFound(message: string)
  {
    predicate IsError()
    {
      BadRequest? || Forbidden? || NotFound?
    }
  }
}
