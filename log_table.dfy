/** The `logs` table as both store revisions use it: rows in `id` order, the
    `where({commit, player})` filter, `offset`/`limit` paging and the
    filtered delete. */
module LogTable {

  /** `.limit(500)` in `getLogMessages`. */
  const PageSize: nat := 500

  /** One row of the `logs` table. `createdAt` is the database-generated
      timestamp, supplied by the caller of the model. */
  datatype Row = Row(id: nat, commit: string, player: string, message: string, createdAt: int)

  /** What `deleteLogs` resolves to: the number of rows the delete reported,
      `undefined` when neither argument is set, or a branch whose effect
      depends on how the query builder treats an `undefined` filter value. */
  datatype Deletion = Removed(count: nat) | NothingSpecified | NotModelled

  predicate Matches(r: Row, commit: string, player: string) {
    r.commit == commit && r.player == player
  }

  /** Row ids strictly increase along the table and stay below `nextId`,
      the next value of the auto-increment counter. */
  predicate IdOrdered(rows: seq<Row>, nextId: nat) {
    (forall i, j :: 0 <= i < j < |rows| ==> rows[i].id < rows[j].id)
    && (forall i :: 0 <= i < |rows| ==> rows[i].id < nextId)
  }

  /** `where({commit, player})`: the matching rows, in table order. */
  function Where(rows: seq<Row>, commit: string, player: string): (r: seq<Row>)
    ensures forall x :: x in r <==> x in rows && Matches(x, commit, player)
    ensures |r| <= |rows|
  {
    if |rows| == 0 then []
    else
      var last := rows[|rows| - 1];
      assert rows == rows[..|rows| - 1] + [last];
      Where(rows[..|rows| - 1], commit, player) + (if Matches(last, commit, player) then [last] else [])
  }

  /** Filtering a table that was extended filters the old part and the new
      part separately, in that order. */
  lemma {:induction false} WhereAppend(a: seq<Row>, b: seq<Row>, commit: string, player: string)
    ensures Where(a + b, commit, player) == Where(a, commit, player) + Where(b, commit, player)
    decreases |b|
  {
    if |b| > 0 {
      var b' := b[..|b| - 1];
      assert (a + b)[..|a + b| - 1] == a + b';
      WhereAppend(a, b', commit, player);
    } else {
      assert a + b == a;
    }
  }

  /** Every message of a (commit, player) pair, in table order. */
  function Thread(rows: seq<Row>, commit: string, player: string): seq<string> {
    Messages(Where(rows, commit, player))
  }

  /** Appending rows to the table appends their messages of the pair, in
      order, to the pair's thread. */
  lemma ThreadAppend(a: seq<Row>, b: seq<Row>, commit: string, player: string)
    ensures Thread(a + b, commit, player) == Thread(a, commit, player) + Thread(b, commit, player)
  {
    WhereAppend(a, b, commit, player);
    var x, y := Where(a, commit, player), Where(b, commit, player);
    assert Messages(x + y) == Messages(x) + Messages(y);
  }

  /** `where({commit})`: the rows of one commit, in table order. */
  function OnCommit(rows: seq<Row>, commit: string): (r: seq<Row>)
    ensures forall x :: x in r <==> x in rows && x.commit == commit
  {
    if |rows| == 0 then []
    else
      var last := rows[|rows| - 1];
      assert rows == rows[..|rows| - 1] + [last];
      OnCommit(rows[..|rows| - 1], commit) + (if last.commit == commit then [last] else [])
  }

  /** `.offset(n)`: drop the first `n` rows. */
  function Offset<T>(s: seq<T>, n: nat): seq<T> {
    if n >= |s| then [] else s[n..]
  }

  /** `.limit(n)`: keep at most the first `n` rows. */
  function Limit<T>(s: seq<T>, n: nat): seq<T> {
    if n >= |s| then s else s[..n]
  }

  /** `rows.map(row => row.message)`. */
  function Messages(rows: seq<Row>): (ms: seq<string>)
    ensures |ms| == |rows| && forall i :: 0 <= i < |rows| ==> ms[i] == rows[i].message
  {
    seq(|rows|, i requires 0 <= i < |rows| => rows[i].message)
  }

  /** `getLogMessages(commit, player, after)`: with no `ORDER BY` the model
      takes the table order, which is `id` order. Every message returned
      comes from a row of that commit and player, and a page never holds
      more than 500 of them. */
  function ReadMessages(rows: seq<Row>, commit: string, player: string, after: nat): (r: seq<string>)
    ensures |r| <= PageSize
    ensures forall m :: m in r ==> exists x :: x in rows && Matches(x, commit, player) && x.message == m
  {
    var page := Limit(Offset(Where(rows, commit, player), after), PageSize);
    assert forall x :: x in page ==> x in Where(rows, commit, player);
    Messages(page)
  }

  /** A page is the slice of the pair's messages that starts at `after` and
      holds up to 500 of them; it is empty once `after` reaches the number
      of messages. */
  lemma ReadMessagesIsSlice(rows: seq<Row>, commit: string, player: string, after: nat)
    ensures var all := Thread(rows, commit, player);
      ReadMessages(rows, commit, player, after)
        == if after >= |all| then [] else all[after..if after + PageSize < |all| then after + PageSize else |all|]
  {
    var all := Thread(rows, commit, player);
    var r := ReadMessages(rows, commit, player, after);
    if after < |all| {
      var hi := if after + PageSize < |all| then after + PageSize else |all|;
      assert |r| == hi - after;
      forall i | 0 <= i < |r| ensures r[i] == all[after..hi][i] {
      }
    }
  }

  /** Rows that `where({commit, player}).delete()` leaves behind, in order. */
  function Without(rows: seq<Row>, commit: string, player: string): (r: seq<Row>)
    ensures forall x :: x in r <==> x in rows && !Matches(x, commit, player)
    ensures |r| <= |rows|
  {
    if |rows| == 0 then []
    else
      var last := rows[|rows| - 1];
      assert rows == rows[..|rows| - 1] + [last];
      Without(rows[..|rows| - 1], commit, player) + (if Matches(last, commit, player) then [] else [last])
  }

  /** Deleting one pair's rows leaves every other pair's rows exactly as
      they were, in the same order, and leaves none of that pair. */
  lemma {:induction false} WithoutKeepsOthers(rows: seq<Row>, commit: string, player: string, c: string, p: string)
    ensures Where(Without(rows, commit, player), c, p)
              == if c == commit && p == player then [] else Where(rows, c, p)
  {
    if |rows| > 0 {
      WithoutKeepsOthers(rows[..|rows| - 1], commit, player, c, p);
      var last := rows[|rows| - 1];
      var kept := Without(rows[..|rows| - 1], commit, player);
      if !Matches(last, commit, player) {
        assert (kept + [last])[..|kept + [last]| - 1] == kept;
      } else {
        assert Without(rows, commit, player) == kept;
      }
    }
  }

  /** Deleting keeps the relative order and the ids of the surviving rows. */
  lemma {:induction false} WithoutKeepsIdOrder(rows: seq<Row>, nextId: nat, commit: string, player: string)
    requires IdOrdered(rows, nextId)
    ensures IdOrdered(Without(rows, commit, player), nextId)
  {
    if |rows| > 0 {
      var init := rows[..|rows| - 1];
      assert IdOrdered(init, nextId);
      WithoutKeepsIdOrder(init, nextId, commit, player);
      var last := rows[|rows| - 1];
      var kept := Without(init, commit, player);
      forall x | x in kept ensures x.id < last.id {
        var i :| 0 <= i < |init| && init[i] == x;
      }
    }
  }
}
