/** The log store of server/source/db.ts: one `logs` table (rows in `id`
    order) with insert, paged read, the `uniq`-based listings and delete. */
module SourceDb {
  import opened Wrappers
  import opened LogTable
  import opened Listing

  /** The `Log` records `addLogs` inserts; `created_at` takes the
      database's default, `now`. */
  datatype Log = Log(commit: string, player: string, message: string)

  function Inserted(logs: seq<Log>, firstId: nat, now: int): (rs: seq<Row>)
    ensures |rs| == |logs|
  {
    seq(|logs|, i requires 0 <= i < |logs| => Row(firstId + i, logs[i].commit, logs[i].player, logs[i].message, now))
  }

  /** `allCommitsAll.map(obj => obj.commit)`. */
  function Commits(rows: seq<Row>): (cs: seq<string>)
    ensures |cs| == |rows| && forall i :: 0 <= i < |rows| ==> cs[i] == rows[i].commit
  {
    seq(|rows|, i requires 0 <= i < |rows| => rows[i].commit)
  }

  /** `allPlayersAll.map(obj => obj.player)` over `where({commit})`. */
  function Players(rows: seq<Row>, commit: string): (ps: seq<string>)
    ensures forall p :: p in ps <==> exists x :: x in rows && x.commit == commit && x.player == p
  {
    var rs := OnCommit(rows, commit);
    var ps := seq(|rs|, i requires 0 <= i < |rs| => rs[i].player);
    assert forall i :: 0 <= i < |rs| ==> ps[i] == rs[i].player && rs[i] in rs;
    assert forall x :: x in rs ==> x.player in ps by {
      forall x | x in rs ensures x.player in ps {
        var i :| 0 <= i < |rs| && rs[i] == x;
        assert ps[i] == x.player;
      }
    }
    ps
  }

  class LogStore {
    var rows: seq<Row>
    var nextId: nat

    ghost predicate Valid()
      reads this
    {
      IdOrdered(rows, nextId)
    }

    /** The table as `prepareDatabase` creates it: empty. */
    constructor ()
      ensures Valid() && rows == []
    {
      rows, nextId := [], 0;
    }

    /** `addLog`: one row appended; only that pair's thread changes, by
        exactly the new message. */
    method AddLog(commit: string, player: string, message: string, now: int)
      requires Valid()
      modifies this
      ensures Valid()
      ensures rows == old(rows) + [Row(old(nextId), commit, player, message, now)]
      ensures Thread(rows, commit, player) == old(Thread(rows, commit, player)) + [message]
      ensures forall c, p :: c != commit || p != player ==> Thread(rows, c, p) == old(Thread(rows, c, p))
    {
      var row := Row(nextId, commit, player, message, now);
      forall c, p ensures Thread(rows + [row], c, p) == Thread(rows, c, p) + Thread([row], c, p) {
        ThreadAppend(rows, [row], c, p);
      }
      rows := rows + [row];
      nextId := nextId + 1;
    }

    /** `addLogs`: the whole list appended after the existing rows, in list
        order; each pair's thread grows by that pair's messages of the list,
        in list order. */
    method AddLogs(logs: seq<Log>, now: int)
      requires Valid()
      modifies this
      ensures Valid()
      ensures rows == old(rows) + Inserted(logs, old(nextId), now)
      ensures forall c, p :: Thread(rows, c, p) == old(Thread(rows, c, p)) + Thread(Inserted(logs, old(nextId), now), c, p)
    {
      var added := Inserted(logs, nextId, now);
      forall c, p ensures Thread(rows + added, c, p) == Thread(rows, c, p) + Thread(added, c, p) {
        ThreadAppend(rows, added, c, p);
      }
      rows := rows + added;
      nextId := nextId + |logs|;
    }

    /** `getLogMessages(commit, player, after)`: at most 500 messages, the
        slice of the pair's thread starting at `after`, empty once `after`
        reaches its length. */
    function GetLogMessages(commit: string, player: string, after: nat): (r: seq<string>)
      reads this
      ensures |r| <= PageSize
      ensures var all := Thread(rows, commit, player);
        r == if after >= |all| then [] else all[after..if after + PageSize < |all| then after + PageSize else |all|]
    {
      ReadMessagesIsSlice(rows, commit, player, after);
      ReadMessages(rows, commit, player, after)
    }

    /** `getListOfCommits`: every commit of the table exactly once, in the
        order of each commit's first row. */
    function GetListOfCommits(): (r: seq<string>)
      reads this
      ensures forall i, j :: 0 <= i < j < |r| ==> r[i] != r[j]
      ensures forall c :: c in r <==> exists x :: x in rows && x.commit == c
      ensures forall i, j :: 0 <= i < j < |r| ==> Position(Commits(rows), r[i]) < Position(Commits(rows), r[j])
    {
      UniqSpec(Commits(rows));
      assert forall c :: c in Commits(rows) <==> exists x :: x in rows && x.commit == c by {
        forall c | c in Commits(rows) ensures exists x :: x in rows && x.commit == c {
          var i :| 0 <= i < |rows| && Commits(rows)[i] == c;
          assert rows[i] in rows;
        }
        forall x | x in rows ensures x.commit in Commits(rows) {
          var i :| 0 <= i < |rows| && rows[i] == x;
          assert Commits(rows)[i] == x.commit;
        }
      }
      Uniq(Commits(rows))
    }

    /** `getListOfPlayers(commit)`: every player with a row on the commit
        exactly once, in the order of each player's first row there. */
    function GetListOfPlayers(commit: string): (r: seq<string>)
      reads this
      ensures forall i, j :: 0 <= i < j < |r| ==> r[i] != r[j]
      ensures forall p :: p in r <==> exists x :: x in rows && x.commit == commit && x.player == p
      ensures forall i, j :: 0 <= i < j < |r| ==> Position(Players(rows, commit), r[i]) < Position(Players(rows, commit), r[j])
    {
      UniqSpec(Players(rows, commit));
      Uniq(Players(rows, commit))
    }

    /** `deleteLogs(commit, player)`. With a player (and a commit) exactly
        that pair's rows go and every other pair keeps its thread; with
        neither argument the table is unchanged. The branch that leaves one
        of the two `undefined` in the `where` filter is outside the model. */
    method DeleteLogs(commit: Option<string>, player: Option<string>) returns (result: Deletion)
      requires Valid()
      modifies this
      ensures Valid() && nextId == old(nextId)
      ensures Truthy(player) && commit.Some? ==>
        && rows == Without(old(rows), commit.value, player.value)
        && result == Removed(|old(rows)| - |rows|)
        && Thread(rows, commit.value, player.value) == []
        && forall c, p :: c != commit.value || p != player.value ==> Thread(rows, c, p) == old(Thread(rows, c, p))
      ensures !Truthy(player) && !Truthy(commit) ==> result == NothingSpecified && rows == old(rows)
      ensures (Truthy(player) && commit.None?) || (!Truthy(player) && Truthy(commit)) ==> result == NotModelled
    {
      if Truthy(player) {
        if commit.Some? {
          var before := rows;
          WithoutKeepsIdOrder(rows, nextId, commit.value, player.value);
          rows := Without(rows, commit.value, player.value);
          forall c, p ensures Where(rows, c, p) == if c == commit.value && p == player.value then [] else Where(before, c, p) {
            WithoutKeepsOthers(before, commit.value, player.value, c, p);
          }
          result := Removed(|before| - |rows|);
        } else {
          result := NotModelled;
        }
      } else if Truthy(commit) {
        result := NotModelled;
      } else {
        result := NothingSpecified;
      }
    }
  }
}
