/** server/scripts/moveJsonIntoDatabase.ts: the nested JSON log dump
    `{commit: {player: [message]}}` becomes one row per message, and each
    player's rows are inserted in chunks of 50. The JSON object is modelled
    as its entries in iteration order; the file read, the transaction and
    the inserts themselves are not modelled. */
module Migration {
  import opened Wrappers
  import ServerDb

  const ChunkSize: nat := 50

  datatype PlayerEntry = PlayerEntry(player: string, messages: seq<string>)
  datatype CommitEntry = CommitEntry(commit: string, players: seq<PlayerEntry>)

  /** `myLogs.map(message => ({commit, player, message}))`. */
  function LogObjs(commit: string, player: string, messages: seq<string>): (logs: seq<ServerDb.Log>)
    ensures |logs| == |messages|
    ensures forall i :: 0 <= i < |messages| ==> logs[i] == ServerDb.Log(commit, player, messages[i], None)
  {
    seq(|messages|, i requires 0 <= i < |messages| => ServerDb.Log(commit, player, messages[i], None))
  }

  /** lodash `_.chunk(s, n)`: consecutive pieces of `n`, the last one
      possibly shorter. */
  function Chunk<T>(s: seq<T>, n: nat): seq<seq<T>>
    requires n > 0
    decreases |s|
  {
    if |s| == 0 then []
    else if |s| <= n then [s]
    else [s[..n]] + Chunk(s[n..], n)
  }

  function Flatten<T>(ss: seq<seq<T>>): seq<T> {
    if |ss| == 0 then [] else ss[0] + Flatten(ss[1..])
  }

  lemma {:induction false} FlattenAppend<T>(a: seq<seq<T>>, b: seq<seq<T>>)
    ensures Flatten(a + b) == Flatten(a) + Flatten(b)
  {
    if |a| == 0 {
      assert a + b == b;
    } else {
      assert (a + b)[1..] == a[1..] + b;
      FlattenAppend(a[1..], b);
    }
  }

  /** Every chunk holds between 1 and `n` elements, all but the last exactly
      `n`. */
  lemma {:induction false} ChunkSizes<T>(s: seq<T>, n: nat)
    requires n > 0
    ensures forall k :: 0 <= k < |Chunk(s, n)| ==> 1 <= |Chunk(s, n)[k]| <= n
    ensures forall k :: 0 <= k < |Chunk(s, n)| - 1 ==> |Chunk(s, n)[k]| == n
    decreases |s|
  {
    if |s| > n {
      ChunkSizes(s[n..], n);
      assert Chunk(s, n) == [s[..n]] + Chunk(s[n..], n);
    }
  }

  /** There are ceil(|s| / 50) chunks of 50, none for an empty input. */
  lemma {:induction false} ChunkCount<T>(s: seq<T>)
    ensures |Chunk(s, ChunkSize)| == (|s| + ChunkSize - 1) / ChunkSize
    ensures |s| == 0 <==> Chunk(s, ChunkSize) == []
    decreases |s|
  {
    if |s| > ChunkSize {
      ChunkCount(s[ChunkSize..]);
    }
  }

  /** Joined again, the chunks give back `s`, in order. */
  lemma {:induction false} ChunkFlatten<T>(s: seq<T>, n: nat)
    requires n > 0
    ensures Flatten(Chunk(s, n)) == s
    decreases |s|
  {
    if |s| > n {
      var rest := Chunk(s[n..], n);
      ChunkFlatten(s[n..], n);
      assert Chunk(s, n) == [s[..n]] + rest;
      assert Flatten([s[..n]] + rest) == s[..n] + Flatten(rest);
      assert s[..n] + s[n..] == s;
    } else if |s| > 0 {
      assert Flatten([s]) == s + Flatten([]);
    }
  }

  /** The chunks inserted for one player. */
  function PlayerChunks(commit: string, entry: PlayerEntry): seq<seq<ServerDb.Log>> {
    Chunk(LogObjs(commit, entry.player, entry.messages), ChunkSize)
  }

  /** A player's chunks hold 1 to 50 rows each, all but the last exactly 50,
      ceil(n / 50) of them; a player with no messages gets none; joined,
      they are one row per message in message order. */
  lemma PlayerChunksSpec(commit: string, entry: PlayerEntry)
    ensures var cs := PlayerChunks(commit, entry);
            (forall k :: 0 <= k < |cs| ==> 1 <= |cs[k]| <= 50)
            && (forall k :: 0 <= k < |cs| - 1 ==> |cs[k]| == 50)
            && |cs| == (|entry.messages| + 49) / 50
            && (|entry.messages| == 0 <==> cs == [])
            && Flatten(cs) == LogObjs(commit, entry.player, entry.messages)
  {
    var logs := LogObjs(commit, entry.player, entry.messages);
    ChunkSizes(logs, ChunkSize);
    ChunkCount(logs);
    ChunkFlatten(logs, ChunkSize);
  }

  /** All chunks of one commit, player by player. */
  function CommitChunks(commit: string, players: seq<PlayerEntry>): seq<seq<ServerDb.Log>> {
    if |players| == 0 then [] else PlayerChunks(commit, players[0]) + CommitChunks(commit, players[1..])
  }

  /** All chunks of the dump, commit by commit. The script starts the
      inserts together inside one transaction; this is one order they may
      land in. */
  function AllChunks(data: seq<CommitEntry>): seq<seq<ServerDb.Log>> {
    if |data| == 0 then [] else CommitChunks(data[0].commit, data[0].players) + AllChunks(data[1..])
  }

  /** The rows the dump holds, commit by commit and player by player. */
  function Rows(data: seq<CommitEntry>): seq<ServerDb.Log> {
    if |data| == 0 then [] else CommitRows(data[0].commit, data[0].players) + Rows(data[1..])
  }

  function CommitRows(commit: string, players: seq<PlayerEntry>): seq<ServerDb.Log> {
    if |players| == 0 then []
    else LogObjs(commit, players[0].player, players[0].messages) + CommitRows(commit, players[1..])
  }

  function MessageCount(data: seq<CommitEntry>): nat {
    if |data| == 0 then 0 else PlayerMessageCount(data[0].players) + MessageCount(data[1..])
  }

  function PlayerMessageCount(players: seq<PlayerEntry>): nat {
    if |players| == 0 then 0 else |players[0].messages| + PlayerMessageCount(players[1..])
  }

  lemma {:induction false} CommitChunksRows(commit: string, players: seq<PlayerEntry>)
    ensures Flatten(CommitChunks(commit, players)) == CommitRows(commit, players)
    ensures |CommitRows(commit, players)| == PlayerMessageCount(players)
  {
    if |players| > 0 {
      CommitChunksRows(commit, players[1..]);
      FlattenAppend(PlayerChunks(commit, players[0]), CommitChunks(commit, players[1..]));
      PlayerChunksSpec(commit, players[0]);
    }
  }

  /** Every message of the dump is inserted as exactly one row for its
      commit and player, and no other row is: joined, the chunks are the
      rows of the dump in order, as many as there are messages. */
  lemma {:induction false} AllChunksRows(data: seq<CommitEntry>)
    ensures Flatten(AllChunks(data)) == Rows(data)
    ensures |Flatten(AllChunks(data))| == MessageCount(data)
  {
    if |data| > 0 {
      AllChunksRows(data[1..]);
      FlattenAppend(CommitChunks(data[0].commit, data[0].players), AllChunks(data[1..]));
      CommitChunksRows(data[0].commit, data[0].players);
    }
  }
}
