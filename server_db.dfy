/** The log store of server/db.ts: the `logs` table (rows in `id` order) and
    the `devices` table, with the insert, paged read, listing, delete and
    device operations the server calls. */
module ServerDb {
  import opened Wrappers
  import opened LogTable
  import opened Listing

  /** The `Log` records `addLogs` inserts. A `created_at` carried by the
      record is stored as given; without one the database's default
      (`now`) is used. `updated_at` is never read and is not modelled. */
  datatype Log = Log(commit: string, player: string, message: string, createdAt: Option<int>)

  /** A row of the `devices` table, keyed by `hardware_id`. */
  datatype Device = Device(hardwareId: string, name: string)

  predicate UniqueDevices(ds: seq<Device>) {
    forall i, j :: 0 <= i < j < |ds| ==> ds[i].hardwareId != ds[j].hardwareId
  }

  /** The rows one `insert(logsList)` adds: ids continue from `firstId`. */
  function Inserted(logs: seq<Log>, firstId: nat, now: int): (rs: seq<Row>)
    ensures |rs| == |logs|
  {
    seq(|logs|, i requires 0 <= i < |logs| =>
      Row(firstId + i, logs[i].commit, logs[i].player, logs[i].message,
          if logs[i].createdAt.Some? then logs[i].createdAt.value else now))
  }

  /** The (commit, created_at) pair of every row, in table order. */
  function CommitPairs(rows: seq<Row>): (ps: seq<Stamped>)
    ensures forall x :: x in rows ==> Stamped(x.commit, x.createdAt) in ps
    ensures forall e :: e in ps ==> exists x :: x in rows && x.commit == e.name && x.createdAt == e.createdAt
  {
    var ps := seq(|rows|, i requires 0 <= i < |rows| => Stamped(rows[i].commit, rows[i].createdAt));
    assert forall i :: 0 <= i < |rows| ==> ps[i] == Stamped(rows[i].commit, rows[i].createdAt);
    ps
  }

  /** The (player, created_at) pair of every row of the commit, in table
      order. */
  function PlayerPairs(rows: seq<Row>, commit: string): (ps: seq<Stamped>)
    ensures forall x :: x in rows && x.commit == commit ==> Stamped(x.player, x.createdAt) in ps
    ensures forall e :: e in ps ==> exists x :: x in rows && x.commit == commit && x.player == e.name && x.createdAt == e.createdAt
  {
    var rs := OnCommit(rows, commit);
    var ps := seq(|rs|, i requires 0 <= i < |rs| => Stamped(rs[i].player, rs[i].createdAt));
    assert forall i :: 0 <= i < |rs| ==> ps[i] == Stamped(rs[i].player, rs[i].createdAt) && rs[i] in rows;
    ps
  }

  /** Name of the first device with the id, or `''`. */
  function NameIn(ds: seq<Device>, hardwareId: string): string {
    if |ds| == 0 then ""
    else if ds[0].hardwareId == hardwareId then ds[0].name
    else NameIn(ds[1..], hardwareId)
  }

  predicate Known(ds: seq<Device>, hardwareId: string) {
    exists d :: d in ds && d.hardwareId == hardwareId
  }

  lemma {:induction false} UnknownHasNoName(ds: seq<Device>, hardwareId: string)
    ensures !Known(ds, hardwareId) ==> NameIn(ds, hardwareId) == ""
  {
    if |ds| > 0 && !Known(ds, hardwareId) {
      assert ds[0] in ds;
      assert forall d :: d in ds[1..] ==> d in ds;
      UnknownHasNoName(ds[1..], hardwareId);
    }
  }

  /** `update({name})` on the devices whose id is `hardwareId`. */
  function Renamed(ds: seq<Device>, hardwareId: string, name: string): (r: seq<Device>)
    ensures |r| == |ds|
    ensures forall i :: 0 <= i < |ds| ==> r[i].hardwareId == ds[i].hardwareId
  {
    if |ds| == 0 then []
    else [if ds[0].hardwareId == hardwareId then Device(hardwareId, name) else ds[0]] + Renamed(ds[1..], hardwareId, name)
  }

  /** A list with a device in front is known for an id exactly when its
      first device or the rest has the id. */
  lemma KnownCons(ds: seq<Device>, hardwareId: string)
    requires |ds| > 0
    ensures Known(ds, hardwareId) <==> ds[0].hardwareId == hardwareId || Known(ds[1..], hardwareId)
  {
    assert ds == [ds[0]] + ds[1..];
  }

  lemma {:induction false} RenamedLookup(ds: seq<Device>, hardwareId: string, name: string, h: string)
    ensures NameIn(Renamed(ds, hardwareId, name), h)
              == if h == hardwareId && Known(ds, hardwareId) then name else NameIn(ds, h)
  {
    if |ds| > 0 {
      var rest := ds[1..];
      var r := Renamed(ds, hardwareId, name);
      RenamedLookup(rest, hardwareId, name, h);
      KnownCons(ds, hardwareId);
      assert r[1..] == Renamed(rest, hardwareId, name);
      if ds[0].hardwareId == hardwareId {
        assert r[0] == Device(hardwareId, name);
      } else {
        assert r[0] == ds[0];
      }
    }
  }

  lemma {:induction false} AppendedLookup(ds: seq<Device>, d: Device, h: string)
    ensures NameIn(ds + [d], h) == if Known(ds, h) then NameIn(ds, h) else if d.hardwareId == h then d.name else ""
  {
    if |ds| == 0 {
      assert ds + [d] == [d];
    } else {
      assert (ds + [d])[1..] == ds[1..] + [d];
      AppendedLookup(ds[1..], d, h);
      assert Known(ds, h) <==> ds[0].hardwareId == h || Known(ds[1..], h) by {
        assert ds == [ds[0]] + ds[1..];
      }
    }
  }

  /** `updateDevice`: an existing id is renamed in place, an unknown one is
      inserted. */
  function Upsert(ds: seq<Device>, hardwareId: string, name: string): seq<Device> {
    if Known(ds, hardwareId) then Renamed(ds, hardwareId, name) else ds + [Device(hardwareId, name)]
  }

  /** The upsert keeps ids unique, gives the id the new name, leaves every
      other id's name alone, and adds a device only for an unknown id. */
  lemma UpsertSpec(ds: seq<Device>, hardwareId: string, name: string)
    requires UniqueDevices(ds)
    ensures UniqueDevices(Upsert(ds, hardwareId, name))
    ensures NameIn(Upsert(ds, hardwareId, name), hardwareId) == name
    ensures forall h :: h != hardwareId ==> NameIn(Upsert(ds, hardwareId, name), h) == NameIn(ds, h)
    ensures |Upsert(ds, hardwareId, name)| == |ds| + (if Known(ds, hardwareId) then 0 else 1)
  {
    var r := Upsert(ds, hardwareId, name);
    forall h ensures NameIn(r, h) == if h == hardwareId then name else NameIn(ds, h) {
      if Known(ds, hardwareId) {
        RenamedLookup(ds, hardwareId, name, h);
      } else {
        AppendedLookup(ds, Device(hardwareId, name), h);
        UnknownHasNoName(ds, h);
      }
    }
    if !Known(ds, hardwareId) {
      forall i, j | 0 <= i < j < |r| ensures r[i].hardwareId != r[j].hardwareId {
        if j == |ds| { assert ds[i] in ds; }
      }
    }
  }

  class LogStore {
    var rows: seq<Row>
    var nextId: nat
    var devices: seq<Device>

    /** `id` is the auto-increment primary key of `logs`; `hardware_id` is
        the primary key of `devices`. */
    ghost predicate Valid()
      reads this
    {
      IdOrdered(rows, nextId) && UniqueDevices(devices)
    }

    /** The two tables as `prepareDatabase` creates them: empty. */
    constructor ()
      ensures Valid() && rows == [] && devices == []
    {
      rows, nextId, devices := [], 0, [];
    }

    /** `addLog`: inserts one row; the pair's thread grows by exactly that
        message and every other pair's thread is unchanged. */
    method AddLog(commit: string, player: string, message: string, now: int)
      requires Valid()
      modifies this
      ensures Valid() && devices == old(devices)
      ensures rows == old(rows) + [Row(old(nextId), commit, player, message, now)]
      ensures Thread(rows, commit, player) == old(Thread(rows, commit, player)) + [message]
      ensures forall c, p :: c != commit || p != player ==> Thread(rows, c, p) == old(Thread(rows, c, p))
    {
      var row := Row(nextId, commit, player, message, now);
      forall c, p ensures Thread(rows + [row], c, p) == Thread(rows, c, p) + Thread([row], c, p) {
        ThreadAppend(rows, [row], c, p);
      }
      rows := rows + [row];
      nextId := nextId + 1;
    }

    /** `addLogs`: one insert of the whole list, appended after the existing
        rows in list order; each pair's thread grows by that pair's messages
        of the list, in list order. */
    method AddLogs(logs: seq<Log>, now: int)
      requires Valid()
      modifies this
      ensures Valid() && devices == old(devices)
      ensures rows == old(rows) + Inserted(logs, old(nextId), now)
      ensures forall c, p :: Thread(rows, c, p) == old(Thread(rows, c, p)) + Thread(Inserted(logs, old(nextId), now), c, p)
    {
      var added := Inserted(logs, nextId, now);
      forall c, p ensures Thread(rows + added, c, p) == Thread(rows, c, p) + Thread(added, c, p) {
        ThreadAppend(rows, added, c, p);
      }
      rows := rows + added;
      nextId := nextId + |logs|;
    }

    /** `getLogMessages(commit, player, after)`: the slice of the pair's
        thread that starts at `after` and holds up to 500 messages; empty
        once `after` reaches the length of the thread. */
    function GetLogMessages(commit: string, player: string, after: nat): (r: seq<string>)
      reads this
      ensures |r| <= PageSize
      ensures var all := Thread(rows, commit, player);
        r == if after >= |all| then [] else all[after..if after + PageSize < |all| then after + PageSize else |all|]
    {
      ReadMessagesIsSlice(rows, commit, player, after);
      ReadMessages(rows, commit, player, after)
    }

    /** `getListOfCommits`: every commit of the table exactly once, with the
        earliest `created_at` among its rows, newest commit first. */
    function GetListOfCommits(): (r: seq<Stamped>)
      reads this
      ensures forall i, j :: 0 <= i < j < |r| ==> r[i].name != r[j].name
      ensures forall x :: x in rows ==> x.commit in Keys(r, Name)
      ensures forall e :: e in r ==> exists x :: x in rows && x.commit == e.name && x.createdAt == e.createdAt
      ensures forall e, x :: e in r && x in rows && x.commit == e.name ==> e.createdAt <= x.createdAt
      ensures Ordered(r, false)
    {
      CommitsDistinctAndOrdered(rows);
      CommitsCoverRows(rows);
      CommitsEarliest(rows);
      CommitListing(rows)
    }

    /** `getListOfPlayers(commit)`: every player with a row on the commit
        exactly once, with the latest `created_at` among those rows, most
        recent first. */
    function GetListOfPlayers(commit: string): (r: seq<Stamped>)
      reads this
      ensures forall i, j :: 0 <= i < j < |r| ==> r[i].name != r[j].name
      ensures forall x :: x in rows && x.commit == commit ==> x.player in Keys(r, Name)
      ensures forall e :: e in r ==> exists x :: x in rows && x.commit == commit && x.player == e.name && x.createdAt == e.createdAt
      ensures forall e, x :: e in r && x in rows && x.commit == commit && x.player == e.name ==> e.createdAt >= x.createdAt
      ensures Ordered(r, false)
    {
      PlayersDistinctAndOrdered(rows, commit);
      PlayersCoverRows(rows, commit);
      PlayersLatest(rows, commit);
      Listed(PlayerPairs(rows, commit), false)
    }

    /** `deleteLogs(commit, player)`. With a player (and a commit) exactly
        that pair's rows go and every other pair keeps its thread; with
        neither argument nothing is deleted. The branch that leaves one of
        the two `undefined` in the `where` filter is outside the model. */
    method DeleteLogs(commit: Option<string>, player: Option<string>) returns (result: Deletion)
      requires Valid()
      modifies this
      ensures Valid() && devices == old(devices) && nextId == old(nextId)
      ensures Truthy(player) && commit.Some? ==>
        && rows == Without(old(rows), commit.value, player.value)
        && result == Removed(|old(rows)| - |rows|)
        && Thread(rows, commit.value, player.value) == []
        && forall c, p :: c != commit.value || p != player.value ==> Thread(rows, c, p) == old(Thread(rows, c, p))
      ensures !Truthy(player) && !Truthy(commit) ==> result == NothingSpecified && rows == old(rows)
      ensures (Truthy(player) && commit.None?) || (!Truthy(player) && Truthy(commit)) ==> result == NotModelled
    {
      if Truthy(player) {
        if commit.Some? {
          var before := rows;
          WithoutKeepsIdOrder(rows, nextId, commit.value, player.value);
          rows := Without(rows, commit.value, player.value);
          forall c, p ensures Where(rows, c, p) == if c == commit.value && p == player.value then [] else Where(before, c, p) {
            WithoutKeepsOthers(before, commit.value, player.value, c, p);
          }
          result := Removed(|before| - |rows|);
        } else {
          result := NotModelled;
        }
      } else if Truthy(commit) {
        result := NotModelled;
      } else {
        result := NothingSpecified;
      }
    }

    /** `updateDevice`: an upsert on `hardware_id`. Afterwards the id names
        the new name, every other id keeps its name, ids stay unique, and a
        device is added only for an unknown id. */
    method UpdateDevice(hardwareId: string, name: string)
      requires Valid()
      modifies this
      ensures Valid() && rows == old(rows) && nextId == old(nextId)
      ensures devices == Upsert(old(devices), hardwareId, name)
      ensures GetDeviceName(hardwareId) == name
      ensures forall h :: h != hardwareId ==> GetDeviceName(h) == old(GetDeviceName(h))
      ensures |devices| == old(|devices|) + (if Known(old(devices), hardwareId) then 0 else 1)
    {
      UpsertSpec(devices, hardwareId, name);
      if Known(devices, hardwareId) {
        devices := Renamed(devices, hardwareId, name);
      } else {
        devices := devices + [Device(hardwareId, name)];
      }
    }

    /** `getDevices`: the table's devices, one per hardware id. */
    function GetDevices(): (r: seq<Device>)
      reads this
      requires Valid()
      ensures UniqueDevices(r) && forall d :: d in r <==> d in devices
    {
      devices
    }

    /** `getDeviceName`: the name stored for the id, or `''` for an unknown
        id. */
    function GetDeviceName(hardwareId: string): (name: string)
      reads this
      ensures !Known(devices, hardwareId) ==> name == ""
      ensures forall d :: d in devices && d.hardwareId == hardwareId && UniqueDevices(devices) ==> name == d.name
    {
      UnknownHasNoName(devices, hardwareId);
      FirstNameFound(devices, hardwareId);
      NameIn(devices, hardwareId)
    }
  }

  /** With unique ids the lookup finds the one device with the id. */
  lemma {:induction false} FirstNameFound(ds: seq<Device>, hardwareId: string)
    ensures forall d :: d in ds && d.hardwareId == hardwareId && UniqueDevices(ds) ==> NameIn(ds, hardwareId) == d.name
  {
    if |ds| > 0 {
      FirstNameFound(ds[1..], hardwareId);
      forall d | d in ds && d.hardwareId == hardwareId && UniqueDevices(ds) ensures NameIn(ds, hardwareId) == d.name {
        var i :| 0 <= i < |ds| && ds[i] == d;
        if i > 0 {
          assert ds[1..][i - 1] == d;
        }
      }
    }
  }

  /** Reversing a listing keeps its entries and its names. */
  lemma ReversedListing(u: seq<Stamped>)
    ensures forall e :: e in Reverse(u) <==> e in u
    ensures forall k :: k in Keys(u, Name) ==> k in Keys(Reverse(u), Name)
    ensures (forall i, j :: 0 <= i < j < |u| ==> u[i].name != u[j].name) ==>
            (forall i, j :: 0 <= i < j < |u| ==> Reverse(u)[i].name != Reverse(u)[j].name)
  {
    var r := Reverse(u);
    forall e | e in u ensures e in r {
      var i :| 0 <= i < |u| && u[i] == e;
      assert r[|u| - 1 - i] == e;
    }
    forall k | k in Keys(u, Name) ensures k in Keys(r, Name) {
      var i :| 0 <= i < |u| && Keys(u, Name)[i] == k;
      assert Keys(r, Name)[|u| - 1 - i] == k;
    }
  }

  /** `uniqBy` on the oldest-first pairs, then `reverse`. */
  function CommitListing(rows: seq<Row>): seq<Stamped> {
    Reverse(Listed(CommitPairs(rows), true))
  }

  lemma CommitsDistinctAndOrdered(rows: seq<Row>)
    ensures var r := CommitListing(rows);
      && (forall i, j :: 0 <= i < j < |r| ==> r[i].name != r[j].name)
      && Ordered(r, false)
  {
    var u := Listed(CommitPairs(rows), true);
    ListedNamesDistinct(CommitPairs(rows), true);
    ListedOrdered(CommitPairs(rows), true);
    ReverseFlipsOrder(u, true);
    ReversedListing(u);
  }

  lemma CommitsCoverRows(rows: seq<Row>)
    ensures forall x :: x in rows ==> x.commit in Keys(CommitListing(rows), Name)
  {
    var pairs := CommitPairs(rows);
    var u := Listed(pairs, true);
    ListedCovers(pairs, true);
    ReversedListing(u);
    forall x | x in rows ensures x.commit in Keys(CommitListing(rows), Name) {
      assert Stamped(x.commit, x.createdAt) in pairs;
    }
  }

  lemma CommitsEarliest(rows: seq<Row>)
    ensures forall e :: e in CommitListing(rows) ==> exists x :: x in rows && x.commit == e.name && x.createdAt == e.createdAt
    ensures forall e, x :: e in CommitListing(rows) && x in rows && x.commit == e.name ==> e.createdAt <= x.createdAt
  {
    var pairs := CommitPairs(rows);
    var u := Listed(pairs, true);
    ListedFromPairs(pairs, true);
    ListedExtreme(pairs, true);
    ReversedListing(u);
    forall e, x | e in CommitListing(rows) && x in rows && x.commit == e.name ensures e.createdAt <= x.createdAt {
      assert InOrder(e, Stamped(x.commit, x.createdAt), true);
    }
  }

  lemma PlayersDistinctAndOrdered(rows: seq<Row>, commit: string)
    ensures var r := Listed(PlayerPairs(rows, commit), false);
      && (forall i, j :: 0 <= i < j < |r| ==> r[i].name != r[j].name)
      && Ordered(r, false)
  {
    ListedNamesDistinct(PlayerPairs(rows, commit), false);
    ListedOrdered(PlayerPairs(rows, commit), false);
  }

  lemma PlayersCoverRows(rows: seq<Row>, commit: string)
    ensures forall x :: x in rows && x.commit == commit ==> x.player in Keys(Listed(PlayerPairs(rows, commit), false), Name)
  {
    var pairs := PlayerPairs(rows, commit);
    ListedCovers(pairs, false);
    forall x | x in rows && x.commit == commit ensures x.player in Keys(Listed(pairs, false), Name) {
      assert Stamped(x.player, x.createdAt) in pairs;
    }
  }

  lemma PlayersLatest(rows: seq<Row>, commit: string)
    ensures forall e :: e in Listed(PlayerPairs(rows, commit), false) ==>
      exists x :: x in rows && x.commit == commit && x.player == e.name && x.createdAt == e.createdAt
    ensures forall e, x ::
              e in Listed(PlayerPairs(rows, commit), false) && x in rows && x.commit == commit && x.player == e.name
              ==> e.createdAt >= x.createdAt
  {
    var pairs := PlayerPairs(rows, commit);
    ListedFromPairs(pairs, false);
    ListedExtreme(pairs, false);
    forall e, x | e in Listed(pairs, false) && x in rows && x.commit == commit && x.player == e.name
      ensures e.createdAt >= x.createdAt
    {
      assert InOrder(e, Stamped(x.player, x.createdAt), false);
    }
  }
}
