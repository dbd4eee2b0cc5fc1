/** A viewer's session on one player's log page, put together from the
    store (server/db.ts), the page and tail handlers (server/server.ts) and
    the page script's poll (server/public/index.js). The page shows the
    messages of one commit and player; each poll asks for the messages after
    the number of children `<main>` holds and appends what comes back.

    The browser's HTML parser is a parameter; the one assumption made about
    it (`ParsesFragments`) is that a run of `<pre>` fragments of escaped
    messages, as `html` builds them, becomes one child per fragment whose
    text is its message. `ParserExists` shows a parser that does this. */
module Session {
  import opened Wrappers
  import opened LogTable
  import Routes
  import Client
  import ServerDb

  ghost predicate ParsesFragments(parse: string -> seq<string>) {
    forall msgs: seq<string> {:trigger Routes.Html(msgs, Routes.LogFragment)} ::
      |msgs| > 0 && Routes.Escaped(msgs) ==> parse(Routes.Html(msgs, Routes.LogFragment)) == msgs
  }

  /** Reads an html text back as the escaped messages it was built from,
      when there are such messages. */
  ghost function Unhtml(html: string): seq<string> {
    if exists msgs :: Routes.Escaped(msgs) && Routes.Html(msgs, Routes.LogFragment) == html then
      var msgs :| Routes.Escaped(msgs) && Routes.Html(msgs, Routes.LogFragment) == html; msgs
    else []
  }

  /** The assumption can be met: `html` loses nothing on escaped messages. */
  lemma ParserExists()
    ensures ParsesFragments(Unhtml)
  {
    forall msgs: seq<string> | |msgs| > 0 && Routes.Escaped(msgs)
      ensures Unhtml(Routes.Html(msgs, Routes.LogFragment)) == msgs
    {
      var html := Routes.Html(msgs, Routes.LogFragment);
      var found := Unhtml(html);
      assert Routes.Escaped(found) && Routes.Html(found, Routes.LogFragment) == html;
      Routes.HtmlInjective(found, msgs);
    }
  }

  /** The escaped part of a thread is kept by slicing. */
  lemma EscapedSlice(msgs: seq<string>, lo: nat, hi: nat)
    requires Routes.Escaped(msgs) && lo <= hi <= |msgs|
    ensures Routes.Escaped(msgs[lo..hi])
  {
    assert forall i :: 0 <= i < hi - lo ==> msgs[lo..hi][i] == msgs[lo + i];
  }

  /** The children's texts are the first messages of the pair's thread, in
      order: none repeated, none skipped. */
  predicate Synced(texts: seq<string>, thread: seq<string>) {
    |texts| <= |thread| && texts == thread[..|texts|]
  }

  /** The texts after one active poll: the reply to `after = |texts|` is
      appended as the script appends it. */
  function Poll(rows: seq<Row>, commit: string, player: string, texts: seq<string>,
                parse: string -> seq<string>): seq<string> {
    texts + Client.Received(Some(Routes.NewLogsReply(rows, commit, player, Some(|texts|))), parse)
  }

  function Min(a: int, b: int): int {
    if a < b then a else b
  }

  /** What an active poll appends is the page the store returns for
      `after`: one child per message, in store order. */
  lemma PollReceivesPage(rows: seq<Row>, commit: string, player: string, after: nat,
                         parse: string -> seq<string>)
    requires ParsesFragments(parse)
    requires Routes.Escaped(Thread(rows, commit, player))
    ensures Client.Received(Some(Routes.NewLogsReply(rows, commit, player, Some(after))), parse)
            == ReadMessages(rows, commit, player, after)
  {
    var page := ReadMessages(rows, commit, player, after);
    var all := Thread(rows, commit, player);
    Routes.TailReplyShape(page);
    ReadMessagesIsSlice(rows, commit, player, after);
    if |page| > 0 {
      EscapedSlice(all, after, after + |page|);
      assert parse(Routes.Html(page, Routes.LogFragment)) == page;
    }
  }

  /** An active poll keeps the page in step with the thread, and brings in
      the next page of up to 500 messages. */
  lemma PollKeepsSync(rows: seq<Row>, commit: string, player: string, texts: seq<string>,
                      parse: string -> seq<string>)
    requires ParsesFragments(parse)
    requires Routes.Escaped(Thread(rows, commit, player))
    requires Synced(texts, Thread(rows, commit, player))
    ensures var all := Thread(rows, commit, player);
            var next := Poll(rows, commit, player, texts, parse);
            Synced(next, all) && |next| == Min(|texts| + PageSize, |all|)
  {
    var all := Thread(rows, commit, player);
    var k := |texts|;
    var page := ReadMessages(rows, commit, player, k);
    ReadMessagesIsSlice(rows, commit, player, k);
    PollReceivesPage(rows, commit, player, k, parse);
    assert Poll(rows, commit, player, texts, parse) == texts + page;
    if k < |all| {
      var e := Min(k + PageSize, |all|);
      assert all[..e] == all[..k] + all[k..e];
    }
  }

  /** New rows only ever extend a thread, so a page in step stays so. */
  lemma SyncedExtends(texts: seq<string>, thread: seq<string>, more: seq<string>)
    requires Synced(texts, thread)
    ensures Synced(texts, thread + more)
  {
    assert (thread + more)[..|texts|] == thread[..|texts|];
  }

  /** What happens between two states of the session: a game posts a log,
      or the page polls (while the page is not paused). */
  datatype Event = Added(commit: string, player: string, message: string, now: int) | Polled

  datatype State = State(rows: seq<Row>, nextId: nat, texts: seq<string>)

  /** Every log the events add is stored escaped, as `makeSafe` leaves it
      (`Routes.MakeSafeEscapes`). */
  predicate EscapedEvents(events: seq<Event>) {
    forall i :: 0 <= i < |events| && events[i].Added? ==> '<' !in events[i].message
  }

  /** One event on the session of the page of `commit` and `player`. */
  function Step(s: State, e: Event, commit: string, player: string, parse: string -> seq<string>): State {
    match e
    case Added(c, p, m, now) => State(s.rows + [Row(s.nextId, c, p, m, now)], s.nextId + 1, s.texts)
    case Polled => State(s.rows, s.nextId, Poll(s.rows, commit, player, s.texts, parse))
  }

  function Run(s: State, events: seq<Event>, commit: string, player: string, parse: string -> seq<string>): State
    decreases |events|
  {
    if |events| == 0 then s else Run(Step(s, events[0], commit, player, parse), events[1..], commit, player, parse)
  }

  /** A one-row table's thread: the row's message if it is of the pair. */
  lemma RowThread(row: Row, commit: string, player: string)
    ensures Thread([row], commit, player) == if row.commit == commit && row.player == player then [row.message] else []
  {
    assert Where([row], commit, player) == if row.commit == commit && row.player == player then [row] else [];
  }

  lemma EscapedAppend(a: seq<string>, b: seq<string>)
    requires Routes.Escaped(a) && Routes.Escaped(b)
    ensures Routes.Escaped(a + b)
  {
    assert forall i :: 0 <= i < |a + b| ==> (a + b)[i] == if i < |a| then a[i] else b[i - |a|];
  }

  /** A row stored escaped keeps every thread escaped. */
  lemma AddKeepsEscaped(rows: seq<Row>, row: Row, commit: string, player: string)
    requires Routes.Escaped(Thread(rows, commit, player)) && '<' !in row.message
    ensures Thread(rows + [row], commit, player) == Thread(rows, commit, player) + Thread([row], commit, player)
    ensures Routes.Escaped(Thread(rows + [row], commit, player))
  {
    ThreadAppend(rows, [row], commit, player);
    RowThread(row, commit, player);
    EscapedAppend(Thread(rows, commit, player), Thread([row], commit, player));
  }

  lemma StepKeepsSync(s: State, e: Event, commit: string, player: string, parse: string -> seq<string>)
    requires ParsesFragments(parse)
    requires EscapedEvents([e])
    requires Routes.Escaped(Thread(s.rows, commit, player))
    requires Synced(s.texts, Thread(s.rows, commit, player))
    ensures var t := Step(s, e, commit, player, parse);
            Routes.Escaped(Thread(t.rows, commit, player)) && Synced(t.texts, Thread(t.rows, commit, player))
  {
    match e
    case Added(c, p, m, now) =>
      assert [e][0] == e;
      AddKeepsEscaped(s.rows, Row(s.nextId, c, p, m, now), commit, player);
      SyncedExtends(s.texts, Thread(s.rows, commit, player), Thread([Row(s.nextId, c, p, m, now)], commit, player));
    case Polled =>
      PollKeepsSync(s.rows, commit, player, s.texts, parse);
  }

  /** Whatever rows are added and however the polls fall between them, a
      page that starts in step stays in step: it never shows a message twice
      and never skips one. */
  lemma {:induction false} RunKeepsSync(s: State, events: seq<Event>, commit: string, player: string,
                                        parse: string -> seq<string>)
    requires ParsesFragments(parse)
    requires EscapedEvents(events)
    requires Routes.Escaped(Thread(s.rows, commit, player))
    requires Synced(s.texts, Thread(s.rows, commit, player))
    ensures var t := Run(s, events, commit, player, parse);
            Routes.Escaped(Thread(t.rows, commit, player)) && Synced(t.texts, Thread(t.rows, commit, player))
    decreases |events|
  {
    if |events| > 0 {
      var s' := Step(s, events[0], commit, player, parse);
      assert Run(s, events, commit, player, parse) == Run(s', events[1..], commit, player, parse);
      assert [events[0]][0] == events[0];
      assert forall i :: 0 <= i < |events| - 1 ==> events[1..][i] == events[i + 1];
      StepKeepsSync(s, events[0], commit, player, parse);
      RunKeepsSync(s', events[1..], commit, player, parse);
    }
  }

  // ---------------------------------------------------------------------
  // The page as first loaded

  /** As written: `<main>` holds the page handler's fragments, so an empty
      thread leaves the placeholder as a child, counted by the poll. */
  function LoadedAsWritten(rows: seq<Row>, commit: string, player: string, parse: string -> seq<string>): seq<string> {
    parse(Routes.PlayerPage(commit, player, ReadMessages(rows, commit, player, 0)).content)
  }

  /** The loaded page is in step exactly when the thread was not empty:
      with no message yet, the placeholder takes the place of the first
      message. */
  lemma LoadedAsWrittenSynced(rows: seq<Row>, commit: string, player: string, parse: string -> seq<string>)
    requires ParsesFragments(parse)
    requires Routes.Escaped(Thread(rows, commit, player)) && '<' !in player
    ensures LoadedAsWritten(rows, commit, player, parse)
            == Routes.PageLogs(player, ReadMessages(rows, commit, player, 0))
    ensures Synced(LoadedAsWritten(rows, commit, player, parse), Thread(rows, commit, player))
            <==> |Thread(rows, commit, player)| > 0
  {
    var all := Thread(rows, commit, player);
    ReadMessagesIsSlice(rows, commit, player, 0);
    var logs := ReadMessages(rows, commit, player, 0);
    if |all| > 0 {
      assert logs == all[..Min(PageSize, |all|)];
      EscapedSlice(all, 0, Min(PageSize, |all|));
    } else {
      PlaceholderEscaped(player);
    }
    assert parse(Routes.Html(Routes.PageLogs(player, logs), Routes.LogFragment)) == Routes.PageLogs(player, logs);
  }

  lemma PlaceholderEscaped(player: string)
    requires '<' !in player
    ensures Routes.Escaped([Routes.Placeholder(player)])
  {
    var text := Routes.Placeholder(player);
    assert forall k :: 0 <= k < |text| ==> text[k] != '<' by {
      assert text == "No logs for player " + player + " yet";
    }
  }

  /** Running two lists of events one after the other. */
  lemma {:induction false} RunAppend(s: State, a: seq<Event>, b: seq<Event>, commit: string, player: string,
                                     parse: string -> seq<string>)
    ensures Run(s, a + b, commit, player, parse) == Run(Run(s, a, commit, player, parse), b, commit, player, parse)
    decreases |a|
  {
    if |a| == 0 {
      assert a + b == b;
    } else {
      assert (a + b)[0] == a[0] && (a + b)[1..] == a[1..] + b;
      RunAppend(Step(s, a[0], commit, player, parse), a[1..], b, commit, player, parse);
    }
  }

  /** A log of the page's own pair followed by a poll: the row is stored
      and the poll appends the page after the children already shown. */
  lemma PostThenPoll(s: State, commit: string, player: string, m: string, now: int,
                     parse: string -> seq<string>)
    requires ParsesFragments(parse)
    requires Routes.Escaped(Thread(s.rows, commit, player)) && '<' !in m
    ensures var rows := s.rows + [Row(s.nextId, commit, player, m, now)];
            Run(s, [Added(commit, player, m, now), Polled], commit, player, parse)
            == State(rows, s.nextId + 1, s.texts + ReadMessages(rows, commit, player, |s.texts|))
  {
    var rows := s.rows + [Row(s.nextId, commit, player, m, now)];
    var s1 := Step(s, Added(commit, player, m, now), commit, player, parse);
    assert [Added(commit, player, m, now), Polled][1..] == [Polled];
    assert Run(s1, [Polled], commit, player, parse) == Step(s1, Polled, commit, player, parse);
    AddKeepsEscaped(s.rows, Row(s.nextId, commit, player, m, now), commit, player);
    PollReceivesPage(rows, commit, player, |s.texts|, parse);
  }

  /** A row of the page's own pair adds its message to the thread. */
  lemma PostExtendsThread(rows: seq<Row>, id: nat, commit: string, player: string, m: string, now: int)
    ensures Thread(rows + [Row(id, commit, player, m, now)], commit, player) == Thread(rows, commit, player) + [m]
  {
    ThreadAppend(rows, [Row(id, commit, player, m, now)], commit, player);
    assert Where([Row(id, commit, player, m, now)], commit, player) == [Row(id, commit, player, m, now)];
  }

  /** The events that show the skipped message: two logs of one player,
      each followed by a poll. */
  function TwoPosts(commit: string, player: string, m1: string, m2: string): seq<Event> {
    [Added(commit, player, m1, 0), Polled] + [Added(commit, player, m2, 1), Polled]
  }

  /** The first log and its poll: the poll asks for `after = 1`, past the
      one message stored, and gets the sentinel. */
  lemma FirstPostHidden(commit: string, player: string, m1: string, parse: string -> seq<string>)
    requires ParsesFragments(parse)
    requires '<' !in m1 && '<' !in player
    ensures var r1 := [Row(0, commit, player, m1, 0)];
            Run(State([], 0, LoadedAsWritten([], commit, player, parse)), [Added(commit, player, m1, 0), Polled],
                commit, player, parse)
            == State(r1, 1, [Routes.Placeholder(player)])
            && Thread(r1, commit, player) == [m1]
  {
    var s0 := State([], 0, LoadedAsWritten([], commit, player, parse));
    var r1 := [Row(0, commit, player, m1, 0)];
    assert s0.texts == [Routes.Placeholder(player)] by {
      LoadedAsWrittenSynced([], commit, player, parse);
      ReadMessagesIsSlice([], commit, player, 0);
    }
    assert Thread(r1, commit, player) == [m1] by {
      PostExtendsThread([], 0, commit, player, m1, 0);
      assert [] + r1 == r1;
    }
    assert ReadMessages(r1, commit, player, 1) == [] by {
      ReadMessagesIsSlice(r1, commit, player, 1);
    }
    PostThenPoll(s0, commit, player, m1, 0, parse);
    assert s0.rows + [Row(0, commit, player, m1, 0)] == r1;
  }

  /** The table after both logs holds the pair's two messages, in order. */
  lemma TwoPostsThread(commit: string, player: string, m1: string, m2: string)
    ensures var r1 := [Row(0, commit, player, m1, 0)];
            var r3 := r1 + [Row(1, commit, player, m2, 1)];
            Thread(r3, commit, player) == [m1, m2]
            && ReadMessages(r3, commit, player, 1) == [m2]
  {
    var r1 := [Row(0, commit, player, m1, 0)];
    var r3 := r1 + [Row(1, commit, player, m2, 1)];
    PostExtendsThread([], 0, commit, player, m1, 0);
    assert [] + r1 == r1;
    PostExtendsThread(r1, 1, commit, player, m2, 1);
    ReadMessagesIsSlice(r3, commit, player, 1);
    assert [m1, m2][1..2] == [m2];
  }

  /** The second log and its poll: with one child shown, the poll again
      asks for `after = 1` and gets only the second message. */
  lemma SecondPostShown(commit: string, player: string, m1: string, m2: string, shown: string,
                        parse: string -> seq<string>)
    requires ParsesFragments(parse)
    requires '<' !in m1 && '<' !in m2
    ensures var r1 := [Row(0, commit, player, m1, 0)];
            var r3 := r1 + [Row(1, commit, player, m2, 1)];
            Run(State(r1, 1, [shown]), [Added(commit, player, m2, 1), Polled], commit, player, parse)
            == State(r3, 2, [shown, m2])
  {
    var r1 := [Row(0, commit, player, m1, 0)];
    TwoPostsThread(commit, player, m1, m2);
    PostExtendsThread([], 0, commit, player, m1, 0);
    assert [] + r1 == r1;
    PostThenPoll(State(r1, 1, [shown]), commit, player, m2, 1, parse);
    assert [shown] + [m2] == [shown, m2];
  }

  /** The state the two posts and polls leave: the placeholder, then the
      second message only. */
  lemma PlaceholderTrace(commit: string, player: string, m1: string, m2: string,
                         parse: string -> seq<string>)
    requires ParsesFragments(parse)
    requires '<' !in m1 && '<' !in m2 && '<' !in player
    ensures var s := Run(State([], 0, LoadedAsWritten([], commit, player, parse)),
                         TwoPosts(commit, player, m1, m2), commit, player, parse);
            s.texts == [Routes.Placeholder(player), m2] && Thread(s.rows, commit, player) == [m1, m2]
  {
    var s0 := State([], 0, LoadedAsWritten([], commit, player, parse));
    var first, second := [Added(commit, player, m1, 0), Polled], [Added(commit, player, m2, 1), Polled];
    RunAppend(s0, first, second, commit, player, parse);
    FirstPostHidden(commit, player, m1, parse);
    SecondPostShown(commit, player, m1, m2, Routes.Placeholder(player), parse);
    TwoPostsThread(commit, player, m1, m2);
  }

  /** A page whose first child is not the thread's first message is out of
      step, and the first message is missing from a two-child page that
      does not hold it. */
  lemma OutOfStep(texts: seq<string>, thread: seq<string>, shown: string, m1: string, m2: string)
    requires texts == [shown, m2] && thread == [m1, m2]
    ensures m1 != shown ==> !Synced(texts, thread)
    ensures m1 != shown && m1 != m2 ==> m1 !in texts
  {
    if m1 != shown {
      assert texts[0] != thread[..|texts|][0];
    }
  }

  /** The skipped message: a page loaded before its player's first log,
      polled after each of two logs, falls out of step with the thread and
      never shows the first one. */
  lemma PlaceholderSkipsFirstMessage(commit: string, player: string, m1: string, m2: string,
                                     parse: string -> seq<string>)
    requires ParsesFragments(parse)
    requires '<' !in m1 && '<' !in m2 && '<' !in player
    ensures var s := Run(State([], 0, LoadedAsWritten([], commit, player, parse)),
                         TwoPosts(commit, player, m1, m2), commit, player, parse);
            Thread(s.rows, commit, player) == [m1, m2]
            && (m1 != Routes.Placeholder(player) ==> !Synced(s.texts, Thread(s.rows, commit, player)))
            && (m1 != Routes.Placeholder(player) && m1 != m2 ==> m1 !in s.texts)
  {
    var s := Run(State([], 0, LoadedAsWritten([], commit, player, parse)),
                 TwoPosts(commit, player, m1, m2), commit, player, parse);
    PlaceholderTrace(commit, player, m1, m2, parse);
    OutOfStep(s.texts, Thread(s.rows, commit, player), Routes.Placeholder(player), m1, m2);
  }

  /** Corrected: the placeholder is shown outside the children the poll
      counts, so `<main>` holds one child per message shown. */
  function Loaded(rows: seq<Row>, commit: string, player: string, parse: string -> seq<string>): seq<string> {
    var logs := ReadMessages(rows, commit, player, 0);
    if |logs| == 0 then [] else parse(Routes.Html(logs, Routes.LogFragment))
  }

  /** The corrected page starts in step with the thread, empty or not, and
      stays in step through any run of posts and polls. */
  lemma SessionStaysSynced(rows: seq<Row>, nextId: nat, events: seq<Event>, commit: string, player: string,
                           parse: string -> seq<string>)
    requires ParsesFragments(parse)
    requires Routes.Escaped(Thread(rows, commit, player)) && EscapedEvents(events)
    ensures Synced(Loaded(rows, commit, player, parse), Thread(rows, commit, player))
    ensures var t := Run(State(rows, nextId, Loaded(rows, commit, player, parse)), events, commit, player, parse);
            Synced(t.texts, Thread(t.rows, commit, player))
  {
    var all := Thread(rows, commit, player);
    ReadMessagesIsSlice(rows, commit, player, 0);
    if |all| > 0 {
      assert ReadMessages(rows, commit, player, 0) == all[..Min(PageSize, |all|)];
      EscapedSlice(all, 0, Min(PageSize, |all|));
    }
    RunKeepsSync(State(rows, nextId, Loaded(rows, commit, player, parse)), events, commit, player, parse);
  }

  /** The script's poll on a live page: an active poll against the store
      leaves the page in step and appends exactly the next page. */
  method PollPage(view: Client.LogView, store: ServerDb.LogStore, commit: string, player: string,
                  parse: string -> seq<string>) returns (requested: Option<nat>)
    requires ParsesFragments(parse)
    requires Routes.Escaped(Thread(store.rows, commit, player))
    requires Synced(Client.Texts(view.children), Thread(store.rows, commit, player))
    modifies view
    ensures Synced(Client.Texts(view.children), Thread(store.rows, commit, player))
    ensures view.hash == "" ==> requested == Some(|old(view.children)|)
    ensures view.hash == "" ==>
      Client.Texts(view.children) == Poll(store.rows, commit, player, old(Client.Texts(view.children)), parse)
    ensures view.hash != "" ==> requested.None? && view.children == old(view.children)
  {
    var rows := store.rows;
    var fetch := (after: nat) => Some(Routes.NewLogsReply(rows, commit, player, Some(after)));
    var delay;
    requested, delay := view.Query(fetch, parse);
    if view.hash == "" {
      PollKeepsSync(rows, commit, player, old(Client.Texts(view.children)), parse);
    }
  }
}
