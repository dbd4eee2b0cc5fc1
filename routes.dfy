/** The route handlers of server/server.ts, as functions from what the store
    returned to what the handler replies: the tag classifier and `<pre>`
    fragment of a log message, the `html` fold, the `/new` tail reply, the
    player page, the commit and player listings, the `makeSafe` pre-pass and
    the delete reply. The HTML `page()` template around a reply's content is
    not modelled; a page reply carries its title and its content. */
module Routes {
  import opened Wrappers
  import opened Text
  import opened Listing
  import opened LogTable
  import ServerDb

  // ---------------------------------------------------------------------
  // Classifying a message: `msg.match(/  \[(\w+)\] /)`

  /** End of the run of word characters that starts at `i`. */
  function WordRunEnd(s: string, i: nat): (j: nat)
    requires i <= |s|
    ensures i <= j <= |s|
    ensures forall k :: i <= k < j ==> IsWordChar(s[k])
    ensures j < |s| ==> !IsWordChar(s[j])
    decreases |s| - i
  {
    if i < |s| && IsWordChar(s[i]) then WordRunEnd(s, i + 1) else i
  }

  /** The regular expression tried at index `i`: two spaces, `[`, the
      longest run of word characters, then `] `. `\w` cannot match `]`, so
      backtracking to a shorter run never helps. Yields the captured word. */
  function MatchAt(msg: string, i: nat): Option<string> {
    if i + 3 <= |msg| && msg[i] == ' ' && msg[i + 1] == ' ' && msg[i + 2] == '[' then
      var j := WordRunEnd(msg, i + 3);
      if j > i + 3 && j + 1 < |msg| && msg[j] == ']' && msg[j + 1] == ' ' then Some(msg[i + 3..j]) else None
    else None
  }

  /** Reference reading of the pattern: `"  [" + tag + "] "` occurs at `i`
      and `tag` is a non-empty run of word characters. */
  predicate TagAt(msg: string, i: int, tag: string) {
    |tag| > 0 && (forall k :: 0 <= k < |tag| ==> IsWordChar(tag[k])) && OccursAt(msg, "  [" + tag + "] ", i)
  }

  /** The matcher at one index agrees with the reference reading, in both
      directions. */
  lemma MatchAtIsTagAt(msg: string, i: nat, tag: string)
    ensures MatchAt(msg, i) == Some(tag) <==> TagAt(msg, i, tag)
  {
    var pat := "  [" + tag + "] ";
    if TagAt(msg, i, tag) {
      var e := i + 3 + |tag|;
      assert msg[i..i + |pat|] == pat;
      assert forall k :: 0 <= k < |pat| ==> msg[i + k] == pat[k];
      assert msg[i] == ' ' && msg[i + 1] == ' ' && msg[i + 2] == '[';
      assert forall k :: i + 3 <= k < e ==> msg[k] == tag[k - i - 3];
      assert msg[e] == ']' && msg[e + 1] == ' ';
      var j := WordRunEnd(msg, i + 3);
      assert !IsWordChar(msg[e]);
      assert j == e;
      assert msg[i + 3..j] == tag;
    }
    if MatchAt(msg, i) == Some(tag) {
      var j := WordRunEnd(msg, i + 3);
      assert tag == msg[i + 3..j];
      assert |pat| == j + 2 - i;
      forall k | 0 <= k < |pat| ensures msg[i + k] == pat[k] {
        if 3 <= k < 3 + |tag| {
          assert pat[k] == tag[k - 3];
        }
      }
      assert msg[i..i + |pat|] == pat;
    }
  }

  /** The leftmost match, searching from `from` on. */
  function FindTag(msg: string, from: nat): Option<string>
    decreases |msg| - from
  {
    if from >= |msg| then None
    else if MatchAt(msg, from).Some? then MatchAt(msg, from)
    else FindTag(msg, from + 1)
  }

  lemma {:induction false} FindTagLeftmost(msg: string, from: nat)
    ensures FindTag(msg, from).None? ==> forall i, t :: from <= i ==> !TagAt(msg, i, t)
    ensures FindTag(msg, from).Some? ==>
      exists i :: from <= i && TagAt(msg, i, FindTag(msg, from).value)
                 && forall i', t' :: from <= i' < i ==> !TagAt(msg, i', t')
    decreases |msg| - from
  {
    if from >= |msg| {
      forall i, t | from <= i ensures !TagAt(msg, i, t) {
      }
    } else if MatchAt(msg, from).Some? {
      MatchAtIsTagAt(msg, from, MatchAt(msg, from).value);
    } else {
      FindTagLeftmost(msg, from + 1);
      forall t ensures !TagAt(msg, from, t) {
        MatchAtIsTagAt(msg, from, t);
      }
    }
  }

  /** The class name `className` given to a message's `<pre>`. */
  function ClassName(msg: string): string {
    match FindTag(msg, 0)
    case Some(tag) => ToLower(tag)
    case None => "unknown"
  }

  /** Characters a class name can hold: lower-case letters, digits, `_`. */
  predicate IsClassChar(c: char) {
    ('a' <= c <= 'z') || ('0' <= c <= '9') || c == '_'
  }

  /** The class name is the lower-cased word of the LEFTMOST `"  [Word] "`
      in the message, or `"unknown"` when there is none; either way it is a
      non-empty string of `[a-z0-9_]`. */
  lemma ClassNameIsLeftmostTag(msg: string)
    ensures (forall i, t :: !TagAt(msg, i, t)) ==> ClassName(msg) == "unknown"
    ensures forall i, t :: TagAt(msg, i, t) && (forall i', t' :: 0 <= i' < i ==> !TagAt(msg, i', t'))
                           ==> ClassName(msg) == ToLower(t)
    ensures |ClassName(msg)| > 0 && forall k :: 0 <= k < |ClassName(msg)| ==> IsClassChar(ClassName(msg)[k])
  {
    FindTagLeftmost(msg, 0);
    forall i, t | TagAt(msg, i, t) && (forall i', t' :: 0 <= i' < i ==> !TagAt(msg, i', t'))
      ensures ClassName(msg) == ToLower(t)
    {
      var found := FindTag(msg, 0).value;
      var i0 :| 0 <= i0 && TagAt(msg, i0, found) && forall i', t' :: 0 <= i' < i0 ==> !TagAt(msg, i', t');
      assert i0 == i;
      MatchAtIsTagAt(msg, i, t);
      MatchAtIsTagAt(msg, i, found);
    }
    if FindTag(msg, 0).Some? {
      var tag := FindTag(msg, 0).value;
      forall k | 0 <= k < |tag| ensures IsClassChar(LowerChar(tag[k])) {
        LowerWordChar(tag[k]);
      }
    }
  }

  /** The opening tag of a message's fragment, up to its closing `>`. */
  function OpenTag(msg: string): string {
    "<pre class=\"" + ClassName(msg) + "\""
  }

  /** The `<pre>` fragment of one message: classified, and with the first
      `\n` (only) turned into `<br>`. */
  function LogFragment(msg: string): string {
    OpenTag(msg) + ">" + ReplaceFirst(msg, '\n', "<br>") + "</pre>"
  }

  // ---------------------------------------------------------------------
  // `html(array, elementToHtml)`: lodash `reduce` from `''`

  function Html<T>(items: seq<T>, toHtml: T -> string): string {
    if |items| == 0 then "" else Html(items[..|items| - 1], toHtml) + toHtml(items[|items| - 1])
  }

  /** Reference: the fragments joined in order, as a right fold. */
  function Concat(parts: seq<string>): string {
    if |parts| == 0 then "" else parts[0] + Concat(parts[1..])
  }

  lemma {:induction false} ConcatAppend(a: seq<string>, b: seq<string>)
    ensures Concat(a + b) == Concat(a) + Concat(b)
  {
    if |a| > 0 {
      assert (a + b)[1..] == a[1..] + b;
      ConcatAppend(a[1..], b);
    } else {
      assert a + b == b;
    }
  }

  /** `html` splits over concatenation of its input. */
  lemma {:induction false} HtmlAppend<T>(a: seq<T>, b: seq<T>, toHtml: T -> string)
    ensures Html(a + b, toHtml) == Html(a, toHtml) + Html(b, toHtml)
    decreases |b|
  {
    if |b| == 0 {
      assert a + b == a;
    } else {
      var b' := b[..|b| - 1];
      assert (a + b)[..|a + b| - 1] == a + b';
      HtmlAppend(a, b', toHtml);
    }
  }

  /** `html` is the concatenation of one fragment per element, in input
      order; in particular `html([]) == ""`. */
  lemma {:induction false} HtmlIsConcat<T>(items: seq<T>, toHtml: T -> string)
    ensures Html(items, toHtml) == Concat(Keys(items, toHtml))
  {
    var parts := Keys(items, toHtml);
    if |items| > 0 {
      var init := items[..|items| - 1];
      HtmlIsConcat(init, toHtml);
      var initParts := Keys(init, toHtml);
      assert parts == initParts + [toHtml(items[|items| - 1])];
      ConcatAppend(initParts, [toHtml(items[|items| - 1])]);
    }
  }

  // ---------------------------------------------------------------------
  // GET /logs/:commit/:player/new?after=N

  /** The JSON body of the tail endpoint. */
  datatype TailReply = NoNewLogs(error: string) | NewLogs(html: string)

  const NoNewLogsText := "No new logs m8"

  function Tail(newLogs: seq<string>): TailReply {
    if |newLogs| == 0 then NoNewLogs(NoNewLogsText) else NewLogs(Html(newLogs, LogFragment))
  }

  /** `req.query.after || 0`. */
  function AfterIndex(after: Option<nat>): nat {
    if after.Some? then after.value else 0
  }

  /** The handler: read the page after `after` and reply with it. */
  function NewLogsReply(rows: seq<Row>, commit: string, player: string, after: Option<nat>): TailReply {
    Tail(ReadMessages(rows, commit, player, AfterIndex(after)))
  }

  /** The tail reply is the "no new logs" sentinel exactly when the store
      returned nothing; otherwise its html is one `<pre>` fragment per
      message, in store order, and is never empty. */
  lemma TailReplyShape(newLogs: seq<string>)
    ensures Tail(newLogs).NoNewLogs? <==> |newLogs| == 0
    ensures Tail(newLogs).NoNewLogs? ==> Tail(newLogs).error == "No new logs m8"
    ensures Tail(newLogs).NewLogs? ==>
      Tail(newLogs).html == Concat(Keys(newLogs, LogFragment)) && Tail(newLogs).html != ""
  {
    HtmlIsConcat(newLogs, LogFragment);
    if |newLogs| > 0 {
      var parts := Keys(newLogs, LogFragment);
      assert Concat(parts) == parts[0] + Concat(parts[1..]);
      assert parts[0] == LogFragment(newLogs[0]);
      assert |Concat(parts)| >= |parts[0]|;
    }
  }

  // ---------------------------------------------------------------------
  // Telling the fragments apart

  /** Messages as the ingestion stores them: after the pre-pass of
      `makeSafe` none holds a `<`. */
  predicate Escaped(msgs: seq<string>) {
    forall i :: 0 <= i < |msgs| ==> '<' !in msgs[i]
  }

  /** Every `<` in `s` starts a `<b`, so `s` holds no `</`. */
  predicate OnlyBreaks(s: string) {
    forall i :: 0 <= i < |s| && s[i] == '<' ==> i + 1 < |s| && s[i + 1] == 'b'
  }

  /** The body of an escaped message's fragment: its only `<` is the
      `<br>` that replaced the first newline. */
  lemma {:induction false} BodyOnlyBreaks(m: string)
    requires '<' !in m
    ensures OnlyBreaks(ReplaceFirst(m, '\n', "<br>"))
  {
    if |m| > 0 {
      var r := ReplaceFirst(m, '\n', "<br>");
      if m[0] == '\n' {
        assert forall i :: 4 <= i < |r| ==> r[i] == m[i - 3];
      } else {
        var t := ReplaceFirst(m[1..], '\n', "<br>");
        BodyOnlyBreaks(m[1..]);
        assert forall i :: 1 <= i < |r| ==> r[i] == t[i - 1];
      }
    }
  }

  /** `replace('\n', '<br>')` loses nothing on escaped messages. */
  lemma {:induction false} BodyInjective(x: string, y: string)
    requires '<' !in x && '<' !in y
    requires ReplaceFirst(x, '\n', "<br>") == ReplaceFirst(y, '\n', "<br>")
    ensures x == y
  {
    if |x| > 0 && |y| > 0 {
      var rx, ry := ReplaceFirst(x, '\n', "<br>"), ReplaceFirst(y, '\n', "<br>");
      if x[0] == '\n' || y[0] == '\n' {
        assert rx[0] == ry[0];
        assert x[0] == y[0];
        assert x[1..] == rx[4..] && y[1..] == ry[4..];
      } else {
        assert rx[1..] == ReplaceFirst(x[1..], '\n', "<br>");
        assert ry[1..] == ReplaceFirst(y[1..], '\n', "<br>");
        BodyInjective(x[1..], y[1..]);
        assert x == [x[0]] + x[1..] && y == [y[0]] + y[1..];
      }
    }
  }

  /** Two texts that read as a head, then `c`, then a rest, with no `c` in
      either head, have the same head and the same rest. */
  lemma SplitAtFirst(a: string, b: string, c: char, r1: string, r2: string)
    requires c !in a && c !in b && a + [c] + r1 == b + [c] + r2
    ensures a == b && r1 == r2
  {
    var t := a + [c] + r1;
    assert forall k :: 0 <= k < |a| ==> t[k] == a[k];
    assert forall k :: 0 <= k < |b| ==> t[k] == b[k];
    assert t[|a|] == c && t[|b|] == c;
    assert |a| == |b|;
    assert a == t[..|a|] && b == t[..|b|];
    assert r1 == t[|a| + 1..] && r2 == t[|b| + 1..];
  }

  /** In a body followed by `</pre>`, the first `</` is the closing tag. */
  lemma FirstClose(a: string, r: string)
    requires OnlyBreaks(a)
    ensures var t := a + "</pre>" + r;
            t[|a|] == '<' && t[|a| + 1] == '/'
            && forall k :: 0 <= k < |a| ==> !(t[k] == '<' && t[k + 1] == '/')
  {
    var t := a + "</pre>" + r;
    forall k | 0 <= k < |a| ensures !(t[k] == '<' && t[k + 1] == '/') {
      assert t[k] == a[k];
      if a[k] == '<' {
        assert t[k + 1] == a[k + 1];
      }
    }
  }

  lemma CloseAt(a: string, b: string, r1: string, r2: string)
    requires OnlyBreaks(a) && OnlyBreaks(b) && a + "</pre>" + r1 == b + "</pre>" + r2
    ensures a == b && r1 == r2
  {
    var t := a + "</pre>" + r1;
    FirstClose(a, r1);
    FirstClose(b, r2);
    assert |a| == |b|;
    assert a == t[..|a|] && b == t[..|b|];
    assert r1 == t[|a| + 6..] && r2 == t[|b| + 6..];
  }

  /** A fragment followed by any text `r` is its opening tag, which holds
      no `>`, then `>`, then a body whose only `<` starts a `<br>`, then
      `</pre>` and `r`. */
  lemma FragmentShape(msg: string, r: string)
    requires '<' !in msg
    ensures LogFragment(msg) + r == OpenTag(msg) + ['>'] + (ReplaceFirst(msg, '\n', "<br>") + "</pre>" + r)
    ensures '>' !in OpenTag(msg)
    ensures OnlyBreaks(ReplaceFirst(msg, '\n', "<br>"))
  {
    var h := OpenTag(msg);
    ClassNameIsLeftmostTag(msg);
    assert forall k :: 0 <= k < |h| ==> h[k] != '>';
    BodyOnlyBreaks(msg);
  }

  /** A fragment of an escaped message ends where its `</pre>` is, so what
      follows it and the message itself can be read back. */
  lemma FragmentPrefix(x: string, y: string, r1: string, r2: string)
    requires '<' !in x && '<' !in y
    requires LogFragment(x) + r1 == LogFragment(y) + r2
    ensures x == y && r1 == r2
  {
    var bx, b2 := ReplaceFirst(x, '\n', "<br>"), ReplaceFirst(y, '\n', "<br>");
    FragmentShape(x, r1);
    FragmentShape(y, r2);
    SplitAtFirst(OpenTag(x), OpenTag(y), '>', bx + "</pre>" + r1, b2 + "</pre>" + r2);
    CloseAt(bx, b2, r1, r2);
    BodyInjective(x, y);
  }

  lemma FragmentsEmpty(msgs: seq<string>)
    ensures Concat(Keys(msgs, LogFragment)) == "" <==> |msgs| == 0
  {
    if |msgs| > 0 {
      var parts := Keys(msgs, LogFragment);
      assert Concat(parts) == LogFragment(msgs[0]) + Concat(parts[1..]);
    }
  }

  lemma {:induction false} FragmentsInjective(a: seq<string>, b: seq<string>)
    requires Escaped(a) && Escaped(b)
    requires Concat(Keys(a, LogFragment)) == Concat(Keys(b, LogFragment))
    ensures a == b
  {
    FragmentsEmpty(a);
    FragmentsEmpty(b);
    if |a| > 0 && |b| > 0 {
      var pa, pb := Keys(a, LogFragment), Keys(b, LogFragment);
      assert pa[1..] == Keys(a[1..], LogFragment);
      assert pb[1..] == Keys(b[1..], LogFragment);
      assert Concat(pa) == LogFragment(a[0]) + Concat(pa[1..]);
      assert Concat(pb) == LogFragment(b[0]) + Concat(pb[1..]);
      FragmentPrefix(a[0], b[0], Concat(pa[1..]), Concat(pb[1..]));
      FragmentsInjective(a[1..], b[1..]);
      assert a == [a[0]] + a[1..] && b == [b[0]] + b[1..];
    }
  }

  /** Distinct runs of escaped messages give distinct html: a page's html
      determines the messages it was built from, in order. */
  lemma HtmlInjective(a: seq<string>, b: seq<string>)
    requires Escaped(a) && Escaped(b)
    requires Html(a, LogFragment) == Html(b, LogFragment)
    ensures a == b
  {
    HtmlIsConcat(a, LogFragment);
    HtmlIsConcat(b, LogFragment);
    FragmentsInjective(a, b);
  }

  // ---------------------------------------------------------------------
  // GET /logs/:commit/:player

  /** A page reply: the title and the content placed in `<main>`. */
  datatype Reply = TextReply(body: string) | PageReply(title: string, content: string) | Redirect(location: string)

  function Placeholder(player: string): string {
    "No logs for player " + player + " yet"
  }

  /** `playerLogs`, with the placeholder pushed when the store had none. */
  function PageLogs(player: string, logs: seq<string>): seq<string> {
    if |logs| == 0 then [Placeholder(player)] else logs
  }

  function PlayerPage(commit: string, player: string, logs: seq<string>): Reply {
    PageReply("Logs for " + player + " on commit " + commit, Html(PageLogs(player, logs), LogFragment))
  }

  /** The page's `<main>` gets one fragment per log, or exactly one
      placeholder line when there is no log. */
  lemma PlayerPageContent(commit: string, player: string, logs: seq<string>)
    ensures |logs| == 0 ==> PlayerPage(commit, player, logs).content == LogFragment("No logs for player " + player + " yet")
    ensures |logs| > 0 ==> PlayerPage(commit, player, logs).content == Concat(Keys(logs, LogFragment))
  {
    HtmlIsConcat(PageLogs(player, logs), LogFragment);
    if |logs| == 0 {
      var parts := Keys([Placeholder(player)], LogFragment);
      assert Concat(parts) == parts[0] + Concat([]);
    }
  }

  // ---------------------------------------------------------------------
  // GET /logs and GET /logs/:commit

  /** What a template literal makes of a plain object, such as a `Log` row
      from `getListOfCommits` or `getListOfPlayers`. */
  function ObjectText(e: Stamped): string {
    "[object Object]"
  }

  const NoCommitsText := "There are no logs for any commit"

  function CommitLinkAsWritten(e: Stamped): string {
    "<div><a href=\"/logs/" + ObjectText(e) + "\">" + ObjectText(e) + "</a></div>"
  }

  /** `listLinks` as written: each listed `Log` object is put into the link
      as is. */
  function ListLinksAsWritten(commits: seq<Stamped>): Reply {
    if |commits| == 0 then TextReply(NoCommitsText)
    else PageReply("List of commits with logs:", Html(commits, CommitLinkAsWritten))
  }

  /** With the same number of commits, the as-written listing is the same
      page whatever the commits are: no link leads to its commit. */
  lemma ListLinksAsWrittenIgnoresCommits(a: seq<Stamped>, b: seq<Stamped>)
    requires |a| == |b|
    ensures ListLinksAsWritten(a) == ListLinksAsWritten(b)
  {
    assert Keys(a, CommitLinkAsWritten) == Keys(b, CommitLinkAsWritten);
    HtmlIsConcat(a, CommitLinkAsWritten);
    HtmlIsConcat(b, CommitLinkAsWritten);
  }

  function CommitLink(e: Stamped): string {
    "<div><a href=\"/logs/" + e.name + "\">" + e.name + "</a></div>"
  }

  /** `listLinks` with each entry's commit name in its link. */
  function ListLinks(commits: seq<Stamped>): Reply {
    if |commits| == 0 then TextReply(NoCommitsText)
    else PageReply("List of commits with logs:", Html(commits, CommitLink))
  }

  /** The listing, as written and corrected alike, replies with the "no
      logs" text exactly when there is no commit; otherwise its content is
      one link per commit, in listing order. Corrected, each link leads to
      `/logs/<commit>`. */
  lemma ListLinksShape(commits: seq<Stamped>)
    ensures ListLinksAsWritten(commits).TextReply? <==> |commits| == 0
    ensures ListLinks(commits).TextReply? <==> |commits| == 0
    ensures |commits| == 0 ==> ListLinksAsWritten(commits).body == "There are no logs for any commit"
    ensures |commits| == 0 ==> ListLinks(commits).body == "There are no logs for any commit"
    ensures |commits| > 0 ==> ListLinksAsWritten(commits).content == Concat(Keys(commits, CommitLinkAsWritten))
    ensures |commits| > 0 ==> ListLinks(commits).content == Concat(Keys(commits, CommitLink))
  {
    HtmlIsConcat(commits, CommitLinkAsWritten);
    HtmlIsConcat(commits, CommitLink);
  }

  function PlayersTitle(commit: string): string {
    "Players on commit " + commit + "</h1>"
  }

  function NoPlayersNotice(commit: string): string {
    "<div class=\"empty\">No players with logs on commit '" + commit + "' yet</div>"
  }

  function PlayerLinkAsWritten(commit: string, e: Stamped): string {
    "<div><a href=\"/logs/" + commit + "/" + ObjectText(e) + "\">" + ObjectText(e) + "</a></div>"
  }

  /** `listPlayers` as written, over the `Log` objects of
      `getListOfPlayers`. */
  function ListPlayersAsWritten(commit: string, players: seq<Stamped>): Reply {
    if |players| == 0 then PageReply(PlayersTitle(commit), NoPlayersNotice(commit))
    else if |players| == 1 then Redirect("/logs/" + commit + "/" + ObjectText(players[0]))
    else PageReply(PlayersTitle(commit), Html(players, e => PlayerLinkAsWritten(commit, e)))
  }

  /** With one player on the commit, the as-written redirect never reaches
      that player's page: it goes to `/logs/<commit>/[object Object]`. */
  lemma ListPlayersAsWrittenRedirect(commit: string, player: Stamped)
    ensures ListPlayersAsWritten(commit, [player]) == Redirect("/logs/" + commit + "/[object Object]")
    ensures player.name != "[object Object]" ==>
      ListPlayersAsWritten(commit, [player]) != Redirect("/logs/" + commit + "/" + player.name)
  {
    if player.name != "[object Object]" {
      var pre := "/logs/" + commit + "/";
      assert (pre + "[object Object]")[|pre|..] == "[object Object]";
      assert (pre + player.name)[|pre|..] == player.name;
    }
  }

  function PlayerLink(commit: string, player: string): string {
    "<div><a href=\"/logs/" + commit + "/" + player + "\">" + player + "</a></div>"
  }

  /** `listPlayers` over player names: the empty notice, a redirect to the
      only player, or one link per player. */
  function ListPlayers(commit: string, players: seq<string>): Reply {
    if |players| == 0 then PageReply(PlayersTitle(commit), NoPlayersNotice(commit))
    else if |players| == 1 then Redirect("/logs/" + commit + "/" + players[0])
    else PageReply(PlayersTitle(commit), Html(players, PlayerLinkTo(commit)))
  }

  function PlayerLinkTo(commit: string): string -> string {
    p => PlayerLink(commit, p)
  }

  /** The 0 / 1 / many rule: no player gives the empty notice, exactly one
      redirects to `/logs/<commit>/<player>`, two or more give one link per
      player in listing order. */
  lemma ListPlayersRule(commit: string, players: seq<string>)
    ensures |players| == 0 ==> ListPlayers(commit, players) == PageReply(PlayersTitle(commit), NoPlayersNotice(commit))
    ensures ListPlayers(commit, players).Redirect? <==> |players| == 1
    ensures |players| == 1 ==> ListPlayers(commit, players).location == "/logs/" + commit + "/" + players[0]
    ensures |players| >= 2 ==> (ListPlayers(commit, players).content == Concat(Keys(players, PlayerLinkTo(commit))))
    ensures forall i :: 0 <= i < |players| ==> Keys(players, PlayerLinkTo(commit))[i] == PlayerLink(commit, players[i])
  {
    HtmlIsConcat(players, PlayerLinkTo(commit));
  }

  /** The listing of server/db.ts passed on by player name. */
  function ListPlayersOfListing(commit: string, players: seq<Stamped>): Reply {
    ListPlayers(commit, Keys(players, Name))
  }

  // ---------------------------------------------------------------------
  // Ingestion: `makeSafe`

  /** `s.replace(/c/g, rep)` for one character `c`. */
  function ReplaceAll(s: string, c: char, rep: string): string {
    if |s| == 0 then "" else (if s[0] == c then rep else [s[0]]) + ReplaceAll(s[1..], c, rep)
  }

  function Count(s: string, c: char): nat {
    if |s| == 0 then 0 else (if s[0] == c then 1 else 0) + Count(s[1..], c)
  }

  lemma {:induction false} ReplaceAllSpec(s: string, c: char, rep: string, d: char)
    ensures c !in rep ==> c !in ReplaceAll(s, c, rep)
    ensures d != c && d !in s && d !in rep ==> d !in ReplaceAll(s, c, rep)
    ensures c !in s ==> ReplaceAll(s, c, rep) == s
    ensures |ReplaceAll(s, c, rep)| == |s| + (|rep| - 1) * Count(s, c)
  {
    if |s| > 0 {
      ReplaceAllSpec(s[1..], c, rep, d);
      assert s == [s[0]] + s[1..];
    }
  }

  /** The pre-pass of `makeSafe`: every `<` becomes `&lt;`, then every `>`
      becomes `&gt;`. */
  function EscapeAngles(s: string): string {
    ReplaceAll(ReplaceAll(s, '<', "&lt;"), '>', "&gt;")
  }

  /** After the pre-pass no `<` or `>` is left; a string without them is
      unchanged; each escaped bracket adds three characters. */
  lemma EscapeAnglesSpec(s: string)
    ensures '<' !in EscapeAngles(s) && '>' !in EscapeAngles(s)
    ensures '<' !in s && '>' !in s ==> EscapeAngles(s) == s
    ensures |EscapeAngles(s)| == |s| + 3 * Count(s, '<') + 3 * Count(s, '>')
  {
    var t := ReplaceAll(s, '<', "&lt;");
    ReplaceAllSpec(s, '<', "&lt;", '>');
    ReplaceAllSpec(t, '>', "&gt;", '<');
    CountAfterReplace(s, '<', "&lt;", '>');
  }

  lemma {:induction false} CountAfterReplace(s: string, c: char, rep: string, d: char)
    requires d != c && d !in rep
    ensures Count(ReplaceAll(s, c, rep), d) == Count(s, d)
  {
    if |s| > 0 {
      CountAfterReplace(s[1..], c, rep, d);
      CountAppend(if s[0] == c then rep else [s[0]], ReplaceAll(s[1..], c, rep), d);
      if s[0] == c { CountAbsent(rep, d); }
    }
  }

  lemma {:induction false} CountAppend(a: string, b: string, d: char)
    ensures Count(a + b, d) == Count(a, d) + Count(b, d)
  {
    if |a| > 0 {
      assert (a + b)[1..] == a[1..] + b;
      CountAppend(a[1..], b, d);
    } else {
      assert a + b == b;
    }
  }

  lemma {:induction false} CountAbsent(s: string, d: char)
    requires d !in s
    ensures Count(s, d) == 0
  {
    if |s| > 0 { CountAbsent(s[1..], d); }
  }

  /** `makeSafe`: the pre-pass, then `sanitizeHtml` with the server's
      options, which the model takes as given. */
  function MakeSafe(userInput: string, sanitizeHtml: string -> string): string {
    sanitizeHtml(EscapeAngles(userInput))
  }

  /** Whatever the user sends, `makeSafe` stores no `<`, provided the
      sanitiser adds none to text that has none. */
  lemma MakeSafeEscapes(userInput: string, sanitizeHtml: string -> string)
    requires forall t :: '<' !in t ==> '<' !in sanitizeHtml(t)
    ensures '<' !in MakeSafe(userInput, sanitizeHtml)
  {
    EscapeAnglesSpec(userInput);
  }

  /** POST /logs/:commit/:player: the trimmed body, made safe, is stored. */
  method PostLog(store: ServerDb.LogStore, commit: string, player: string, body: string,
                 sanitizeHtml: string -> string, now: int) returns (reply: string)
    requires store.Valid()
    modifies store
    ensures store.Valid() && store.devices == old(store.devices)
    ensures store.rows == old(store.rows) + [Row(old(store.nextId), commit, player, MakeSafe(Trim(body), sanitizeHtml), now)]
    ensures reply == "OK"
  {
    store.AddLog(commit, player, MakeSafe(Trim(body), sanitizeHtml), now);
    reply := "OK";
  }

  /** GET /logs/:commit/:player/:msg (debug): the path segment, made safe,
      is stored without trimming. */
  method DebugAddLog(store: ServerDb.LogStore, commit: string, player: string, msg: string,
                     sanitizeHtml: string -> string, now: int) returns (reply: string)
    requires store.Valid()
    modifies store
    ensures store.Valid() && store.devices == old(store.devices)
    ensures store.rows == old(store.rows) + [Row(old(store.nextId), commit, player, MakeSafe(msg, sanitizeHtml), now)]
    ensures reply == "OK"
  {
    store.AddLog(commit, player, MakeSafe(msg, sanitizeHtml), now);
    reply := "OK";
  }

  // ---------------------------------------------------------------------
  // DELETE /logs, /logs/:commit, /logs/:commit/:player

  // Written as two literals: the verifier reads characters of a short
  // literal, but not of one this long.
  const NoScopeText := "Must specify a commit " + "or player for logs to delete"

  function DeleteReply(commit: Option<string>, player: Option<string>): string {
    if Truthy(commit) && Truthy(player) then "Deleted all logs for the player " + player.value + " on commit " + commit.value
    else if Truthy(commit) then "Deleted all logs for commit " + commit.value
    else NoScopeText
  }

  /** The reply names the player exactly when both commit and player are
      set, names only the commit when only the commit is set, and asks for
      a scope otherwise. */
  lemma DeleteReplyCases(commit: Option<string>, player: Option<string>)
    ensures StartsWith(DeleteReply(commit, player), "Deleted all logs for the player ") <==> Truthy(commit) && Truthy(player)
    ensures StartsWith(DeleteReply(commit, player), "Deleted all logs for commit ") <==> Truthy(commit) && !Truthy(player)
    ensures DeleteReply(commit, player) == NoScopeText <==> !Truthy(commit)
  {
    var r := DeleteReply(commit, player);
    var both, one := "Deleted all logs for the player ", "Deleted all logs for commit ";
    if Truthy(commit) && Truthy(player) {
      assert r[..|both|] == both;
      assert r[21] == 't' && one[21] == 'c';
    } else if Truthy(commit) {
      assert r[..|one|] == one;
      assert r[21] == 'c' && both[21] == 't';
      assert r != NoScopeText by { assert r[0] == 'D' && NoScopeText[0] == 'M'; }
    } else {
      assert r[0] == 'M';
      assert both[0] == 'D';
      assert one[0] == 'D';
    }
  }

  /** The delete handler: the store deletes, then the reply is chosen. With
      both set, exactly that pair's rows are gone; with neither, nothing is. */
  method DeleteLogs(store: ServerDb.LogStore, commit: Option<string>, player: Option<string>) returns (reply: string)
    requires store.Valid()
    modifies store
    ensures store.Valid() && store.devices == old(store.devices)
    ensures reply == DeleteReply(commit, player)
    ensures Truthy(commit) && Truthy(player) ==> store.rows == Without(old(store.rows), commit.value, player.value)
    ensures !Truthy(commit) && !Truthy(player) ==> store.rows == old(store.rows)
  {
    var _ := store.DeleteLogs(commit, player);
    reply := DeleteReply(commit, player);
  }
}
