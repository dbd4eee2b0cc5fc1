/** The route handlers of server/source/server.ts. The classifier, the
    `html` fold, the tail decision, the player page, `listPlayers` and the
    delete reply are written the same way as in server/server.ts and are
    the members of `Routes`; this module holds what differs: the `<X:Y>`
    pre-pass of `makeSafe`, the branch default, the 204 reply of `/logs`,
    and the handlers over the store of server/source/db.ts. */
module SourceRoutes {
  import opened Wrappers
  import opened Text
  import opened LogTable
  import Listing
  import Routes
  import SourceDb

  // ---------------------------------------------------------------------
  // `makeSafe`: `replace(/<([\w\._\- ]+:[\w\._\- ]+)>/g, '&lt;$1&gt;')`

  /** The character class `[\w\._\- ]`. */
  predicate IsTagChar(c: char) {
    IsWordChar(c) || c == '.' || c == '-' || c == ' '
  }

  predicate AllTagChars(s: string) {
    forall k :: 0 <= k < |s| ==> IsTagChar(s[k])
  }

  /** End of the run of tag characters that starts at `i`. */
  function TagRunEnd(s: string, i: nat): (j: nat)
    requires i <= |s|
    ensures i <= j <= |s|
    ensures forall k :: i <= k < j ==> IsTagChar(s[k])
    ensures j < |s| ==> !IsTagChar(s[j])
    decreases |s| - i
  {
    if i < |s| && IsTagChar(s[i]) then TagRunEnd(s, i + 1) else i
  }

  /** A run of tag characters followed by a character outside the class
      ends exactly there. */
  lemma TagRunEndAt(s: string, i: nat, j: nat)
    requires i <= j < |s|
    requires forall k :: i <= k < j ==> IsTagChar(s[k])
    requires !IsTagChar(s[j])
    ensures TagRunEnd(s, i) == j
  {
  }

  /** The pattern tried at the front of `s`: `<`, a non-empty run, `:`, a
      non-empty run, `>`. Neither `:` nor `>` is in the class, so the
      greedy runs are the only candidates. Yields the index after `>`. */
  function ColonTagEnd(s: string): Option<nat> {
    if |s| > 0 && s[0] == '<' then
      var m := TagRunEnd(s, 1);
      if m > 1 && m < |s| && s[m] == ':' then
        var e := TagRunEnd(s, m + 1);
        if e > m + 1 && e < |s| && s[e] == '>' then Some(e + 1) else None
      else None
    else None
  }

  /** Reference reading: `<x:y>` occurs at `i` (a `<`, then `x`, a colon,
      `y` and a `>`), with `x` and `y` non-empty runs of tag characters. */
  predicate ColonTagAt(s: string, i: int, x: string, y: string) {
    |x| > 0 && |y| > 0 && AllTagChars(x) && AllTagChars(y)
    && 0 <= i && i + |x| + |y| + 3 <= |s|
    && s[i] == '<' && s[i + 1..i + 1 + |x|] == x && s[i + 1 + |x|] == ':'
    && s[i + 2 + |x|..i + 2 + |x| + |y|] == y && s[i + 2 + |x| + |y|] == '>'
  }

  lemma SliceOfSlice(s: string, i: int, j: int, a: int, b: int)
    requires 0 <= i <= j <= |s| && 0 <= a <= b <= j - i
    ensures s[i..j][a..b] == s[i + a..i + b]
  {
    forall k | 0 <= k < b - a ensures s[i..j][a..b][k] == s[i + a..i + b][k] {
    }
  }

  /** Whether `<x:y>` occurs at a position depends only on the text it
      would cover there. */
  lemma ColonTagSameText(s: string, i: int, s': string, i': int, x: string, y: string)
    requires 0 <= i && i + |x| + |y| + 3 <= |s| && 0 <= i' && i' + |x| + |y| + 3 <= |s'|
    requires s[i..i + |x| + |y| + 3] == s'[i'..i' + |x| + |y| + 3]
    ensures ColonTagAt(s, i, x, y) <==> ColonTagAt(s', i', x, y)
  {
    var n := |x| + |y| + 3;
    var w, w' := s[i..i + n], s'[i'..i' + n];
    assert s[i] == w[0] && s'[i'] == w'[0];
    assert s[i + 1 + |x|] == w[1 + |x|] && s'[i' + 1 + |x|] == w'[1 + |x|];
    assert s[i + 2 + |x| + |y|] == w[2 + |x| + |y|] && s'[i' + 2 + |x| + |y|] == w'[2 + |x| + |y|];
    SliceOfSlice(s, i, i + n, 1, 1 + |x|);
    SliceOfSlice(s', i', i' + n, 1, 1 + |x|);
    SliceOfSlice(s, i, i + n, 2 + |x|, 2 + |x| + |y|);
    SliceOfSlice(s', i', i' + n, 2 + |x|, 2 + |x| + |y|);
  }

  // The pieces of the tag the matcher finds: each is cheap on its own.

  lemma ColonTagEndFirstRun(s: string)
    requires ColonTagEnd(s).Some?
    ensures var e := ColonTagEnd(s).value;
            var m := TagRunEnd(s, 1);
            3 < e <= |s| && 1 < m < e - 2 && s[0] == '<' && s[m] == ':' && AllTagChars(s[1..m])
  {
  }

  lemma ColonTagEndSecondRun(s: string)
    requires ColonTagEnd(s).Some?
    ensures var e := ColonTagEnd(s).value;
            var m := TagRunEnd(s, 1);
            AllTagChars(s[m + 1..e - 1])
  {
  }

  lemma ColonTagEndSecondSlice(s: string)
    requires ColonTagEnd(s).Some?
    ensures var e := ColonTagEnd(s).value;
            var m := TagRunEnd(s, 1);
            1 < m < e - 2 && e <= |s| && s[2 + |s[1..m]|..2 + |s[1..m]| + |s[m + 1..e - 1]|] == s[m + 1..e - 1]
  {
  }

  lemma ColonTagEndCloses(s: string)
    requires ColonTagEnd(s).Some?
    ensures var e := ColonTagEnd(s).value;
            var m := TagRunEnd(s, 1);
            1 < m < e - 2 && e <= |s| && s[2 + |s[1..m]| + |s[m + 1..e - 1]|] == '>'
  {
  }

  /** A tag found by the matcher is a tag of the reference reading. */
  lemma ColonTagEndSound(s: string)
    requires ColonTagEnd(s).Some?
    ensures var e := ColonTagEnd(s).value;
            var m := TagRunEnd(s, 1);
            3 < e <= |s| && 1 < m < e - 2 && ColonTagAt(s, 0, s[1..m], s[m + 1..e - 1])
  {
    ColonTagEndFirstRun(s);
    ColonTagEndSecondRun(s);
    ColonTagEndSecondSlice(s);
    ColonTagEndCloses(s);
  }

  /** A tag of the reference reading at the front is what the matcher
      finds, with the colon right after `x`. */
  lemma ColonTagEndComplete(s: string, x: string, y: string)
    requires ColonTagAt(s, 0, x, y)
    ensures ColonTagEnd(s) == Some(|x| + |y| + 3) && TagRunEnd(s, 1) == |x| + 1
  {
    var m := |x| + 1;
    forall k | 1 <= k < m ensures IsTagChar(s[k]) {
      assert s[k] == s[1..m][k - 1];
    }
    TagRunEndAt(s, 1, m);
    var e := m + 1 + |y|;
    forall k | m + 1 <= k < e ensures IsTagChar(s[k]) {
      assert s[k] == s[m + 1..e][k - m - 1];
    }
    TagRunEndAt(s, m + 1, e);
  }

  /** A tag in `b` is a tag in `a + b`, shifted by `|a|`, and back. */
  lemma ColonTagShift(a: string, b: string, x: string, y: string)
    ensures forall i :: ColonTagAt(b, i, x, y) ==> ColonTagAt(a + b, |a| + i, x, y)
    ensures forall j :: j >= |a| && ColonTagAt(a + b, j, x, y) ==> ColonTagAt(b, j - |a|, x, y)
  {
    var n := |x| + |y| + 3;
    forall i | ColonTagAt(b, i, x, y) ensures ColonTagAt(a + b, |a| + i, x, y) {
      assert (a + b)[|a| + i..|a| + i + n] == b[i..i + n];
      ColonTagSameText(a + b, |a| + i, b, i, x, y);
    }
    forall j | j >= |a| && ColonTagAt(a + b, j, x, y) ensures ColonTagAt(b, j - |a|, x, y) {
      assert (a + b)[j..j + n] == b[j - |a|..j - |a| + n];
      ColonTagSameText(a + b, j, b, j - |a|, x, y);
    }
  }

  /** The global replace, scanning left to right: a match at the scan point
      is rewritten and the scan goes on after it, else one character is
      copied. */
  function EscapeColonTags(s: string): string
    decreases |s|
  {
    if |s| == 0 then ""
    else match ColonTagEnd(s)
      case Some(e) => "&lt;" + s[1..e - 1] + "&gt;" + EscapeColonTags(s[e..])
      case None => [s[0]] + EscapeColonTags(s[1..])
  }

  /** A tag at the scan point is rewritten to `&lt;x:y&gt;` and the scan
      resumes right after its `>`. */
  lemma EscapeColonTagsRewrites(s: string, x: string, y: string)
    requires ColonTagAt(s, 0, x, y)
    ensures EscapeColonTags(s) == "&lt;" + x + ":" + y + "&gt;" + EscapeColonTags(s[|x| + |y| + 3..])
  {
    ColonTagEndComplete(s, x, y);
    var m := |x| + 1;
    var e := |x| + |y| + 3;
    assert s[1..e - 1] == s[1..m] + s[m..m + 1] + s[m + 1..e - 1];
    assert s[m..m + 1] == ":";
  }

  /** Text holding no `<x:y>` run is left as it is, e.g. `<b>` or
      `<a:b:c>`. */
  lemma {:induction false} EscapeColonTagsNoMatch(s: string)
    requires forall i, x, y :: !ColonTagAt(s, i, x, y)
    ensures EscapeColonTags(s) == s
    decreases |s|
  {
    if |s| > 0 {
      if ColonTagEnd(s).Some? {
        ColonTagEndSound(s);
      }
      assert s == [s[0]] + s[1..];
      forall i, x, y ensures !ColonTagAt(s[1..], i, x, y) {
        ColonTagShift([s[0]], s[1..], x, y);
      }
      EscapeColonTagsNoMatch(s[1..]);
    }
  }

  /** Where the output holds no `&`, it copies the input. */
  lemma {:induction false} EscapeColonTagsCopies(s: string, k: nat)
    requires k <= |EscapeColonTags(s)|
    requires '&' !in EscapeColonTags(s)[..k]
    ensures k <= |s| && s[..k] == EscapeColonTags(s)[..k]
    decreases k
  {
    if k > 0 {
      var out := EscapeColonTags(s);
      assert |s| > 0;
      // The output's first character is in its `&`-free prefix, so the
      // front was copied rather than rewritten.
      assert out[0] == out[..k][0];
      assert ColonTagEnd(s).None?;
      var rest := EscapeColonTags(s[1..]);
      assert out == [s[0]] + rest;
      assert out[..k] == [s[0]] + rest[..k - 1];
      assert '&' !in rest[..k - 1] by {
        assert forall c :: c in rest[..k - 1] ==> c in out[..k];
      }
      EscapeColonTagsCopies(s[1..], k - 1);
      assert s[..k] == [s[0]] + s[1..][..k - 1];
    }
  }

  /** Up to the first position where a tag starts, the output copies the
      input, `&` included; from there on it is the rewrite of the rest. */
  lemma {:induction false} EscapeColonTagsCopiesFront(s: string, k: nat)
    requires k <= |s|
    requires forall i :: 0 <= i < k ==> ColonTagEnd(s[i..]).None?
    ensures EscapeColonTags(s) == s[..k] + EscapeColonTags(s[k..])
    decreases k
  {
    if k > 0 {
      assert s[0..] == s;
      forall i | 0 <= i < k - 1 ensures ColonTagEnd(s[1..][i..]).None? {
        assert s[1..][i..] == s[i + 1..];
      }
      EscapeColonTagsCopiesFront(s[1..], k - 1);
      assert s[1..][k - 1..] == s[k..];
      assert s[..k] == [s[0]] + s[1..][..k - 1];
    }
  }

  /** No tag in `b`, and none starting inside `a`: none in `a + b`. */
  lemma NoColonTagIn(a: string, b: string)
    requires forall i, x, y :: !ColonTagAt(b, i, x, y)
    requires forall i, x, y :: 0 <= i < |a| ==> !ColonTagAt(a + b, i, x, y)
    ensures forall i, x, y :: !ColonTagAt(a + b, i, x, y)
  {
    forall i, x, y ensures !ColonTagAt(a + b, i, x, y) {
      ColonTagShift(a, b, x, y);
    }
  }

  /** The rewritten text `&lt;x:y&gt;` holds no `<`. */
  lemma RewriteHasNoOpen(s: string)
    requires ColonTagEnd(s).Some?
    ensures '<' !in "&lt;" + s[1..ColonTagEnd(s).value - 1] + "&gt;"
  {
    ColonTagEndSound(s);
    var e := ColonTagEnd(s).value;
    var m := TagRunEnd(s, 1);
    forall k | 1 <= k < e - 1 ensures s[k] != '<' {
      if k != m { assert IsTagChar(s[k]); }
    }
    assert '<' !in s[1..e - 1];
  }

  /** A copied `<` does not start a tag in the output: the text after it
      would hold no `&`, so it was copied as well, and the input would
      have had the tag at its front. */
  lemma NoColonTagAtCopiedFront(s: string)
    requires |s| > 0 && ColonTagEnd(s).None?
    ensures forall x, y :: !ColonTagAt([s[0]] + EscapeColonTags(s[1..]), 0, x, y)
  {
    var rest := EscapeColonTags(s[1..]);
    var out := [s[0]] + rest;
    forall x, y ensures !ColonTagAt(out, 0, x, y) {
      if ColonTagAt(out, 0, x, y) {
        var n := |x| + |y| + 3;
        forall k | 1 <= k < n ensures out[k] != '&' {
          if k <= |x| {
            assert out[k] == out[1..1 + |x|][k - 1];
          } else if |x| + 2 <= k < n - 1 {
            assert out[k] == out[2 + |x|..n - 1][k - |x| - 2];
          }
        }
        assert '&' !in rest[..n - 1] by {
          forall j | 0 <= j < n - 1 ensures rest[j] != '&' {
            assert rest[j] == out[j + 1];
          }
        }
        EscapeColonTagsCopies(s[1..], n - 1);
        assert s[..n] == [s[0]] + s[1..][..n - 1];
        assert out[..n] == [s[0]] + rest[..n - 1];
        ColonTagSameText(s, 0, out, 0, x, y);
        ColonTagEndComplete(s, x, y);
      }
    }
  }

  /** After the pre-pass no `<x:y>` run is left. */
  lemma {:induction false} EscapeColonTagsComplete(s: string)
    ensures forall i, x, y :: !ColonTagAt(EscapeColonTags(s), i, x, y)
    decreases |s|
  {
    if |s| > 0 {
      if ColonTagEnd(s).Some? {
        var e := ColonTagEnd(s).value;
        ColonTagEndSound(s);
        var mid := "&lt;" + s[1..e - 1] + "&gt;";
        EscapeColonTagsComplete(s[e..]);
        RewriteHasNoOpen(s);
        forall i, x, y | 0 <= i < |mid| ensures !ColonTagAt(mid + EscapeColonTags(s[e..]), i, x, y) {
          assert (mid + EscapeColonTags(s[e..]))[i] == mid[i];
        }
        NoColonTagIn(mid, EscapeColonTags(s[e..]));
      } else {
        EscapeColonTagsComplete(s[1..]);
        NoColonTagAtCopiedFront(s);
        NoColonTagIn([s[0]], EscapeColonTags(s[1..]));
      }
    }
  }

  /** `makeSafe`: the pre-pass, then `sanitizeHtml`, taken as given. */
  function MakeSafe(userInput: string, sanitizeHtml: string -> string): string {
    sanitizeHtml(EscapeColonTags(userInput))
  }

  // ---------------------------------------------------------------------
  // POST /logs/:commit/:player?branch=B and the debug GET

  /** The arguments the handler passes on to `db.addLog`. */
  datatype BranchLog = BranchLog(branch: string, commit: string, player: string, message: string)

  const UnknownBranch := "#branch_unknown"

  /** `req.query.branch || '#branch_unknown'`. */
  function Branch(query: Option<string>): (b: string)
    ensures Truthy(query) ==> b == query.value
    ensures !Truthy(query) ==> b == "#branch_unknown"
  {
    if Truthy(query) then query.value else UnknownBranch
  }

  /** The POST handler: trimmed body, made safe, on the given branch. */
  function PostedLog(branch: Option<string>, commit: string, player: string, body: string,
                     sanitizeHtml: string -> string): (r: BranchLog)
    ensures r.branch == Branch(branch) && r.commit == commit && r.player == player
    ensures r.message == sanitizeHtml(EscapeColonTags(Trim(body)))
  {
    BranchLog(Branch(branch), commit, player, MakeSafe(Trim(body), sanitizeHtml))
  }

  /** The debug GET: the path segment made safe, not trimmed. */
  function DebugLog(branch: Option<string>, commit: string, player: string, msg: string,
                    sanitizeHtml: string -> string): (r: BranchLog)
    ensures r.branch == Branch(branch) && r.commit == commit && r.player == player
    ensures r.message == sanitizeHtml(EscapeColonTags(msg))
  {
    BranchLog(Branch(branch), commit, player, MakeSafe(msg, sanitizeHtml))
  }

  // ---------------------------------------------------------------------
  // GET /logs

  datatype IndexReply<T> = NoContent | Listing(body: seq<T>)

  /** 204 with no body when the listing is empty, else the listing. */
  function LogsIndex<T>(listing: seq<T>): IndexReply<T> {
    if |listing| == 0 then NoContent else Listing(listing)
  }

  lemma LogsIndexSpec<T>(listing: seq<T>)
    ensures LogsIndex(listing).NoContent? <==> |listing| == 0
    ensures LogsIndex(listing).Listing? ==> LogsIndex(listing).body == listing
  {
  }

  // ---------------------------------------------------------------------
  // GET /logs/:commit/:player/new?after=N over the store

  function NewLogsReply(store: SourceDb.LogStore, commit: string, player: string, after: Option<nat>): Routes.TailReply
    reads store
  {
    Routes.Tail(store.GetLogMessages(commit, player, Routes.AfterIndex(after)))
  }

  /** The tail reply is the sentinel exactly when `after` is at or past the
      end of the pair's thread; otherwise it is one fragment per message of
      the next page of that thread, in store order. */
  lemma NewLogsReplyShape(store: SourceDb.LogStore, commit: string, player: string, after: nat)
    ensures var all := Thread(store.rows, commit, player);
            NewLogsReply(store, commit, player, Some(after)).NoNewLogs? <==> after >= |all|
    ensures var all := Thread(store.rows, commit, player);
            after < |all| ==>
              NewLogsReply(store, commit, player, Some(after)).html
              == Routes.Concat(Listing.Keys(all[after..if after + PageSize < |all| then after + PageSize else |all|], Routes.LogFragment))
  {
    var page := store.GetLogMessages(commit, player, after);
    Routes.TailReplyShape(page);
    Routes.HtmlIsConcat(page, Routes.LogFragment);
  }

  // ---------------------------------------------------------------------
  // DELETE

  /** The delete handler over the store of server/source/db.ts. */
  method DeleteLogs(store: SourceDb.LogStore, commit: Option<string>, player: Option<string>) returns (reply: string)
    requires store.Valid()
    modifies store
    ensures store.Valid()
    ensures reply == Routes.DeleteReply(commit, player)
    ensures Truthy(commit) && Truthy(player) ==> store.rows == Without(old(store.rows), commit.value, player.value)
    ensures !Truthy(commit) && !Truthy(player) ==> store.rows == old(store.rows)
  {
    var _ := store.DeleteLogs(commit, player);
    reply := Routes.DeleteReply(commit, player);
  }
}
