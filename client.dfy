/** The page script of server/public/index.js and server/source/public/index.js.
    The two revisions run the same logic; they differ only in the poll
    interval and the delay before the first poll, which a `LogView` is given
    when it is made. The DOM is modelled as the list of `<main>`'s children,
    each with its text and whether it is shown; the browser's HTML parser,
    which turns appended HTML into new children, is a parameter. */
module Client {
  import opened Wrappers
  import opened Text
  import Routes

  /** The `localStorage` key holding the display order. */
  const FlipKey := "flipOrder"

  /** A child of `<main>`: its `innerText`, and whether its `display` is
      `block` (shown) rather than `none`. */
  datatype Element = Element(text: string, shown: bool)

  /** The filter test of `filterLogs`: the lower-cased text contains the
      lower-cased filter. */
  predicate Shown(text: string, filter: string) {
    Contains(ToLower(text), ToLower(filter))
  }

  /** An element is shown exactly when the lower-cased filter occurs at some
      position of its lower-cased text; the empty filter shows everything. */
  lemma ShownSpec(text: string, filter: string)
    ensures Shown(text, filter) <==> exists i :: OccursAt(ToLower(text), ToLower(filter), i)
    ensures filter == "" ==> Shown(text, filter)
  {
    ContainsOccurs(ToLower(text), ToLower(filter));
    if filter == "" {
      assert OccursAt(ToLower(text), ToLower(filter), 0);
    }
  }

  function BoolText(b: bool): string {
    if b then "true" else "false"
  }

  /** `localStorage.getItem('flipOrder') === 'true'`; a missing key reads
      as `null`. */
  predicate StoredReversed(storage: map<string, string>) {
    FlipKey in storage && storage[FlipKey] == "true"
  }

  /** The texts a poll appends: what the parser makes of the reply's html
      when the reply carries a non-empty `html`, else nothing (the sentinel
      and a failed fetch or JSON parse append nothing). */
  function Received(reply: Option<Routes.TailReply>, parse: string -> seq<string>): seq<string> {
    if reply.Some? && reply.value.NewLogs? && reply.value.html != "" then parse(reply.value.html) else []
  }

  function Texts(children: seq<Element>): (ts: seq<string>)
    ensures |ts| == |children| && forall i :: 0 <= i < |children| ==> ts[i] == children[i].text
  {
    seq(|children|, i requires 0 <= i < |children| => children[i].text)
  }

  class LogView {
    /** `main.children`. */
    var children: seq<Element>
    /** `window.location.hash`; non-empty means paused. */
    var hash: string
    /** `filterInput.value`. */
    var filter: string
    /** `flipOrder.checked`. */
    var checked: bool
    /** Whether `main.classList` contains `reversed`. */
    var reversed: bool
    /** `localStorage`. */
    var storage: map<string, string>
    /** The revision's poll interval. */
    const interval: nat

    /** The page as loaded, before `onload` runs. */
    constructor(children: seq<Element>, hash: string, filter: string, storage: map<string, string>, interval: nat)
      ensures this.children == children && this.hash == hash && this.filter == filter
      ensures this.storage == storage && this.interval == interval
      ensures !checked && !reversed
    {
      this.children := children;
      this.hash := hash;
      this.filter := filter;
      this.storage := storage;
      this.interval := interval;
      checked := false;
      reversed := false;
    }

    /** `filterLogs(filter)`: every child's display is set from the filter
      test on its text. */
    method FilterLogs(filter: string)
      modifies this
      ensures |children| == |old(children)|
      ensures forall i :: 0 <= i < |children| ==>
                children[i] == Element(old(children)[i].text, Shown(old(children)[i].text, filter))
      ensures hash == old(hash) && this.filter == old(this.filter) && checked == old(checked)
      ensures reversed == old(reversed) && storage == old(storage)
    {
      var i := 0;
      while i < |children|
        invariant 0 <= i <= |children| == |old(children)|
        invariant forall j :: 0 <= j < i ==>
                    children[j] == Element(old(children)[j].text, Shown(old(children)[j].text, filter))
        invariant forall j :: i <= j < |children| ==> children[j] == old(children)[j]
        invariant hash == old(hash) && this.filter == old(this.filter) && checked == old(checked)
        invariant reversed == old(reversed) && storage == old(storage)
      {
        children := children[i := Element(children[i].text, Shown(children[i].text, filter))];
        i := i + 1;
      }
    }

    /** `setDisplayOrder(r)`: the `reversed` class is present exactly when
      `r`, and `String(r)` is stored under `flipOrder`. */
    method SetDisplayOrder(r: bool)
      modifies this
      ensures reversed == r
      ensures storage == old(storage)[FlipKey := BoolText(r)]
      ensures FlipKey in storage && (storage[FlipKey] == "true" <==> r)
      ensures children == old(children) && hash == old(hash) && filter == old(filter) && checked == old(checked)
    {
      reversed := r;
      storage := storage[FlipKey := BoolText(r)];
    }

    /** The order restore at load: reversed only when the stored value is
      exactly `'true'`; otherwise nothing changes. */
    method Restore()
      modifies this
      ensures checked == (StoredReversed(old(storage)) || old(checked))
      ensures reversed == (StoredReversed(old(storage)) || old(reversed))
      ensures storage == old(storage)
      ensures children == old(children) && hash == old(hash) && filter == old(filter)
    {
      if FlipKey in storage && storage[FlipKey] == "true" {
        checked := true;
        SetDisplayOrder(true);
        assert storage == old(storage)[FlipKey := "true"];
      }
    }

    /** The filter input's `change` event. */
    method OnFilterChange(value: string)
      modifies this
      ensures filter == value && |children| == |old(children)|
      ensures forall i :: 0 <= i < |children| ==>
                children[i] == Element(old(children)[i].text, Shown(old(children)[i].text, value))
      ensures hash == old(hash) && checked == old(checked) && reversed == old(reversed) && storage == old(storage)
    {
      filter := value;
      FilterLogs(value);
    }

    /** The order checkbox's `change` event. */
    method OnFlipChange(value: bool)
      modifies this
      ensures checked == value && reversed == value
      ensures storage == old(storage)[FlipKey := BoolText(value)]
      ensures children == old(children) && hash == old(hash) && filter == old(filter)
    {
      checked := value;
      SetDisplayOrder(value);
    }

    /** One run of `query`. `fetch(after)` is what the server's JSON reply to
      `/new?after=<after>` turns out to be (`None` for a failed request or
      body, which the script ignores). Returns the `after` it requested, if
      any, and the delay before the next run.
      Paused: nothing is requested and nothing changes. Active: `after` is
      the number of children; the parsed html is appended and the filter
      re-applied, only when the reply carries html. */
    method Query(fetch: nat -> Option<Routes.TailReply>, parse: string -> seq<string>)
      returns (requested: Option<nat>, delay: nat)
      modifies this
      ensures delay == interval
      ensures hash != "" ==> requested.None? && children == old(children)
      ensures hash == "" ==> requested == Some(|old(children)|)
      ensures Texts(children) == Texts(old(children)) + (if hash == "" then Received(fetch(|old(children)|), parse) else [])
      ensures Received(fetch(|old(children)|), parse) != [] && hash == "" ==>
                forall i :: 0 <= i < |children| ==> children[i].shown == Shown(children[i].text, filter)
      ensures Received(fetch(|old(children)|), parse) == [] || hash != "" ==> children == old(children)
      ensures hash == old(hash) && filter == old(filter) && checked == old(checked)
      ensures reversed == old(reversed) && storage == old(storage)
    {
      delay := interval;
      if hash != "" {
        requested := None;
        return;
      }
      var logIndex := |children|;
      requested := Some(logIndex);
      var texts := Received(fetch(logIndex), parse);
      if texts == [] {
        return;
      }
      var added := seq(|texts|, i requires 0 <= i < |texts| => Element(texts[i], true));
      children := children + added;
      assert Texts(children) == Texts(old(children)) + texts;
      FilterLogs(filter);
      assert Texts(children) == Texts(old(children)) + texts;
    }
  }

  // ---------------------------------------------------------------------
  // `updateDevice` (server/public/index.js)

  /** The characters `/[^a-z0-9_-]/gi` keeps. */
  predicate IsNameChar(c: char) {
    ('a' <= c <= 'z') || ('A' <= c <= 'Z') || ('0' <= c <= '9') || c == '_' || c == '-'
  }

  function KeepNameChars(s: string): string {
    if |s| == 0 then "" else (if IsNameChar(s[0]) then [s[0]] else []) + KeepNameChars(s[1..])
  }

  lemma {:induction false} KeepNameCharsSpec(s: string)
    ensures forall k :: 0 <= k < |KeepNameChars(s)| ==> IsNameChar(KeepNameChars(s)[k])
    ensures |KeepNameChars(s)| <= |s|
    ensures (forall k :: 0 <= k < |s| ==> IsNameChar(s[k])) ==> KeepNameChars(s) == s
  {
    if |s| > 0 {
      KeepNameCharsSpec(s[1..]);
      assert s == [s[0]] + s[1..];
    }
  }

  /** `newName.replace(/[^a-z0-9_-]/gi, '').slice(0, 100)`. */
  function SafeName(name: string): string {
    var kept := KeepNameChars(name);
    if |kept| <= 100 then kept else kept[..100]
  }

  /** The sent name holds only ASCII letters, digits, `_` and `-`, is at
      most 100 characters long, is left alone when it already is such a
      name, and so sanitising twice changes nothing. */
  lemma SafeNameSpec(name: string)
    ensures |SafeName(name)| <= 100
    ensures forall k :: 0 <= k < |SafeName(name)| ==> IsNameChar(SafeName(name)[k])
    ensures (|name| <= 100 && forall k :: 0 <= k < |name| ==> IsNameChar(name[k])) ==> SafeName(name) == name
    ensures SafeName(SafeName(name)) == SafeName(name)
  {
    KeepNameCharsSpec(name);
    var r := SafeName(name);
    KeepNameCharsSpec(r);
  }

  /** The characters `encodeURIComponent` leaves alone. */
  predicate IsUnreserved(c: char) {
    ('a' <= c <= 'z') || ('A' <= c <= 'Z') || ('0' <= c <= '9')
    || c == '-' || c == '_' || c == '.' || c == '!' || c == '~' || c == '*' || c == '\'' || c == '(' || c == ')'
  }

  function HexDigit(d: int): (c: char)
    requires 0 <= d < 16
    ensures ('0' <= c <= '9') || ('A' <= c <= 'F')
  {
    if d < 10 then ('0' as int + d) as char else ('A' as int + d - 10) as char
  }

  /** The UTF-8 bytes of one code point. */
  function Utf8(c: char): (bytes: seq<int>)
    ensures 1 <= |bytes| <= 4 && forall k :: 0 <= k < |bytes| ==> 0 <= bytes[k] < 256
    ensures (c as int) < 0x80 <==> |bytes| == 1
  {
    var n := c as int;
    if n < 0x80 then [n]
    else if n < 0x800 then [0xC0 + n / 64, 0x80 + n % 64]
    else if n < 0x10000 then [0xE0 + n / 4096, 0x80 + (n / 64) % 64, 0x80 + n % 64]
    else [0xF0 + n / 262144, 0x80 + (n / 4096) % 64, 0x80 + (n / 64) % 64, 0x80 + n % 64]
  }

  function PercentEncode(bytes: seq<int>): string
    requires forall k :: 0 <= k < |bytes| ==> 0 <= bytes[k] < 256
  {
    if |bytes| == 0 then ""
    else ['%', HexDigit(bytes[0] / 16), HexDigit(bytes[0] % 16)] + PercentEncode(bytes[1..])
  }

  function EncodeURIComponent(s: string): string {
    if |s| == 0 then ""
    else (if IsUnreserved(s[0]) then [s[0]] else PercentEncode(Utf8(s[0]))) + EncodeURIComponent(s[1..])
  }

  /** `encodeURIComponent` changes nothing in a string of unreserved
      characters, in particular in a sanitised device name. */
  lemma {:induction false} EncodeUnreserved(s: string)
    requires forall k :: 0 <= k < |s| ==> IsUnreserved(s[k])
    ensures EncodeURIComponent(s) == s
  {
    if |s| > 0 {
      EncodeUnreserved(s[1..]);
      assert s == [s[0]] + s[1..];
    }
  }

  /** The request `updateDevice` sends: none for a falsy name, else the
      edit URL for the sanitised name. */
  function DeviceRequest(hardwareId: string, newName: Option<string>): Option<string> {
    if Truthy(newName) then Some("/devices/" + hardwareId + "/edit?name=" + EncodeURIComponent(SafeName(newName.value)))
    else None
  }

  /** No request for an empty or missing name; otherwise the URL carries the
      sanitised name as is: the encoding changes nothing in it. */
  lemma DeviceRequestSpec(hardwareId: string, newName: Option<string>)
    ensures DeviceRequest(hardwareId, newName).None? <==> !Truthy(newName)
    ensures Truthy(newName) ==>
      DeviceRequest(hardwareId, newName) == Some("/devices/" + hardwareId + "/edit?name=" + SafeName(newName.value))
  {
    if Truthy(newName) {
      SafeNameSpec(newName.value);
      EncodeUnreserved(SafeName(newName.value));
    }
  }
}
