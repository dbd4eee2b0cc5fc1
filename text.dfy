/** The few JavaScript string operations the log server and its page rely on,
    restricted to what the model needs: ASCII case mapping, `includes`,
    `replace` with a string pattern, and `trim`. */
module Text {

  /** `\w` in a JavaScript regular expression without the `u` flag. */
  predicate IsWordChar(c: char) {
    ('a' <= c <= 'z') || ('A' <= c <= 'Z') || ('0' <= c <= '9') || c == '_'
  }

  predicate IsUpper(c: char) {
    'A' <= c <= 'Z'
  }

  /** `toLowerCase` on one character; only ASCII letters are mapped. */
  function LowerChar(c: char): char {
    if IsUpper(c) then (c as int + 32) as char else c
  }

  function ToLower(s: string): string {
    seq(|s|, i requires 0 <= i < |s| => LowerChar(s[i]))
  }

  /** A word character stays a word character when lowered, and is no
      longer upper case. */
  lemma LowerWordChar(c: char)
    requires IsWordChar(c)
    ensures IsWordChar(LowerChar(c)) && !IsUpper(LowerChar(c))
    ensures LowerChar(c) == c <==> !IsUpper(c)
  {
  }

  lemma ToLowerIdempotent(s: string)
    ensures ToLower(ToLower(s)) == ToLower(s)
  {
  }

  predicate StartsWith(s: string, prefix: string) {
    |prefix| <= |s| && s[..|prefix|] == prefix
  }

  /** `sub` occurs in `s` starting at index `i`. */
  predicate OccursAt(s: string, sub: string, i: int) {
    0 <= i && i + |sub| <= |s| && s[i..i + |sub|] == sub
  }

  /** `s.includes(sub)`, computed by trying every start position in turn. */
  predicate Contains(s: string, sub: string)
    decreases |s|
  {
    StartsWith(s, sub) || (|s| > 0 && Contains(s[1..], sub))
  }

  /** `includes` holds exactly when `sub` occurs at some position of `s`. */
  lemma {:induction false} ContainsOccurs(s: string, sub: string)
    ensures Contains(s, sub) <==> exists i :: OccursAt(s, sub, i)
    decreases |s|
  {
    if StartsWith(s, sub) {
      assert OccursAt(s, sub, 0);
    } else if |s| > 0 {
      ContainsOccurs(s[1..], sub);
      if Contains(s[1..], sub) {
        var i :| OccursAt(s[1..], sub, i);
        assert s[1..][i..i + |sub|] == s[i + 1..i + 1 + |sub|];
        assert OccursAt(s, sub, i + 1);
      } else {
        forall i | OccursAt(s, sub, i)
          ensures false
        {
          if i > 0 {
            assert s[1..][i - 1..i - 1 + |sub|] == s[i..i + |sub|];
            assert OccursAt(s[1..], sub, i - 1);
          }
        }
      }
    } else {
      assert forall i :: OccursAt(s, sub, i) ==> i == 0 && |sub| == 0;
      assert s[..0] == "";
    }
  }

  /** Every string includes the empty string. */
  lemma ContainsEmpty(s: string)
    ensures Contains(s, "")
  {
    assert StartsWith(s, "");
  }

  /** Index of the first `c` in `s`, or `|s|` when there is none. */
  function IndexOf(s: string, c: char): (i: nat)
    ensures i <= |s| && c !in s[..i]
    ensures i < |s| <==> c in s
    ensures i < |s| ==> s[i] == c
  {
    if |s| == 0 then 0
    else if s[0] == c then 0
    else
      var j := IndexOf(s[1..], c);
      assert s[..j + 1] == [s[0]] + s[1..][..j];
      1 + j
  }

  /** `s.replace(target, replacement)` with a one-character string pattern:
      only the first occurrence is replaced. */
  function ReplaceFirst(s: string, target: char, replacement: string): string {
    if |s| == 0 then ""
    else if s[0] == target then replacement + s[1..]
    else [s[0]] + ReplaceFirst(s[1..], target, replacement)
  }

  /** Without the target the string is unchanged; otherwise the text before
      the first occurrence and everything after it, later occurrences
      included, are kept as they were. */
  lemma {:induction false} ReplaceFirstSplits(s: string, target: char, replacement: string)
    ensures target !in s ==> ReplaceFirst(s, target, replacement) == s
    ensures target in s ==>
      ReplaceFirst(s, target, replacement) == s[..IndexOf(s, target)] + replacement + s[IndexOf(s, target) + 1..]
  {
    if |s| > 0 && s[0] != target {
      var t := s[1..];
      ReplaceFirstSplits(t, target, replacement);
      assert s == [s[0]] + t;
      assert ReplaceFirst(s, target, replacement) == [s[0]] + ReplaceFirst(t, target, replacement);
      if target in t {
        var j := IndexOf(t, target);
        assert IndexOf(s, target) == j + 1;
        calc {
          ReplaceFirst(s, target, replacement);
          [s[0]] + (t[..j] + replacement + t[j + 1..]);
          { assert s[..j + 1] == [s[0]] + t[..j]; assert s[j + 2..] == t[j + 1..]; }
          s[..j + 1] + replacement + s[j + 2..];
        }
      }
    }
  }

  /** The characters `String.prototype.trim` removes: ECMAScript WhiteSpace
      and LineTerminator. */
  predicate IsJsSpace(c: char) {
    c == ' ' || c == '\t' || c == '\n' || c == '\r' || c == '\U{000B}' || c == '\U{000C}'
    || c == '\U{00A0}' || c == '\U{1680}' || ('\U{2000}' <= c <= '\U{200A}')
    || c == '\U{2028}' || c == '\U{2029}' || c == '\U{202F}' || c == '\U{205F}'
    || c == '\U{3000}' || c == '\U{FEFF}'
  }

  /** Number of white-space characters at the start of `s`. */
  function LeadingSpace(s: string): (i: nat)
    ensures i <= |s|
    ensures forall k :: 0 <= k < i ==> IsJsSpace(s[k])
    ensures i < |s| ==> !IsJsSpace(s[i])
  {
    if |s| > 0 && IsJsSpace(s[0]) then
      var j := LeadingSpace(s[1..]);
      assert forall k :: 1 <= k < j + 1 ==> s[k] == s[1..][k - 1];
      1 + j
    else 0
  }

  /** Length of `s` without the white space at its end. */
  function TrailingSpaceStart(s: string): (j: nat)
    ensures j <= |s|
    ensures forall k :: j <= k < |s| ==> IsJsSpace(s[k])
    ensures 0 < j ==> !IsJsSpace(s[j - 1])
  {
    if |s| > 0 && IsJsSpace(s[|s| - 1]) then TrailingSpaceStart(s[..|s| - 1]) else |s|
  }

  /** `s.trim()`: white space is removed from the start, then from the end. */
  function Trim(s: string): string {
    var t := s[LeadingSpace(s)..];
    t[..TrailingSpaceStart(t)]
  }

  /** `trim` keeps one contiguous run of the input, drops only white space
      around it, and leaves no white space at either end; a string of white
      space alone trims to the empty string. */
  lemma TrimKeepsMiddle(s: string)
    ensures exists i, j :: 0 <= i <= j <= |s| && Trim(s) == s[i..j]
                         && (forall k :: 0 <= k < i ==> IsJsSpace(s[k]))
                         && (forall k :: j <= k < |s| ==> IsJsSpace(s[k]))
    ensures Trim(s) != [] ==> !IsJsSpace(Trim(s)[0]) && !IsJsSpace(Trim(s)[|Trim(s)| - 1])
    ensures (forall k :: 0 <= k < |s| ==> IsJsSpace(s[k])) ==> Trim(s) == []
  {
    var i := LeadingSpace(s);
    var t := s[i..];
    var j := TrailingSpaceStart(t);
    assert t[..j] == s[i..i + j];
    assert forall k :: i + j <= k < |s| ==> IsJsSpace(s[k]) by {
      forall k | i + j <= k < |s| ensures IsJsSpace(s[k]) { assert s[k] == t[k - i]; }
    }
    if Trim(s) != [] {
      assert Trim(s)[0] == s[i];
      assert Trim(s)[|Trim(s)| - 1] == t[j - 1];
    }
  }
}
