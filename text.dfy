/**
 * Character classes and string helpers shared by the model: the ECMAScript `\s`
 * class, ASCII case mapping, and `split`/`join` on a single separator.
 */
module Text {
  import opened Wrappers

  /** ECMAScript `\s`: the WhiteSpace and LineTerminator code points. */
  predicate IsSpace(c: char) {
    var n := c as int;
    n == 0x09 || n == 0x0A || n == 0x0B || n == 0x0C || n == 0x0D || n == 0x20
    || n == 0xA0 || n == 0x1680 || (0x2000 <= n <= 0x200A) || n == 0x2028
    || n == 0x2029 || n == 0x202F || n == 0x205F || n == 0x3000 || n == 0xFEFF
  }

  predicate IsUpper(c: char) { 'A' <= c <= 'Z' }

  predicate IsLower(c: char) { 'a' <= c <= 'z' }

  /** ECMAScript `\d`. */
  predicate IsDigit(c: char) { '0' <= c <= '9' }

  /** `toLowerCase` on one character, ASCII letters only. */
  function ToLower(c: char): (d: char)
    ensures !IsUpper(d)
    ensures !IsUpper(c) ==> d == c
    ensures IsUpper(c) ==> IsLower(d) && d as int - 'a' as int == c as int - 'A' as int
    ensures IsSpace(d) == IsSpace(c)
  {
    if IsUpper(c) then (c as int + 32) as char else c
  }

  /** `toUpperCase` on one character, ASCII letters only. */
  function ToUpper(c: char): (d: char)
    ensures !IsLower(d)
    ensures !IsLower(c) ==> d == c
    ensures IsLower(c) ==> IsUpper(d) && d as int - 'A' as int == c as int - 'a' as int
    ensures IsSpace(d) == IsSpace(c)
  {
    if IsLower(c) then (c as int - 32) as char else c
  }

  /** `String.prototype.toLowerCase`, ASCII letters only. */
  function LowerStr(s: string): (r: string)
    ensures |r| == |s|
    ensures forall i | 0 <= i < |s| :: r[i] == ToLower(s[i])
  {
    seq(|s|, i requires 0 <= i < |s| => ToLower(s[i]))
  }

  /** Lower-casing twice is lower-casing once: a lower-cased key is its own normal form. */
  lemma LowerStrIdempotent(s: string)
    ensures LowerStr(LowerStr(s)) == LowerStr(s)
  {
  }

  /** A string-or-undefined value is truthy in JavaScript: present and non-empty. */
  predicate Truthy(value: Option<string>) {
    value.Some? && value.value != ""
  }

  /**
   * JavaScript `value || fallback` where `value` is a string or undefined: an
   * empty string is falsy and falls back too.
   */
  function Or(value: Option<string>, fallback: string): (r: string)
    ensures Truthy(value) ==> r == value.value
    ensures !Truthy(value) ==> r == fallback
    ensures fallback != "" ==> r != ""
  {
    if value.Some? && value.value != "" then value.value else fallback
  }

  /** `parts.join(sep)`. */
  function Join(sep: string, parts: seq<string>): (r: string)
    ensures |parts| > 0 ==> |parts[0]| <= |r| && r[..|parts[0]|] == parts[0]
  {
    if |parts| == 0 then ""
    else if |parts| == 1 then parts[0]
    else parts[0] + sep + Join(sep, parts[1..])
  }

  /** `parts.join("")`. */
  function Concat(parts: seq<string>): string
  {
    Join("", parts)
  }

  /** A character in neither the separator nor any part is not in the joined string. */
  lemma {:induction false} JoinAvoids(sep: string, parts: seq<string>, c: char)
    requires c !in sep
    requires forall k | 0 <= k < |parts| :: c !in parts[k]
    ensures c !in Join(sep, parts)
  {
    if |parts| > 1 {
      JoinAvoids(sep, parts[1..], c);
    }
  }

  /** The position of the first `c` in `s`, if any. */
  function IndexOfChar(s: string, c: char): (r: Option<nat>)
    ensures r.Some? ==> r.value < |s| && s[r.value] == c && c !in s[..r.value]
    ensures r.None? ==> c !in s
  {
    if s == [] then None
    else if s[0] == c then Some(0)
    else
      match IndexOfChar(s[1..], c)
      case None => None
      case Some(i) =>
        assert s[..i + 1] == [s[0]] + s[1..][..i];
        Some(i + 1)
  }

  /** The first `c` is at `i` when `s[i]` is `c` and no earlier character is. */
  lemma {:induction false} IndexOfCharAt(s: string, i: nat, c: char)
    requires i < |s| && s[i] == c && c !in s[..i]
    ensures IndexOfChar(s, c) == Some(i)
  {
    if i > 0 {
      assert s[0] in s[..i];
      assert s[1..][..i - 1] == s[1..i];
      assert forall x | x in s[1..i] :: x in s[..i];
      IndexOfCharAt(s[1..], i - 1, c);
    }
  }

  /** `s.split(sep)` for a one-character string separator. */
  function SplitOn(s: string, sep: char): (parts: seq<string>)
    decreases |s|
    ensures |parts| >= 1
    ensures forall k | 0 <= k < |parts| :: sep !in parts[k]
  {
    match IndexOfChar(s, sep)
    case None => [s]
    case Some(i) => [s[..i]] + SplitOn(s[i + 1..], sep)
  }

  /** Joining the parts with the separator gives back the string that was split. */
  lemma {:induction false} JoinSplitOn(s: string, sep: char)
    decreases |s|
    ensures Join([sep], SplitOn(s, sep)) == s
  {
    match IndexOfChar(s, sep)
    case None =>
      assert SplitOn(s, sep) == [s];
    case Some(i) =>
      var tail := s[i + 1..];
      var rest := SplitOn(tail, sep);
      calc {
        Join([sep], SplitOn(s, sep));
        Join([sep], [s[..i]] + rest);
        { JoinCons([sep], s[..i], rest); }
        s[..i] + [sep] + Join([sep], rest);
        { JoinSplitOn(tail, sep); }
        s[..i] + [sep] + tail;
        { assert s == s[..i] + [sep] + tail; }
        s;
      }
  }

  lemma JoinCons(sep: string, x: string, rest: seq<string>)
    requires |rest| >= 1
    ensures Join(sep, [x] + rest) == x + sep + Join(sep, rest)
  {
    assert ([x] + rest)[1..] == rest;
  }

  /** `last` ends `s`, and is either all of `s` or preceded there by `sep`. */
  predicate EndsAfter(s: string, last: string, sep: char) {
    && |last| <= |s| && s[|s| - |last|..] == last
    && (|last| < |s| ==> s[|s| - |last| - 1] == sep)
  }

  /**
   * `s.split(sep).pop()` is the part of `s` after its last `sep` (all of `s`
   * when there is none).
   */
  lemma {:induction false} SplitOnLast(s: string, sep: char)
    decreases |s|
    ensures var parts := SplitOn(s, sep); EndsAfter(s, parts[|parts| - 1], sep)
  {
    match IndexOfChar(s, sep)
    case None =>
      assert SplitOn(s, sep) == [s];
      assert s[|s| - |s|..] == s;
    case Some(i) =>
      var tail := s[i + 1..];
      SplitOnLast(tail, sep);
      var rest := SplitOn(tail, sep);
      assert SplitOn(s, sep) == [s[..i]] + rest;
      SuffixAfter(s, i, rest[|rest| - 1], sep);
  }

  /** What ends `s[i + 1..]` after a `sep` ends `s` after one too, when `s[i]` is `sep`. */
  lemma SuffixAfter(s: string, i: nat, last: string, sep: char)
    requires i < |s| && s[i] == sep
    requires EndsAfter(s[i + 1..], last, sep)
    ensures EndsAfter(s, last, sep)
  {
    var tail := s[i + 1..];
    var d := |tail| - |last|;
    assert |s| - |last| == i + 1 + d;
    assert forall k | d <= k < |tail| :: tail[k] == s[i + 1 + k];
    assert s[|s| - |last|..] == tail[d..];
    if |last| < |tail| {
      assert s[|s| - |last| - 1] == tail[d - 1];
    }
  }

  /** Splitting at a separator splits the two sides independently. */
  lemma {:induction false} SplitOnAround(a: string, b: string, sep: char)
    decreases |a|
    ensures SplitOn(a + [sep] + b, sep) == SplitOn(a, sep) + SplitOn(b, sep)
  {
    var t := a + [sep] + b;
    match IndexOfChar(a, sep)
    case None =>
      assert t[..|a|] == a && t[|a| + 1..] == b;
      IndexOfCharAt(t, |a|, sep);
    case Some(i) =>
      assert t[..i] == a[..i] && t[i + 1..] == a[i + 1..] + [sep] + b;
      IndexOfCharAt(t, i, sep);
      SplitOnAround(a[i + 1..], b, sep);
  }

  /** A string without the separator splits into itself. */
  lemma {:induction false} SplitOnWithoutSeparator(s: string, sep: char)
    requires sep !in s
    ensures SplitOn(s, sep) == [s]
  {
  }

  /** Round trip: splitting a join recovers the parts when no part holds the separator. */
  lemma {:induction false} SplitOnJoin(parts: seq<string>, sep: char)
    requires |parts| >= 1
    requires forall k | 0 <= k < |parts| :: sep !in parts[k]
    ensures SplitOn(Join([sep], parts), sep) == parts
  {
    if |parts| == 1 {
      SplitOnWithoutSeparator(parts[0], sep);
    } else {
      var head, rest := parts[0], parts[1..];
      calc {
        SplitOn(Join([sep], parts), sep);
        SplitOn(head + [sep] + Join([sep], rest), sep);
        { SplitOnAround(head, Join([sep], rest), sep); }
        SplitOn(head, sep) + SplitOn(Join([sep], rest), sep);
        { SplitOnWithoutSeparator(head, sep);
          assert forall k | 0 <= k < |rest| :: rest[k] == parts[k + 1];
          SplitOnJoin(rest, sep); }
        [head] + rest;
        { assert parts == [head] + rest; }
        parts;
      }
    }
  }
}
