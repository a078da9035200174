/**
 * The JavaScript string operations the outage parser relies on, over `seq<char>`:
 * `indexOf`/`includes`, `split`, `join`, `trim`, `toLowerCase` (restricted to the
 * Latin and Cyrillic letters the application matches on), `replace` with a string
 * pattern (first occurrence only) and the anchored prefix strips its regexes perform.
 */
module Strings {
  import opened Wrappers

  /** `sub` occurs in `s` starting at index `i`. */
  predicate OccursAt(s: string, sub: string, i: int) {
    0 <= i && i + |sub| <= |s| && s[i..i + |sub|] == sub
  }

  /** The first occurrence of `sub` in `s` at or after `from` (`s.indexOf(sub, from)`). */
  function IndexOfFrom(s: string, sub: string, from: nat): (r: Option<nat>)
    ensures r.Some? ==> from <= r.value && OccursAt(s, sub, r.value)
    ensures forall j :: from <= j && (r.None? || j < r.value) ==> !OccursAt(s, sub, j)
    decreases |s| - from
  {
    if from + |sub| > |s| then None
    else if s[from..from + |sub|] == sub then Some(from)
    else IndexOfFrom(s, sub, from + 1)
  }

  function IndexOf(s: string, sub: string): Option<nat> {
    IndexOfFrom(s, sub, 0)
  }

  /** `s.includes(sub)`. */
  predicate Contains(s: string, sub: string)
    ensures Contains(s, sub) <==> exists i :: OccursAt(s, sub, i)
  {
    IndexOf(s, sub).Some?
  }

  predicate StartsWith(s: string, prefix: string) {
    |prefix| <= |s| && s[..|prefix|] == prefix
  }

  /** A one-character pattern occurs exactly when the character is in the string. */
  lemma ContainsChar(s: string, c: char)
    ensures Contains(s, [c]) <==> c in s
  {
    if c in s {
      var i :| 0 <= i < |s| && s[i] == c;
      assert OccursAt(s, [c], i);
    }
    if Contains(s, [c]) {
      var i :| OccursAt(s, [c], i);
      assert s[i..i + 1][0] == s[i];
    }
  }

  /** An occurrence inside a piece is an occurrence in any string around it. */
  lemma ContainsInside(pre: string, x: string, post: string, sub: string)
    requires Contains(x, sub)
    ensures Contains(pre + x + post, sub)
  {
    var i :| OccursAt(x, sub, i);
    var s := pre + x + post;
    assert s[|pre| + i..|pre| + i + |sub|] == x[i..i + |sub|];
    assert OccursAt(s, sub, |pre| + i);
  }

  /** A pattern without `c`, absent from `a` and from `b`, does not straddle the `c` between them. */
  lemma NotAcross(a: string, c: char, b: string, sub: string)
    requires c !in sub && !Contains(a, sub) && !Contains(b, sub)
    ensures !Contains(a + [c] + b, sub)
  {
    var s := a + [c] + b;
    forall i | 0 <= i && i + |sub| <= |s| ensures !OccursAt(s, sub, i) {
      if i + |sub| <= |a| {
        assert s[i..i + |sub|] == a[i..i + |sub|];
        assert !OccursAt(a, sub, i);
      } else if i > |a| {
        assert s[i..i + |sub|] == b[i - |a| - 1..i - |a| - 1 + |sub|];
        assert !OccursAt(b, sub, i - |a| - 1);
      } else {
        assert s[i..i + |sub|][|a| - i] == c;
      }
    }
  }

  /** A pattern that does not contain `c` cannot straddle a `c` placed between two strings. */
  lemma ContainsAcross(a: string, c: char, b: string, sub: string)
    requires c !in sub
    ensures Contains(a + [c] + b, sub) <==> Contains(a, sub) || Contains(b, sub)
  {
    if Contains(a, sub) {
      ContainsInside([], a, [c] + b, sub);
      assert [] + a + ([c] + b) == a + [c] + b;
    } else if Contains(b, sub) {
      ContainsInside(a + [c], b, [], sub);
      assert a + [c] + b + [] == a + [c] + b;
    } else {
      NotAcross(a, c, b, sub);
    }
  }

  /** If `b` begins with `sub` and `sub` can neither lie inside `a` nor straddle the
      separating `c`, the first occurrence of `sub` in `a + [c] + b` is where `b` begins. */
  lemma IndexOfAfterSeparator(a: string, c: char, b: string, sub: string)
    requires c !in sub && !Contains(a, sub) && StartsWith(b, sub)
    ensures IndexOf(a + [c] + b, sub) == Some(|a| + 1)
  {
    var s := a + [c] + b;
    assert s[|a| + 1..|a| + 1 + |sub|] == b[..|sub|];
    assert OccursAt(s, sub, |a| + 1);
    forall j | 0 <= j < |a| + 1
      ensures !OccursAt(s, sub, j)
    {
      if j + |sub| <= |a| {
        assert s[j..j + |sub|] == a[j..j + |sub|];
        assert !OccursAt(a, sub, j);
      } else if j + |sub| <= |s| {
        assert s[j..j + |sub|][|a| - j] == c;
      }
    }
  }

  /** A string without any occurrence of the pattern. */
  lemma IndexOfAbsent(s: string, sub: string)
    requires !Contains(s, sub)
    ensures IndexOf(s, sub) == None
  {
  }

  // ---------------------------------------------------------------------------
  // split and join

  /** `s.split(sep)` for a non-empty separator: the pieces between occurrences, left to right. */
  function Split(s: string, sep: string): (parts: seq<string>)
    requires sep != []
    ensures |parts| >= 1
    ensures forall k :: 0 <= k < |parts| ==> !Contains(parts[k], sep)
    decreases |s|
  {
    match IndexOf(s, sep)
    case None => [s]
    case Some(i) =>
      assert !Contains(s[..i], sep) by {
        forall j | OccursAt(s[..i], sep, j) ensures false {
          assert s[j..j + |sep|] == s[..i][j..j + |sep|];
          assert OccursAt(s, sep, j);
        }
      }
      [s[..i]] + Split(s[i + |sep|..], sep)
  }

  /** `parts.join(sep)`. */
  function Join(parts: seq<string>, sep: string): string
    decreases |parts|
  {
    if |parts| == 0 then []
    else if |parts| == 1 then parts[0]
    else parts[0] + sep + Join(parts[1..], sep)
  }

  /** Joining a piece in front of at least one other puts one separator between them. */
  lemma JoinCons(x: string, parts: seq<string>, sep: string)
    requires parts != []
    ensures Join([x] + parts, sep) == x + sep + Join(parts, sep)
  {
    assert ([x] + parts)[1..] == parts;
  }

  /** A string is what precedes an occurrence, the occurrence, and what follows it. */
  lemma AroundOccurrence(s: string, sub: string, i: int)
    requires OccursAt(s, sub, i)
    ensures s == s[..i] + sub + s[i + |sub|..]
  {
    assert s == s[..i] + s[i..i + |sub|] + s[i + |sub|..];
  }

  /** The first piece of a split on a character is the prefix up to the first occurrence of it. */
  lemma SplitHead(s: string, c: char)
    ensures var head := Split(s, [c])[0];
              |head| <= |s| && head == s[..|head|] && (|head| == |s| || s[|head|] == c)
  {
    match IndexOf(s, [c])
    case None =>
    case Some(i) =>
      assert OccursAt(s, [c], i);
      assert s[i..i + 1][0] == s[i];
  }

  /** Joining the pieces back together gives the original string. */
  lemma {:induction false} JoinSplit(s: string, sep: string)
    requires sep != []
    ensures Join(Split(s, sep), sep) == s
    decreases |s|
  {
    match IndexOf(s, sep)
    case None =>
    case Some(i) =>
      var rest := s[i + |sep|..];
      assert Split(s, sep) == [s[..i]] + Split(rest, sep);
      JoinSplit(rest, sep);
      JoinCons(s[..i], Split(rest, sep), sep);
      AroundOccurrence(s, sep, i);
  }

  /** A string without the separator character is a single piece. */
  lemma SplitNone(s: string, c: char)
    requires c !in s
    ensures Split(s, [c]) == [s]
  {
    ContainsChar(s, c);
    IndexOfAbsent(s, [c]);
  }

  /** The first piece ends at the first separator character. */
  lemma SplitFirst(a: string, c: char, rest: string)
    requires c !in a
    ensures Split(a + [c] + rest, [c]) == [a] + Split(rest, [c])
  {
    var s := a + [c] + rest;
    assert OccursAt(s, [c], |a|);
    forall j | 0 <= j < |a| ensures !OccursAt(s, [c], j) {
      assert s[j] == a[j];
    }
    assert IndexOf(s, [c]) == Some(|a|);
    assert s[..|a|] == a;
    assert s[|a| + 1..] == rest;
  }

  /** Splitting a join on a one-character separator that no piece contains gives the pieces back. */
  lemma {:induction false} SplitJoin(parts: seq<string>, c: char)
    requires |parts| >= 1
    requires forall k :: 0 <= k < |parts| ==> c !in parts[k]
    ensures Split(Join(parts, [c]), [c]) == parts
    decreases |parts|
  {
    if |parts| == 1 {
      SplitNone(parts[0], c);
    } else {
      var rest := Join(parts[1..], [c]);
      assert Join(parts, [c]) == parts[0] + [c] + rest;
      SplitFirst(parts[0], c, rest);
      SplitJoin(parts[1..], c);
    }
  }

  /** When `sep` occurs first at `i` and not at all in what follows, there are exactly two pieces. */
  lemma SplitInTwo(s: string, sep: string, i: nat)
    requires sep != []
    requires IndexOf(s, sep) == Some(i)
    requires !Contains(s[i + |sep|..], sep)
    ensures Split(s, sep) == [s[..i], s[i + |sep|..]]
  {
    IndexOfAbsent(s[i + |sep|..], sep);
  }

  /** A pattern right after a separating `c`, and nowhere else, splits the text at that place. */
  lemma SplitAfterSeparator(a: string, c: char, m: string, tail: string)
    requires m != [] && c !in m && !Contains(a, m) && !Contains(tail, m)
    ensures Split(a + [c] + (m + tail), m) == [a + [c], tail]
  {
    var t := m + tail;
    var s := a + [c] + t;
    assert IndexOf(s, m) == Some(|a| + 1) by {
      assert t[..|m|] == m;
      IndexOfAfterSeparator(a, c, t, m);
    }
    assert s[..|a| + 1] == a + [c];
    assert s[|a| + 1 + |m|..] == tail;
    SplitInTwo(s, m, |a| + 1);
  }

  /** A marker on a line of its own splits the text into what precedes and what follows it, newlines included. */
  lemma SplitAroundLine(a: string, m: string, b: string)
    requires m != [] && '\n' !in m && !Contains(a, m) && !Contains(b, m)
    ensures Split(a + "\n" + m + "\n" + b, m) == [a + "\n", "\n" + b]
  {
    var tail := "\n" + b;
    assert a + "\n" + m + "\n" + b == a + ['\n'] + (m + tail);
    assert !Contains(tail, m) by {
      assert tail == [] + ['\n'] + b;
      ContainsAcross([], '\n', b, m);
    }
    SplitAfterSeparator(a, '\n', m, tail);
  }

  /** A pattern longer than the string cannot occur in it. */
  lemma ShortNotContains(s: string, sub: string)
    requires |s| < |sub|
    ensures !Contains(s, sub)
  {
  }

  // ---------------------------------------------------------------------------
  // decimal digits

  predicate IsDigit(c: char) {
    '0' <= c <= '9'
  }

  /** The character of a decimal digit. */
  function Digit(n: nat): (c: char)
    requires n < 10
    ensures IsDigit(c)
  {
    ('0' as int + n) as char
  }

  function DigitValue(c: char): (n: nat)
    requires IsDigit(c)
    ensures n < 10 && Digit(n) == c
  {
    c as int - '0' as int
  }

  predicate AllDigits(s: string) {
    forall k :: 0 <= k < |s| ==> IsDigit(s[k])
  }

  /** JavaScript's `%` on integers: the remainder takes the sign of the dividend. */
  function JsRem(a: int, b: int): (r: int)
    requires b > 0
    ensures a >= 0 ==> r == a % b
    ensures a < 0 ==> -b < r <= 0
  {
    if a >= 0 then a % b else -((-a) % b)
  }

  /** `String(n)` for a non-negative integer: its decimal digits, without leading zeros. */
  function NatToString(n: nat): (s: string)
    ensures |s| >= 1 && AllDigits(s)
    ensures n < 10 <==> |s| == 1
    decreases n
  {
    if n < 10 then [Digit(n)] else NatToString(n / 10) + [Digit(n % 10)]
  }

  /** `String(i)` for any integer. */
  function IntToString(i: int): string {
    if i < 0 then "-" + NatToString(-i) else NatToString(i)
  }

  /** The number a string of decimal digits denotes. */
  function DigitsValue(s: string): nat
    requires AllDigits(s)
  {
    if s == [] then 0 else DigitsValue(s[..|s| - 1]) * 10 + DigitValue(s[|s| - 1])
  }

  /** Reading the decimal digits back gives the number. */
  lemma {:induction false} NatToStringRoundTrip(n: nat)
    ensures DigitsValue(NatToString(n)) == n
    decreases n
  {
    var s := NatToString(n);
    if n < 10 {
      assert s[..0] == [];
    } else {
      assert s[..|s| - 1] == NatToString(n / 10);
      NatToStringRoundTrip(n / 10);
    }
  }

  /** No number is written with a leading zero, except zero itself. */
  lemma {:induction false} NatToStringNoLeadingZero(n: nat)
    ensures NatToString(n)[0] == '0' <==> n == 0
    decreases n
  {
    if n >= 10 {
      NatToStringNoLeadingZero(n / 10);
    }
  }

  // ---------------------------------------------------------------------------
  // trim

  /** The characters `String.prototype.trim` removes: ECMAScript WhiteSpace and LineTerminator. */
  predicate IsWhitespace(c: char) {
    c == '\t' || c == '\n' || c == '\U{000B}' || c == '\U{000C}' || c == '\r' || c == ' '
    || c == '\U{00A0}' || c == '\U{1680}' || ('\U{2000}' <= c <= '\U{200A}')
    || c == '\U{2028}' || c == '\U{2029}' || c == '\U{202F}' || c == '\U{205F}'
    || c == '\U{3000}' || c == '\U{FEFF}'
  }

  /** Neither end of `s` is whitespace: `trim` leaves it alone. */
  predicate IsTrimmed(s: string) {
    s == [] || (!IsWhitespace(s[0]) && !IsWhitespace(s[|s| - 1]))
  }

  /** The first index at or after `i` holding no whitespace, or `|s|` when there is none. */
  function SkipSpaceForward(s: string, i: nat): (k: nat)
    requires i <= |s|
    ensures i <= k <= |s|
    ensures k < |s| ==> !IsWhitespace(s[k])
    decreases |s| - i
  {
    if i < |s| && IsWhitespace(s[i]) then SkipSpaceForward(s, i + 1) else i
  }

  /** The least `k` with `lo <= k <= j` such that `s[k..j]` is all whitespace. */
  function SkipSpaceBackward(s: string, lo: nat, j: nat): (k: nat)
    requires lo <= j <= |s|
    ensures lo <= k <= j
    ensures k > lo ==> !IsWhitespace(s[k - 1])
    decreases j
  {
    if j > lo && IsWhitespace(s[j - 1]) then SkipSpaceBackward(s, lo, j - 1) else j
  }

  /** `s.trim()`: the slice of `s` between its leading and its trailing whitespace. */
  function Trim(s: string): (r: string)
    ensures IsTrimmed(r)
  {
    var i := SkipSpaceForward(s, 0);
    s[i..SkipSpaceBackward(s, i, |s|)]
  }

  /** Everything skipped going forward is whitespace. */
  lemma {:induction false} SkippedForwardAreSpaces(s: string, i: nat)
    requires i <= |s|
    ensures forall k :: i <= k < SkipSpaceForward(s, i) ==> IsWhitespace(s[k])
    decreases |s| - i
  {
    if i < |s| && IsWhitespace(s[i]) {
      SkippedForwardAreSpaces(s, i + 1);
    }
  }

  /** Everything skipped going backward is whitespace. */
  lemma {:induction false} SkippedBackwardAreSpaces(s: string, lo: nat, j: nat)
    requires lo <= j <= |s|
    ensures forall k :: SkipSpaceBackward(s, lo, j) <= k < j ==> IsWhitespace(s[k])
    decreases j
  {
    if j > lo && IsWhitespace(s[j - 1]) {
      SkippedBackwardAreSpaces(s, lo, j - 1);
    }
  }

  /** `trim` keeps a slice of `s` and cuts away only whitespace on either side. */
  lemma TrimCutsOnlyWhitespace(s: string)
    ensures exists i, j ::
              && 0 <= i <= j <= |s| && Trim(s) == s[i..j]
              && (forall k :: 0 <= k < i ==> IsWhitespace(s[k]))
              && (forall k :: j <= k < |s| ==> IsWhitespace(s[k]))
  {
    var i := SkipSpaceForward(s, 0);
    var j := SkipSpaceBackward(s, i, |s|);
    SkippedForwardAreSpaces(s, 0);
    SkippedBackwardAreSpaces(s, i, |s|);
    assert Trim(s) == s[i..j];
  }

  /** `trim` is the identity exactly on trimmed strings, so it is idempotent. */
  lemma TrimIdentity(s: string)
    ensures Trim(s) == s <==> IsTrimmed(s)
  {
    if IsTrimmed(s) && s != [] {
      assert SkipSpaceForward(s, 0) == 0;
      assert SkipSpaceBackward(s, 0, |s|) == |s|;
      assert s[0..|s|] == s;
    }
  }

  /** Skipping forward only looks at the characters it passes. */
  lemma {:induction false} SkipForwardPrefix(s: string, t: string, i: nat)
    requires |s| <= |t| && t[..|s|] == s && i <= |s|
    ensures SkipSpaceForward(s, i) < |s| ==> SkipSpaceForward(t, i) == SkipSpaceForward(s, i)
    ensures SkipSpaceForward(s, i) == |s| ==> SkipSpaceForward(t, i) == SkipSpaceForward(t, |s|)
    decreases |s| - i
  {
    if i < |s| {
      assert t[i] == s[i];
      if IsWhitespace(s[i]) {
        SkipForwardPrefix(s, t, i + 1);
      }
    }
  }

  /** Skipping backward from inside a prefix only looks at that prefix. */
  lemma {:induction false} SkipBackwardPrefix(s: string, t: string, lo: nat, j: nat)
    requires |s| <= |t| && t[..|s|] == s && lo <= j <= |s|
    ensures SkipSpaceBackward(t, lo, j) == SkipSpaceBackward(s, lo, j)
    decreases j
  {
    if j > lo {
      assert t[j - 1] == s[j - 1];
      SkipBackwardPrefix(s, t, lo, j - 1);
    }
  }

  /** Skipping forward over a string with one more character in front. */
  lemma {:induction false} SkipForwardShift(c: char, s: string, i: nat)
    requires i <= |s|
    ensures SkipSpaceForward([c] + s, i + 1) == SkipSpaceForward(s, i) + 1
    decreases |s| - i
  {
    var t := [c] + s;
    if i < |s| {
      assert t[i + 1] == s[i];
      if IsWhitespace(s[i]) {
        SkipForwardShift(c, s, i + 1);
      }
    }
  }

  /** Skipping backward over a string with one more character in front. */
  lemma {:induction false} SkipBackwardShift(c: char, s: string, lo: nat, j: nat)
    requires lo <= j <= |s|
    ensures SkipSpaceBackward([c] + s, lo + 1, j + 1) == SkipSpaceBackward(s, lo, j) + 1
    decreases j
  {
    var t := [c] + s;
    if j > lo {
      assert t[j] == s[j - 1];
      SkipBackwardShift(c, s, lo, j - 1);
    }
  }

  /** Trailing whitespace does not survive `trim`. */
  lemma TrimDropsTrailing(s: string, c: char)
    requires IsWhitespace(c)
    ensures Trim(s + [c]) == Trim(s)
  {
    var t := s + [c];
    assert t[..|s|] == s;
    var i := SkipSpaceForward(s, 0);
    SkipForwardPrefix(s, t, 0);
    if i < |s| {
      assert SkipSpaceBackward(t, i, |t|) == SkipSpaceBackward(t, i, |s|);
      SkipBackwardPrefix(s, t, i, |s|);
      var j := SkipSpaceBackward(s, i, |s|);
      assert t[i..j] == s[i..j];
    } else {
      assert t[|s|] == c;
      assert SkipSpaceForward(t, |s|) == |t|;
    }
  }

  /** A slice of `s` is the slice one place further on of `s` with a character in front. */
  lemma SliceOfCons(c: char, s: string, i: nat, j: nat)
    requires i <= j <= |s|
    ensures ([c] + s)[i + 1..j + 1] == s[i..j]
  {
    var r := ([c] + s)[i + 1..j + 1];
    assert forall k :: 0 <= k < |r| ==> r[k] == s[i + k];
  }

  /** `trim` keeps what lies between the two places where skipping whitespace stops. */
  lemma TrimBetween(s: string, i: nat, j: nat)
    requires i <= |s| && SkipSpaceForward(s, 0) == i
    requires i <= j <= |s| && SkipSpaceBackward(s, i, |s|) == j
    ensures Trim(s) == s[i..j]
  {
  }

  /** Leading whitespace does not survive `trim`. */
  lemma TrimDropsLeading(c: char, s: string)
    requires IsWhitespace(c)
    ensures Trim([c] + s) == Trim(s)
  {
    var t := [c] + s;
    var i := SkipSpaceForward(s, 0);
    var j := SkipSpaceBackward(s, i, |s|);
    assert SkipSpaceForward(t, 0) == i + 1 by {
      assert t[0] == c;
      SkipForwardShift(c, s, 0);
    }
    SkipBackwardShift(c, s, i, |s|);
    TrimBetween(s, i, j);
    TrimBetween(t, i + 1, j + 1);
    SliceOfCons(c, s, i, j);
  }

  /** A character absent from `s` is absent from `trim(s)`, which is a slice of `s`. */
  lemma TrimKeepsAbsent(s: string, c: char)
    requires c !in s
    ensures c !in Trim(s)
  {
    var i := SkipSpaceForward(s, 0);
    var r := s[i..SkipSpaceBackward(s, i, |s|)];
    assert forall k :: 0 <= k < |r| ==> r[k] == s[i + k];
  }

  /** Where a pattern occurs, so does each of its prefixes. */
  lemma ContainsPrefixOfPattern(s: string, sub: string, p: string)
    requires StartsWith(sub, p) && Contains(s, sub)
    ensures Contains(s, p)
  {
    var i :| OccursAt(s, sub, i);
    assert s[i..i + |p|] == s[i..i + |sub|][..|p|];
    assert OccursAt(s, p, i);
  }

  /** A pattern whose first character does not appear in `s` does not occur in `s`. */
  lemma AbsentFirstChar(s: string, sub: string)
    requires sub != [] && sub[0] !in s
    ensures !Contains(s, sub)
  {
    forall i | 0 <= i && i + |sub| <= |s| ensures !OccursAt(s, sub, i) {
      assert s[i..i + |sub|][0] == s[i] != sub[0];
    }
  }

  /** Joining on a character that the pattern lacks creates no new occurrence. */
  lemma {:induction false} JoinKeepsAbsent(parts: seq<string>, c: char, sub: string)
    requires c !in sub && sub != []
    requires forall k :: 0 <= k < |parts| ==> !Contains(parts[k], sub)
    ensures !Contains(Join(parts, [c]), sub)
    decreases |parts|
  {
    if |parts| > 1 {
      JoinKeepsAbsent(parts[1..], c, sub);
      ContainsAcross(parts[0], c, Join(parts[1..], [c]), sub);
    }
  }

  /** Joining non-empty trimmed pieces on a whitespace separator gives a trimmed string. */
  lemma {:induction false} JoinTrimmed(parts: seq<string>, sep: string)
    requires forall k :: 0 <= k < |parts| ==> parts[k] != [] && IsTrimmed(parts[k])
    ensures IsTrimmed(Join(parts, sep))
    ensures |parts| > 0 ==> Join(parts, sep) != [] && Join(parts, sep)[0] == parts[0][0]
    decreases |parts|
  {
    if |parts| > 1 {
      JoinTrimmed(parts[1..], sep);
      var rest := Join(parts[1..], sep);
      assert (parts[0] + sep + rest)[0] == parts[0][0];
      assert (parts[0] + sep + rest)[|parts[0] + sep + rest| - 1] == rest[|rest| - 1];
    }
  }

  // ---------------------------------------------------------------------------
  // toLowerCase, restricted to Latin and Cyrillic capitals

  /** Lower-cases ASCII capitals, the Cyrillic capitals U+0400..U+042F and Ґ; other characters are kept. */
  function LowerChar(c: char): char {
    if 'A' <= c <= 'Z' then (c as int + 32) as char
    else if '\U{0410}' <= c <= '\U{042F}' then (c as int + 32) as char
    else if '\U{0400}' <= c <= '\U{040F}' then (c as int + 80) as char
    else if c == '\U{0490}' then '\U{0491}'
    else c
  }

  function ToLower(s: string): (r: string)
    ensures |r| == |s|
  {
    seq(|s|, i requires 0 <= i < |s| => LowerChar(s[i]))
  }

  /** Lower-casing twice is lower-casing once. */
  lemma ToLowerIdempotent(s: string)
    ensures ToLower(ToLower(s)) == ToLower(s)
  {
  }

  /** Lower-casing works character by character, so it distributes over concatenation. */
  lemma ToLowerConcat(a: string, b: string)
    ensures ToLower(a + b) == ToLower(a) + ToLower(b)
  {
  }

  /** A string in which every character lower-cases to itself is left unchanged. */
  lemma ToLowerFixed(s: string)
    requires forall k :: 0 <= k < |s| ==> LowerChar(s[k]) == s[k]
    ensures ToLower(s) == s
  {
  }

  /** A string occurs at the end of anything it is appended to. */
  lemma ContainsAppended(s: string, w: string)
    ensures Contains(s + w, w)
  {
    assert (s + w)[|s|..|s| + |w|] == w;
    assert OccursAt(s + w, w, |s|);
  }

  // ---------------------------------------------------------------------------
  // replace

  /** `s.replace(pattern, rep)` with a string pattern: only the first occurrence is replaced. */
  function ReplaceFirst(s: string, pattern: string, rep: string): string {
    match IndexOf(s, pattern)
    case None => s
    case Some(i) => s[..i] + rep + s[i + |pattern|..]
  }

  /** Replacing a pattern that starts the string removes exactly that prefix. */
  lemma ReplaceAtStart(p: string, s: string)
    ensures ReplaceFirst(p + s, p, "") == s
  {
    assert OccursAt(p + s, p, 0);
    assert (p + s)[|p|..] == s;
  }

  /** `s.replace(/^p/, '')` for a literal `p`: drop one leading copy of `p`, if present. */
  function StripPrefix(s: string, p: string): (r: string)
    ensures StartsWith(s, p) ==> s == p + r
    ensures !StartsWith(s, p) ==> r == s
  {
    if StartsWith(s, p) then s[|p|..] else s
  }

  /** `s.replace(/p$/, '')` for a literal `p`: drop one trailing copy of `p`, if present. */
  function StripSuffix(s: string, p: string): (r: string)
    ensures |p| <= |s| && s[|s| - |p|..] == p ==> s == r + p
    ensures !(|p| <= |s| && s[|s| - |p|..] == p) ==> r == s
  {
    if |p| <= |s| && s[|s| - |p|..] == p then s[..|s| - |p|] else s
  }
}
