// Shared helpers: an Option type and the JavaScript string operations the
// backend and the client pages rely on (trim, split, join, ASCII lower-case).

module Common {

  datatype Option<+T> = None | Some(value: T)

  /** JavaScript's "falsy" test on an optional string: missing or empty. */
  predicate Falsy(s: Option<string>) {
    s.None? || s.value == ""
  }

  /** `s || fallback` on an optional string. */
  function OrElse(s: Option<string>, fallback: string): (r: string)
    ensures Falsy(s) ==> r == fallback
    ensures !Falsy(s) ==> r == s.value
  {
    if Falsy(s) then fallback else s.value
  }

  /** `Math.max(a, b)` */
  function Max(a: int, b: int): (m: int)
    ensures m >= a && m >= b && (m == a || m == b)
  {
    if a >= b then a else b
  }

  /** `Object.keys(m).length === 0`: a map with no entries has no keys. */
  lemma EmptyMap<K, V>(m: map<K, V>)
    ensures |m| == 0 <==> forall k :: k !in m
  {
    if |m| != 0 {
      assert m.Keys != {};
      var k :| k in m.Keys;
    }
  }

  /** Sum of a sequence of counts. */
  function Sum(xs: seq<nat>): nat {
    if xs == [] then 0 else xs[0] + Sum(xs[1..])
  }
}

module JsText {

  /** ECMAScript WhiteSpace and LineTerminator code points: what `trim()` strips
      and what `\s` matches in a regular expression. */
  predicate IsSpace(c: char) {
    c == ' ' || c == '\t' || c == '\n' || c == '\r' || c == '\U{000B}' || c == '\U{000C}'
    || c == '\U{00A0}' || c == '\U{1680}' || ('\U{2000}' <= c <= '\U{200A}')
    || c == '\U{2028}' || c == '\U{2029}' || c == '\U{202F}' || c == '\U{205F}'
    || c == '\U{3000}' || c == '\U{FEFF}'
  }

  predicate AllSpace(s: string) {
    forall i :: 0 <= i < |s| ==> IsSpace(s[i])
  }

  predicate NoSpace(s: string) {
    forall i :: 0 <= i < |s| ==> !IsSpace(s[i])
  }

  /** Index of the first character that is not white space (|s| if none). */
  function TextStart(s: string): (i: nat)
    ensures i <= |s| && AllSpace(s[..i])
    ensures i == |s| || !IsSpace(s[i])
  {
    if s == [] || !IsSpace(s[0]) then 0
    else
      var i := TextStart(s[1..]);
      assert s[..i + 1] == [s[0]] + s[1..][..i];
      i + 1
  }

  /** One past the last character at or after `lo` that is not white space. */
  function TextEnd(s: string, lo: nat): (j: nat)
    requires lo <= |s|
    ensures lo <= j <= |s| && AllSpace(s[j..])
    ensures j == lo || !IsSpace(s[j - 1])
    decreases |s|
  {
    if |s| == lo || !IsSpace(s[|s| - 1]) then |s|
    else
      var j := TextEnd(s[..|s| - 1], lo);
      assert s[j..] == s[..|s| - 1][j..] + [s[|s| - 1]];
      j
  }

  /** `r` is `s` with only white space cut from either end. */
  ghost predicate TrimmedSliceOf(s: string, r: string) {
    exists i :: 0 <= i <= |s| - |r| && r == s[i..i + |r|] && AllSpace(s[..i]) && AllSpace(s[i + |r|..])
  }

  /** `s.trim()`: a slice of `s` that neither starts nor ends with white space,
      with only white space cut away on either side. */
  function Trim(s: string): (r: string)
    ensures |r| <= |s| && TrimmedSliceOf(s, r)
    ensures r == [] || (!IsSpace(r[0]) && !IsSpace(r[|r| - 1]))
  {
    var i := TextStart(s);
    var j := TextEnd(s, i);
    var r := s[i..j];
    assert r == s[i..i + |r|];
    r
  }

  /** A trimmed string is empty exactly when the input is all white space. */
  lemma TrimEmptyIffAllSpace(s: string)
    ensures Trim(s) == [] <==> AllSpace(s)
  {
    var i := TextStart(s);
    if i == |s| {
      assert s[..i] == s;
    }
  }

  /** Trimming a string that has no white space at either end changes nothing. */
  lemma TrimOfTrimmed(s: string)
    requires s == [] || (!IsSpace(s[0]) && !IsSpace(s[|s| - 1]))
    ensures Trim(s) == s
  {
  }

  /** Trimming only removes characters. */
  lemma TrimKeepsChars(s: string)
    ensures forall c :: c in Trim(s) ==> c in s
  {
    var i := TextStart(s);
    var j := TextEnd(s, i);
    assert Trim(s) == s[i..j];
    assert forall k :: 0 <= k < j - i ==> s[i..j][k] == s[i + k];
  }

  /** A leading white-space character is cut away by `trim()`. */
  lemma TrimSpacePrefix(c: char, s: string)
    requires IsSpace(c)
    ensures Trim([c] + s) == Trim(s)
  {
    var t := [c] + s;
    assert t[1..] == s;
    var i := TextStart(s);
    assert TextStart(t) == i + 1;
    TextEndShift(c, s, i);
    assert t[i + 1..TextEnd(s, i) + 1] == s[i..TextEnd(s, i)];
  }

  /** One more character in front moves the end of the text by one place. */
  lemma {:induction false} TextEndShift(c: char, s: string, lo: nat)
    requires lo <= |s|
    ensures TextEnd([c] + s, lo + 1) == TextEnd(s, lo) + 1
    decreases |s|
  {
    var t := [c] + s;
    if |s| != lo && IsSpace(s[|s| - 1]) {
      assert t[..|t| - 1] == [c] + s[..|s| - 1];
      TextEndShift(c, s[..|s| - 1], lo);
    }
  }

  /** `parts.join(sep)`. */
  function Join(parts: seq<string>, sep: string): (r: string)
  {
    if parts == [] then []
    else if |parts| == 1 then parts[0]
    else parts[0] + sep + Join(parts[1..], sep)
  }

  /** `s.split(sep)` for a one-character separator. */
  function Split(s: string, sep: char): (r: seq<string>)
    ensures |r| >= 1
  {
    if s == [] then [[]]
    else
      var rest := Split(s[1..], sep);
      if s[0] == sep then [[]] + rest
      else [[s[0]] + rest[0]] + rest[1..]
  }

  /** No piece of a split holds the separator, and joining the pieces back
      gives the string that was split. */
  lemma {:induction false} SplitMeaning(s: string, sep: char)
    ensures forall k :: 0 <= k < |Split(s, sep)| ==> sep !in Split(s, sep)[k]
    ensures Join(Split(s, sep), [sep]) == s
  {
    if s != [] {
      var rest := Split(s[1..], sep);
      SplitMeaning(s[1..], sep);
      if s[0] == sep {
        assert [sep] + Join(rest, [sep]) == s;
        JoinCons([], rest, sep);
      } else {
        var r := [[s[0]] + rest[0]] + rest[1..];
        assert r[1..] == rest[1..];
        assert s == [s[0]] + s[1..];
        assert rest == [rest[0]] + rest[1..];
        JoinCons(rest[0], rest[1..], sep);
        JoinCons([s[0]] + rest[0], rest[1..], sep);
      }
    }
  }

  /** Splitting undoes joining when no piece holds the separator. */
  lemma {:induction false} SplitJoin(parts: seq<string>, sep: char)
    requires |parts| >= 1
    requires forall k :: 0 <= k < |parts| ==> sep !in parts[k]
    ensures Split(Join(parts, [sep]), sep) == parts
  {
    if |parts| == 1 {
      SplitNoSep(parts[0], sep);
    } else {
      SplitJoin(parts[1..], sep);
      SplitPrefix(parts[0], sep, Join(parts[1..], [sep]));
      assert parts[0] + [sep] + Join(parts[1..], [sep]) == parts[0] + ([sep] + Join(parts[1..], [sep]));
      assert [parts[0]] + parts[1..] == parts;
    }
  }

  lemma {:induction false} SplitNoSep(s: string, sep: char)
    requires sep !in s
    ensures Split(s, sep) == [s]
  {
    if s != [] {
      SplitNoSep(s[1..], sep);
      assert [s[0]] + s[1..] == s;
    }
  }

  lemma {:induction false} SplitPrefix(p: string, sep: char, t: string)
    requires sep !in p
    ensures Split(p + [sep] + t, sep) == [p] + Split(t, sep)
  {
    if p == [] {
      assert p + [sep] + t == [sep] + t;
      assert ([sep] + t)[1..] == t;
    } else {
      SplitPrefix(p[1..], sep, t);
      assert (p + [sep] + t)[1..] == p[1..] + [sep] + t;
      assert [p[0]] + p[1..] == p;
    }
  }

  /** Joining with a two-character separator `sep + " "` equals joining, with `sep`
      alone, the pieces after the first prefixed by a blank. */
  lemma {:induction false} JoinWithBlank(parts: seq<string>, sep: char)
    requires |parts| >= 1
    ensures Join(parts, [sep, ' ']) == Join([parts[0]] + BlankPrefixed(parts[1..]), [sep])
  {
    if |parts| > 1 {
      var rest := parts[1..];
      JoinWithBlank(rest, sep);
      var tail := BlankPrefixed(rest[1..]);
      var blanked := BlankPrefixed(rest);
      assert blanked == [[' '] + rest[0]] + tail;
      JoinCons(parts[0], blanked, sep);
      JoinCons([' '] + rest[0], tail, sep);
      JoinCons(rest[0], tail, sep);
      assert Join(blanked, [sep]) == [' '] + Join([rest[0]] + tail, [sep]);
      assert Join(parts, [sep, ' ']) == parts[0] + [sep, ' '] + Join(rest, [sep, ' ']);
    }
  }

  lemma JoinCons(p: string, rest: seq<string>, sep: char)
    ensures Join([p] + rest, [sep]) == if rest == [] then p else p + [sep] + Join(rest, [sep])
  {
    assert ([p] + rest)[1..] == rest;
  }

  function BlankPrefixed(parts: seq<string>): (r: seq<string>)
    ensures |r| == |parts|
    ensures forall k :: 0 <= k < |parts| ==> r[k] == [' '] + parts[k]
  {
    if parts == [] then [] else [[' '] + parts[0]] + BlankPrefixed(parts[1..])
  }

  /** `String.prototype.toLowerCase` restricted to the ASCII letters. */
  function ToLowerAscii(c: char): (r: char)
    ensures 'A' <= c <= 'Z' ==> 'a' <= r <= 'z'
    ensures !('A' <= c <= 'Z') ==> r == c
  {
    if 'A' <= c <= 'Z' then (c as int - 'A' as int + 'a' as int) as char else c
  }

  function LowerAscii(s: string): (r: string)
    ensures |r| == |s|
    ensures forall i :: 0 <= i < |s| ==> r[i] == ToLowerAscii(s[i])
    ensures forall i :: 0 <= i < |r| ==> !('A' <= r[i] <= 'Z')
  {
    if s == [] then [] else [ToLowerAscii(s[0])] + LowerAscii(s[1..])
  }
}
