/** String helpers shared by the model: the handful of JavaScript `String` and
    Python `str` / `os.path` operations the application relies on, written out
    for `seq<char>`. Case folding and white-space stripping cover ASCII only. */
module Strings {

  /** The path separator. */
  const Sep: char := '/'

  /** ASCII lower-casing of one character. */
  function LowerChar(c: char): (r: char)
    ensures 'A' <= c <= 'Z' ==> r as int == c as int + 32
    ensures !('A' <= c <= 'Z') ==> r == c
    ensures !('A' <= r <= 'Z')
  {
    if 'A' <= c <= 'Z' then (c as int + 32) as char else c
  }

  /** `s.toLowerCase()` / `s.lower()`, restricted to ASCII letters. */
  function Lower(s: string): (r: string)
    ensures |r| == |s|
    ensures forall i :: 0 <= i < |s| ==> r[i] == LowerChar(s[i])
  {
    if s == [] then [] else [LowerChar(s[0])] + Lower(s[1..])
  }

  lemma LowerIdempotent(s: string)
    ensures Lower(Lower(s)) == Lower(s)
  {
  }

  lemma LowerAppend(a: string, b: string)
    ensures Lower(a + b) == Lower(a) + Lower(b)
  {
  }

  /** `s.startswith(p)` / `s.startsWith(p)`. */
  predicate StartsWith(s: string, p: string)
  {
    p <= s
  }

  /** `s.endswith(suf)` / `s.endsWith(suf)`. */
  predicate EndsWith(s: string, suf: string)
  {
    |suf| <= |s| && s[|s| - |suf|..] == suf
  }

  /** The common special case `s.endsWith('/')`. */
  predicate EndsWithSep(s: string)
  {
    |s| > 0 && s[|s| - 1] == Sep
  }

  lemma EndsWithSepIff(s: string)
    ensures EndsWithSep(s) <==> EndsWith(s, [Sep])
  {
  }

  /** `sub in s` (Python) / `s.includes(sub)` (JavaScript). */
  predicate Contains(s: string, sub: string)
    decreases |s|
  {
    sub <= s || (|s| > 0 && Contains(s[1..], sub))
  }

  /** Whatever contains a text contains each prefix of it. */
  lemma {:induction false} ContainsPrefixOf(s: string, big: string, small: string)
    requires small <= big && Contains(s, big)
    ensures Contains(s, small)
    decreases |s|
  {
    if !(big <= s) {
      ContainsPrefixOf(s[1..], big, small);
    }
  }

  /** `s.lastIndexOf(c)` / `s.rfind(c)`: -1 when `c` does not occur. */
  function LastIndexOf(s: string, c: char): (r: int)
    ensures -1 <= r < |s|
    ensures r >= 0 ==> s[r] == c
    ensures forall j :: r < j < |s| ==> s[j] != c
  {
    if s == [] then -1
    else if s[|s| - 1] == c then |s| - 1
    else LastIndexOf(s[..|s| - 1], c)
  }

  /** The text after the last separator (`os.path.basename`, and JavaScript's
      `s.substring(s.lastIndexOf('/') + 1)`). */
  function Basename(s: string): (r: string)
    ensures Sep !in r
    ensures EndsWith(s, r)
    ensures Sep !in s ==> r == s
  {
    s[LastIndexOf(s, Sep) + 1..]
  }

  /** The base name is the whole tail after the last separator: either the
      whole of `s` or preceded by a separator. */
  lemma BasenameWholeTail(s: string)
    ensures var r := Basename(s); |r| == |s| || s[|s| - |r| - 1] == Sep
  {
  }

  lemma BasenameOfEndsWithSep(s: string)
    requires EndsWithSep(s)
    ensures Basename(s) == ""
  {
  }

  /** Python's `s.rstrip(c)`: drops every trailing `c`. */
  function RStrip(s: string, c: char): (r: string)
    ensures r <= s
    ensures r == [] || r[|r| - 1] != c
    ensures forall j :: |r| <= j < |s| ==> s[j] == c
  {
    if s == [] || s[|s| - 1] != c then s else RStrip(s[..|s| - 1], c)
  }

  /** Python's `s.lstrip(c)`: drops every leading `c`. */
  function LStrip(s: string, c: char): (r: string)
    ensures EndsWith(s, r)
    ensures r == [] || r[0] != c
  {
    if s == [] || s[0] != c then s else LStrip(s[1..], c)
  }

  /** True when every character of `s` is `c`. */
  predicate AllChar(s: string, c: char)
  {
    forall i :: 0 <= i < |s| ==> s[i] == c
  }

  /** `os.path.dirname` for POSIX paths: everything up to the last separator,
      with trailing separators removed unless the head is nothing but separators. */
  function DirName(s: string): (r: string)
    ensures r <= s
    ensures Sep in s ==> r != ""
    ensures Sep !in s ==> r == ""
  {
    var head := s[..LastIndexOf(s, Sep) + 1];
    if head != "" && !AllChar(head, Sep) then RStrip(head, Sep) else head
  }

  /** The ASCII white-space characters that both `str.strip()` and
      `String.trim()` remove. Python's `strip` also removes the separators
      U+001C to U+001F, which `trim` keeps; they are not in this set. */
  predicate IsSpace(c: char)
  {
    c == ' ' || c == '\t' || c == '\n' || c == '\r' || c == '\U{0B}' || c == '\U{0C}'
  }

  function StripEnd(s: string): (r: string)
    ensures r <= s
    ensures r == [] || !IsSpace(r[|r| - 1])
    ensures forall j :: |r| <= j < |s| ==> IsSpace(s[j])
  {
    if s == [] || !IsSpace(s[|s| - 1]) then s else StripEnd(s[..|s| - 1])
  }

  function StripStart(s: string): (r: string)
    ensures EndsWith(s, r)
    ensures r == [] || !IsSpace(r[0])
    ensures forall j :: 0 <= j < |s| - |r| ==> IsSpace(s[j])
  {
    if s == [] || !IsSpace(s[0]) then s else StripStart(s[1..])
  }

  /** `s.strip()` / `s.trim()`. */
  function Strip(s: string): (r: string)
    ensures |r| <= |s|
    ensures r == [] || (!IsSpace(r[0]) && !IsSpace(r[|r| - 1]))
  {
    StripStart(StripEnd(s))
  }

  /** Blank means empty after stripping: `not s.strip()` / `s.trim().length === 0`. */
  predicate IsBlank(s: string)
  {
    forall i :: 0 <= i < |s| ==> IsSpace(s[i])
  }

  lemma {:induction false} StripEmptyIffBlank(s: string)
    ensures Strip(s) == [] <==> IsBlank(s)
  {
    var e := StripEnd(s);
    if !IsBlank(s) {
      var k :| 0 <= k < |s| && !IsSpace(s[k]);
      assert k < |e|;
      assert e[k] == s[k];
    }
  }

  lemma {:induction false} StripIdempotent(s: string)
    ensures Strip(Strip(s)) == Strip(s)
  {
    var r := Strip(s);
    if r != [] {
      assert StripEnd(r) == r;
      assert StripStart(r) == r;
    }
  }

  /** `os.path.join(a, b)` for POSIX paths. */
  function Join(a: string, b: string): (r: string)
    ensures StartsWith(b, [Sep]) ==> r == b
    ensures !StartsWith(b, [Sep]) ==> EndsWith(r, b) && a <= r
  {
    if [Sep] <= b then b
    else if a == [] || a[|a| - 1] == Sep then a + b
    else a + [Sep] + b
  }

  /** Joining a name that holds no separator puts it last: the base name of
      the joined path is that name. */
  lemma {:induction false} BasenameOfJoin(a: string, b: string)
    requires Sep !in b
    ensures a <= Join(a, b)
    ensures Basename(Join(a, b)) == b
  {
    var r := Join(a, b);
    assert !([Sep] <= b) by {
      if |b| > 0 {
        assert b[0] in b;
      }
    }
    if a != [] {
      var k := if a[|a| - 1] == Sep then |a| - 1 else |a|;
      assert r[k] == Sep;
      assert r[k + 1..] == b;
    }
  }

  /** Python's `s.split(sep)` for a one-character separator. */
  function Split(s: string, sep: char): (r: seq<string>)
    ensures |r| >= 1
    ensures forall k :: 0 <= k < |r| ==> sep !in r[k]
  {
    if s == [] then [[]]
    else if s[0] == sep then [[]] + Split(s[1..], sep)
    else
      var rest := Split(s[1..], sep);
      [[s[0]] + rest[0]] + rest[1..]
  }

  /** `sep.join(parts)` for a one-character separator. */
  function JoinWith(parts: seq<string>, sep: char): (r: string)
    requires |parts| >= 1
  {
    if |parts| == 1 then parts[0] else parts[0] + [sep] + JoinWith(parts[1..], sep)
  }

  /** Splitting and joining again gives back the original text. */
  lemma {:induction false} SplitJoin(s: string, sep: char)
    ensures JoinWith(Split(s, sep), sep) == s
  {
    if s == [] {
    } else if s[0] == sep {
      SplitJoin(s[1..], sep);
      assert [[]] + Split(s[1..], sep) == [[]] + Split(s[1..], sep);
    } else {
      var rest := Split(s[1..], sep);
      SplitJoin(s[1..], sep);
      if |rest| == 1 {
      } else {
        assert ([[s[0]] + rest[0]] + rest[1..])[1..] == rest[1..];
        assert JoinWith(rest, sep) == rest[0] + [sep] + JoinWith(rest[1..], sep);
      }
    }
  }

  /** A text without the separator splits into itself alone. */
  lemma {:induction false} SplitNoSep(a: string, sep: char)
    requires sep !in a
    ensures Split(a, sep) == [a]
  {
    if a != [] {
      SplitNoSep(a[1..], sep);
      assert [a[0]] + a[1..] == a;
    }
  }

  /** Splitting at the first separator: the text before it is the first part. */
  lemma {:induction false} SplitAfter(a: string, b: string, sep: char)
    requires sep !in a
    ensures Split(a + [sep] + b, sep) == [a] + Split(b, sep)
  {
    var s := a + [sep] + b;
    if a == [] {
      assert s[1..] == b;
    } else {
      assert s[1..] == a[1..] + [sep] + b;
      SplitAfter(a[1..], b, sep);
      assert [a[0]] + a[1..] == a;
    }
  }

  /** Joining parts that do not contain the separator and splitting again gives
      back the parts. */
  lemma {:induction false} JoinSplit(parts: seq<string>, sep: char)
    requires |parts| >= 1
    requires forall k :: 0 <= k < |parts| ==> sep !in parts[k]
    ensures Split(JoinWith(parts, sep), sep) == parts
  {
    if |parts| == 1 {
      SplitNoSep(parts[0], sep);
    } else {
      JoinSplit(parts[1..], sep);
      SplitAfter(parts[0], JoinWith(parts[1..], sep), sep);
      assert [parts[0]] + parts[1..] == parts;
    }
  }

  /** The joined text starts with the first part and ends with the last. */
  lemma {:induction false} JoinWithEnds(parts: seq<string>, sep: char)
    requires |parts| >= 1
    ensures parts[0] <= JoinWith(parts, sep)
    ensures EndsWith(JoinWith(parts, sep), parts[|parts| - 1])
  {
    if |parts| > 1 {
      JoinWithEnds(parts[1..], sep);
      var j := JoinWith(parts[1..], sep);
      var last := parts[|parts| - 1];
      assert parts[1..][|parts[1..]| - 1] == last;
      var r := parts[0] + [sep] + j;
      assert r[|r| - |last|..] == j[|j| - |last|..];
    }
  }

  /** A text does not contain anything longer than itself. */
  lemma {:induction false} NotContainsLonger(s: string, sub: string)
    requires |s| < |sub|
    ensures !Contains(s, sub)
  {
    if |s| > 0 {
      NotContainsLonger(s[1..], sub);
    }
  }

  /** A text contains whatever starts at one of its positions. */
  lemma {:induction false} ContainsAt(s: string, sub: string, k: nat)
    requires k <= |s| && sub <= s[k..]
    ensures Contains(s, sub)
    decreases k
  {
    if k > 0 {
      assert s[1..][k - 1..] == s[k..];
      ContainsAt(s[1..], sub, k - 1);
    }
  }

  /** JavaScript's `s.substring(start)`: an index past the end yields the empty string. */
  function Substring(s: string, start: nat): (r: string)
    ensures start <= |s| ==> s == s[..start] + r
    ensures start >= |s| ==> r == ""
  {
    if start <= |s| then s[start..] else ""
  }
}
