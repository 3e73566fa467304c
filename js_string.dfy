/** The three JavaScript string operations the portfolio page relies on:
    `String.prototype.toLowerCase` (ASCII letters only), `String.prototype.trim`
    and `String.prototype.split` with a one-character separator. */
module JsString {

  /** The characters `trim` strips: the ECMAScript WhiteSpace and LineTerminator
      code points (tab, vertical tab, form feed, space, no-break space, byte-order
      mark, the Unicode space separators, line feed, carriage return, and the line
      and paragraph separators). */
  predicate IsWhitespace(c: char) {
    || c == '\t' || c == '\n' || c == '\U{000B}' || c == '\U{000C}' || c == '\r'
    || c == ' ' || c == '\U{00A0}' || c == '\U{1680}' || ('\U{2000}' <= c <= '\U{200A}')
    || c == '\U{2028}' || c == '\U{2029}' || c == '\U{202F}' || c == '\U{205F}'
    || c == '\U{3000}' || c == '\U{FEFF}'
  }

  predicate AllWhitespace(s: string) {
    forall i :: 0 <= i < |s| ==> IsWhitespace(s[i])
  }

  /** Neither the first nor the last character is white space. */
  predicate Trimmed(s: string) {
    s == [] || (!IsWhitespace(s[0]) && !IsWhitespace(s[|s| - 1]))
  }

  predicate IsAsciiUpper(c: char) {
    'A' <= c <= 'Z'
  }

  /** Lower-cases one ASCII capital letter and leaves every other character alone. */
  function LowerChar(c: char): (d: char)
    ensures !IsAsciiUpper(d)
    ensures IsAsciiUpper(c) ==> d as int == c as int + 32
    ensures !IsAsciiUpper(c) ==> d == c
  {
    if IsAsciiUpper(c) then (c as int + 32) as char else c
  }

  /** `s.toLowerCase()`, restricted to the ASCII letters. */
  function ToLower(s: string): (r: string)
    ensures |r| == |s|
    ensures forall i :: 0 <= i < |s| ==> r[i] == LowerChar(s[i])
  {
    seq(|s|, i requires 0 <= i < |s| => LowerChar(s[i]))
  }

  /** Lower-casing leaves no ASCII capital behind, keeps every other character,
      and lower-casing again changes nothing. */
  lemma ToLowerProperties(s: string)
    ensures forall i :: 0 <= i < |s| ==> !IsAsciiUpper(ToLower(s)[i])
    ensures forall i :: 0 <= i < |s| && !IsAsciiUpper(s[i]) ==> ToLower(s)[i] == s[i]
    ensures ToLower(ToLower(s)) == ToLower(s)
  {
    var r := ToLower(s);
    forall i | 0 <= i < |s| ensures ToLower(r)[i] == r[i] {
      assert !IsAsciiUpper(r[i]);
    }
  }

  /** The first index at or after `i` that does not hold white space (`|s|`
      when there is none). */
  function SkipLeading(s: string, i: nat): (b: nat)
    requires i <= |s|
    ensures i <= b <= |s|
    ensures forall k :: i <= k < b ==> IsWhitespace(s[k])
    ensures b < |s| ==> !IsWhitespace(s[b])
    decreases |s| - i
  {
    if i < |s| && IsWhitespace(s[i]) then SkipLeading(s, i + 1) else i
  }

  /** Moving down from `j`, but not below `lo`: the end of the last stretch
      before `j` that does not end in white space (`lo` when there is none). */
  function SkipTrailing(s: string, lo: nat, j: nat): (e: nat)
    requires lo <= j <= |s|
    ensures lo <= e <= j
    ensures forall k :: e <= k < j ==> IsWhitespace(s[k])
    ensures lo < e ==> !IsWhitespace(s[e - 1])
    decreases j
  {
    if lo < j && IsWhitespace(s[j - 1]) then SkipTrailing(s, lo, j - 1) else j
  }

  /** `s.trim()`: the part of `s` left between its leading and its trailing
      white space. */
  function Trim(s: string): (r: string)
    ensures Trimmed(r) && |r| <= |s|
  {
    var b := SkipLeading(s, 0);
    s[b..SkipTrailing(s, b, |s|)]
  }

  lemma ThreeSlices(s: string, b: nat, e: nat)
    requires b <= e <= |s|
    ensures s == s[..b] + s[b..e] + s[e..]
  {
  }

  /** What `trim` keeps starts where the leading white space ends, and what it
      drops on either side of it is white space. */
  lemma TrimDropsOnlyWhitespace(s: string)
    ensures var b := SkipLeading(s, 0); var e := b + |Trim(s)|;
      && e <= |s|
      && s == s[..b] + Trim(s) + s[e..]
      && AllWhitespace(s[..b])
      && AllWhitespace(s[e..])
  {
    var b := SkipLeading(s, 0);
    var e := SkipTrailing(s, b, |s|);
    ThreeSlices(s, b, e);
    forall k | 0 <= k < b ensures IsWhitespace(s[..b][k]) {
      assert s[..b][k] == s[k];
    }
    forall k | 0 <= k < |s| - e ensures IsWhitespace(s[e..][k]) {
      assert s[e..][k] == s[e + k];
    }
  }

  /** Surrounding white space is exactly what `trim` removes: a trimmed string
      padded with white space on both sides trims back to itself. */
  lemma TrimOfPadded(pre: string, t: string, post: string)
    requires AllWhitespace(pre) && AllWhitespace(post) && Trimmed(t)
    ensures Trim(pre + t + post) == t
  {
    var s := pre + t + post;
    var b := SkipLeading(s, 0);
    assert forall k :: 0 <= k < |pre| ==> s[k] == pre[k];
    assert forall k :: 0 <= k < |t| ==> s[|pre| + k] == t[k];
    assert forall k :: 0 <= k < |post| ==> s[|pre| + |t| + k] == post[k];
    if t == [] {
      forall k | 0 <= k < |s| ensures IsWhitespace(s[k]) {
        if k < |pre| {
          assert s[k] == pre[k];
        } else {
          assert s[k] == post[k - |pre|];
        }
      }
      assert SkipTrailing(s, b, |s|) == |s|;
    } else {
      assert s[|pre|] == t[0];
      assert b == |pre|;
      var e := SkipTrailing(s, b, |s|);
      assert s[|pre| + |t| - 1] == t[|t| - 1];
      assert e == |pre| + |t|;
      assert s[b..e] == t;
    }
  }

  /** `ss.map((x) => x.trim())`. */
  function TrimAll(ss: seq<string>): (r: seq<string>)
    ensures |r| == |ss|
    ensures forall k :: 0 <= k < |ss| ==> r[k] == Trim(ss[k])
  {
    seq(|ss|, k requires 0 <= k < |ss| => Trim(ss[k]))
  }

  /** `s.split(sep)` for a one-character separator: the pieces between the
      occurrences of `sep`; the empty string splits into one empty piece. */
  function Split(s: string, sep: char): (parts: seq<string>)
    ensures parts != []
    decreases |s|
  {
    if s == [] then
      [[]]
    else
      var rest := Split(s[1..], sep);
      if s[0] == sep then
        [[]] + rest
      else
        [[s[0]] + rest[0]] + rest[1..]
  }

  /** There is one piece more than there are separators, and no piece holds
      the separator. */
  lemma {:induction false} SplitShape(s: string, sep: char)
    ensures |Split(s, sep)| == multiset(s)[sep] + 1
    ensures forall k :: 0 <= k < |Split(s, sep)| ==> sep !in Split(s, sep)[k]
    decreases |s|
  {
    if s != [] {
      var rest := Split(s[1..], sep);
      SplitShape(s[1..], sep);
      assert s == [s[0]] + s[1..];
      var parts := Split(s, sep);
      if s[0] == sep {
        assert forall k :: 1 <= k < |parts| ==> parts[k] == rest[k - 1];
      } else {
        assert sep !in [s[0]] + rest[0];
        assert forall k :: 1 <= k < |parts| ==> parts[k] == rest[k];
      }
    }
  }

  /** `parts.join(sep)` for a one-character separator, the inverse of `Split`. */
  function Join(parts: seq<string>, sep: char): string
  {
    if parts == [] then []
    else if |parts| == 1 then parts[0]
    else parts[0] + [sep] + Join(parts[1..], sep)
  }

  lemma JoinConsHead(c: char, parts: seq<string>, sep: char)
    requires parts != []
    ensures Join([[c] + parts[0]] + parts[1..], sep) == [c] + Join(parts, sep)
  {
    var ps := [[c] + parts[0]] + parts[1..];
    assert ps[1..] == parts[1..];
  }

  lemma JoinEmptyHead(parts: seq<string>, sep: char)
    requires parts != []
    ensures Join([[]] + parts, sep) == [sep] + Join(parts, sep)
  {
    assert ([[]] + parts)[1..] == parts;
  }

  /** Joining the pieces of a split with the same separator gives the string back. */
  lemma {:induction false} JoinSplit(s: string, sep: char)
    ensures Join(Split(s, sep), sep) == s
    decreases |s|
  {
    if s != [] {
      var c := s[0];
      var u := s[1..];
      assert s == [c] + u;
      JoinSplit(u, sep);
      if c == sep {
        SplitAtSeparator(u, sep);
        JoinEmptyHead(Split(u, sep), sep);
      } else {
        SplitAtOther(c, u, sep);
        JoinConsHead(c, Split(u, sep), sep);
      }
    }
  }

  lemma SplitAtSeparator(u: string, sep: char)
    ensures Split([sep] + u, sep) == [[]] + Split(u, sep)
  {
    assert ([sep] + u)[1..] == u;
  }

  lemma SplitAtOther(c: char, u: string, sep: char)
    requires c != sep
    ensures Split([c] + u, sep) == [[c] + Split(u, sep)[0]] + Split(u, sep)[1..]
  {
    assert ([c] + u)[1..] == u;
  }

  lemma SplitJoinAtSeparator(tail: seq<string>, sep: char)
    requires tail != [] && Split(Join(tail, sep), sep) == tail
    ensures Split(Join([[]] + tail, sep), sep) == [[]] + tail
  {
    JoinEmptyHead(tail, sep);
    SplitAtSeparator(Join(tail, sep), sep);
  }

  lemma SplitJoinAtOther(parts: seq<string>, sep: char)
    requires parts != [] && parts[0] != [] && parts[0][0] != sep
    requires Split(Join([parts[0][1..]] + parts[1..], sep), sep) == [parts[0][1..]] + parts[1..]
    ensures Split(Join(parts, sep), sep) == parts
  {
    var c := parts[0][0];
    var smaller := [parts[0][1..]] + parts[1..];
    assert smaller[1..] == parts[1..];
    JoinConsHead(c, smaller, sep);
    assert [c] + smaller[0] == parts[0];
    assert [[c] + smaller[0]] + smaller[1..] == [parts[0]] + parts[1..] == parts;
    SplitAtOther(c, Join(smaller, sep), sep);
  }

  /** Splitting a join of separator-free pieces gives the pieces back. */
  lemma {:induction false} SplitJoin(parts: seq<string>, sep: char)
    requires parts != []
    requires forall k :: 0 <= k < |parts| ==> sep !in parts[k]
    ensures Split(Join(parts, sep), sep) == parts
    decreases |parts|, |parts[0]|
  {
    var p := parts[0];
    if p == [] {
      if |parts| > 1 {
        SplitJoin(parts[1..], sep);
        SplitJoinAtSeparator(parts[1..], sep);
        assert parts == [[]] + parts[1..];
      }
    } else {
      var smaller := [p[1..]] + parts[1..];
      assert sep !in p[1..] by {
        assert forall m :: 0 <= m < |p| - 1 ==> p[1..][m] == p[m + 1];
      }
      forall k | 0 <= k < |smaller| ensures sep !in smaller[k] {
        if k > 0 {
          assert smaller[k] == parts[k];
        }
      }
      SplitJoin(smaller, sep);
      SplitJoinAtOther(parts, sep);
    }
  }

  /** Trimming never brings in a character that was not there. */
  lemma TrimKeepsOut(s: string, c: char)
    requires c !in s
    ensures c !in Trim(s)
  {
    var b := SkipLeading(s, 0);
    var r := Trim(s);
    forall k | 0 <= k < |r| ensures r[k] != c {
      assert r[k] == s[b + k];
    }
  }
}
