/**
 The handful of Python `str` operations the album generator relies on:
 `strip()`, `startswith`, `removeprefix`, `count`, `replace` and `join`,
 plus `split` on one character as the inverse of `join`.
 */
module PyStr {
  import opened Wrappers

  /** `c.isspace()`: ASCII whitespace, the information separators
      U+001C..U+001F, NEL, and the Unicode space and line separators. */
  predicate IsSpace(c: char)
  {
    || c == ' ' || c == '\t' || c == '\n' || c == '\r' || c == '\U{B}' || c == '\U{C}'
    || ('\U{1C}' <= c <= '\U{1F}')
    || c == '\U{85}' || c == '\U{A0}' || c == '\U{1680}'
    || ('\U{2000}' <= c <= '\U{200A}')
    || c == '\U{2028}' || c == '\U{2029}' || c == '\U{202F}' || c == '\U{205F}' || c == '\U{3000}'
  }

  predicate AllSpace(s: string)
  {
    forall k :: 0 <= k < |s| ==> IsSpace(s[k])
  }

  /** `s.lstrip()`. */
  function TrimStart(s: string): (r: string)
    decreases |s|
  {
    if s != [] && IsSpace(s[0]) then TrimStart(s[1..]) else s
  }

  /** `s.rstrip()`. */
  function TrimEnd(s: string): (r: string)
    decreases |s|
  {
    if s != [] && IsSpace(s[|s| - 1]) then TrimEnd(s[..|s| - 1]) else s
  }

  /** `lstrip()` keeps the longest suffix that does not start with whitespace. */
  lemma {:induction false} TrimStartShape(s: string)
    ensures var r := TrimStart(s);
      && |r| <= |s| && r == s[|s| - |r|..]
      && AllSpace(s[..|s| - |r|])
      && (r != [] ==> !IsSpace(r[0]))
    decreases |s|
  {
    if s != [] && IsSpace(s[0]) {
      TrimStartShape(s[1..]);
      var r := TrimStart(s);
      assert s[1..][|s| - 1 - |r|..] == s[|s| - |r|..];
      assert forall k :: 0 < k < |s| - |r| ==> s[k] == s[1..][..|s| - 1 - |r|][k - 1];
    }
  }

  /** `rstrip()` keeps the longest prefix that does not end with whitespace. */
  lemma {:induction false} TrimEndShape(s: string)
    ensures var r := TrimEnd(s);
      && |r| <= |s| && r == s[..|r|]
      && AllSpace(s[|r|..])
      && (r != [] ==> !IsSpace(r[|r| - 1]))
    decreases |s|
  {
    if s != [] && IsSpace(s[|s| - 1]) {
      var n := |s| - 1;
      TrimEndShape(s[..n]);
      var r := TrimEnd(s);
      assert s[..n][..|r|] == s[..|r|];
      assert forall k :: |r| <= k < n ==> s[k] == s[..n][|r|..][k - |r|];
    }
  }

  /** `s.strip()`: `s` with the whitespace at both ends removed. */
  function Strip(s: string): (r: string)
  {
    TrimEnd(TrimStart(s))
  }

  /** What `strip()` removes is whitespace at the two ends: the result is a
      slice of `s` with only whitespace before and after it, and it neither
      starts nor ends with whitespace. */
  lemma StripShape(s: string)
    ensures var r := Strip(s);
      && |r| <= |s|
      && (exists i :: 0 <= i <= |s| - |r| && r == s[i..i + |r|] && AllSpace(s[..i]) && AllSpace(s[i + |r|..]))
      && (r != [] ==> !IsSpace(r[0]) && !IsSpace(r[|r| - 1]))
  {
    TrimStartShape(s);
    var t := TrimStart(s);
    TrimEndShape(t);
    var r := TrimEnd(t);
    var i := |s| - |t|;
    assert s[i..i + |r|] == r;
    assert s[i + |r|..] == t[|r|..];
  }

  /** Stripping text that already starts and ends with a non-space changes nothing. */
  lemma StripUnchanged(s: string)
    requires s != [] && !IsSpace(s[0]) && !IsSpace(s[|s| - 1])
    ensures Strip(s) == s
  {
  }

  /** Stripping is idempotent. */
  lemma StripIdempotent(s: string)
    ensures Strip(Strip(s)) == Strip(s)
  {
    StripShape(s);
    if Strip(s) != [] {
      StripUnchanged(Strip(s));
    }
  }

  /** The result of stripping is empty exactly when the text is all whitespace. */
  lemma StripEmpty(s: string)
    ensures Strip(s) == [] <==> AllSpace(s)
  {
    var r := Strip(s);
    StripShape(s);
    var i :| 0 <= i <= |s| - |r| && r == s[i..i + |r|] && AllSpace(s[..i]) && AllSpace(s[i + |r|..]);
    if r == [] {
      forall k | 0 <= k < |s| ensures IsSpace(s[k]) {
        if k < i { assert s[k] == s[..i][k]; } else { assert s[k] == s[i..][k - i]; }
      }
    } else {
      assert s[i] == r[0];
    }
  }

  /** `s.startswith(p)`. */
  predicate StartsWith(s: string, p: string)
  {
    |p| <= |s| && s[..|p|] == p
  }

  /** A prefix that begins and ends with a non-space survives `strip()`:
      leading whitespace cannot precede it and trailing whitespace cannot eat into it. */
  lemma StripKeepsPrefix(s: string, p: string)
    requires StartsWith(s, p)
    requires p != [] && !IsSpace(p[0]) && !IsSpace(p[|p| - 1])
    ensures StartsWith(Strip(s), p)
  {
    assert s[0] == p[0];
    assert TrimStart(s) == s;
    TrimEndShape(s);
    var r := TrimEnd(s);
    assert r[..|p|] == s[..|p|];
  }

  /** `s.removeprefix(p)`: the rest of `s` after `p` when `s` starts with `p`, else `s`. */
  function RemovePrefix(s: string, p: string): (r: string)
    ensures StartsWith(s, p) ==> p + r == s
    ensures !StartsWith(s, p) ==> r == s
  {
    if StartsWith(s, p) then s[|p|..] else s
  }

  /** `tok` occurs in `s` starting at index `i`. */
  predicate OccursAt(s: string, tok: string, i: nat)
  {
    i + |tok| <= |s| && s[i..i + |tok|] == tok
  }

  /** `s.find(tok)`: the leftmost occurrence of `tok`, if any. */
  function Find(s: string, tok: string): (r: Option<nat>)
    requires tok != []
    ensures r.Some? ==> OccursAt(s, tok, r.value)
    ensures r.Some? ==> forall j :: 0 <= j < r.value ==> !OccursAt(s, tok, j)
    ensures r.None? ==> forall j :: 0 <= j <= |s| ==> !OccursAt(s, tok, j)
    decreases |s|
  {
    if |s| < |tok| then None
    else if s[..|tok|] == tok then Some(0)
    else
      var rest := Find(s[1..], tok);
      assert forall j :: 1 <= j <= |s| && OccursAt(s, tok, j) ==> OccursAt(s[1..], tok, j - 1) by {
        forall j | 1 <= j <= |s| && OccursAt(s, tok, j) ensures OccursAt(s[1..], tok, j - 1) {
          assert s[1..][j - 1..j - 1 + |tok|] == s[j..j + |tok|];
        }
      }
      if rest.None? then None else Some(rest.value + 1)
  }

  /** `s.count(tok)` for a non-empty `tok`: occurrences are taken leftmost
      first, and the search resumes after each one, so they do not overlap. */
  function Count(s: string, tok: string): (r: nat)
    requires tok != []
    decreases |s|
  {
    match Find(s, tok)
    case None => 0
    case Some(k) => 1 + Count(s[k + |tok|..], tok)
  }

  /** `s.replace(tok, repl)` for a non-empty `tok`: the occurrences that
      `Count` counts are replaced by `repl`; the text between them is kept. */
  function Replace(s: string, tok: string, repl: string): (r: string)
    requires tok != []
    decreases |s|
  {
    match Find(s, tok)
    case None => s
    case Some(k) => s[..k] + repl + Replace(s[k + |tok|..], tok, repl)
  }

  /** `s.count(tok)` is zero exactly when `tok in s` is false. */
  lemma CountZero(s: string, tok: string)
    requires tok != []
    ensures Count(s, tok) == 0 <==> !Contains(s, tok)
  {
  }

  /** A prefix that ends before the leftmost occurrence holds no occurrence. */
  lemma BeforeFirstOccurrence(s: string, tok: string, k: nat)
    requires tok != [] && k <= |s|
    requires forall j :: 0 <= j < k ==> !OccursAt(s, tok, j)
    ensures Find(s[..k], tok).None? && Count(s[..k], tok) == 0
  {
    var t := s[..k];
    if Find(t, tok).Some? {
      var j := Find(t, tok).value;
      assert OccursAt(s, tok, j) by {
        assert t[j..j + |tok|] == s[j..j + |tok|];
      }
    }
  }

  /** When `tok` occurs exactly once, `replace` substitutes that one occurrence
      and the text on either side of it is kept verbatim. */
  lemma SingleOccurrence(s: string, tok: string, repl: string)
    requires tok != [] && Count(s, tok) == 1
    ensures Find(s, tok).Some?
    ensures var k := Find(s, tok).value;
      && s == s[..k] + tok + s[k + |tok|..]
      && Count(s[..k], tok) == 0 && Count(s[k + |tok|..], tok) == 0
      && Replace(s, tok, repl) == s[..k] + repl + s[k + |tok|..]
  {
    var k := Find(s, tok).value;
    var rest := s[k + |tok|..];
    assert s[k..k + |tok|] == tok;
    assert s == s[..k] + tok + rest;
    BeforeFirstOccurrence(s, tok, k);
    assert Find(rest, tok).None?;
  }

  /** `sep.join(parts)`. */
  function Join(sep: string, parts: seq<string>): (r: string)
    decreases |parts|
  {
    if |parts| == 0 then ""
    else if |parts| == 1 then parts[0]
    else parts[0] + sep + Join(sep, parts[1..])
  }

  /** `s.split(sep)` for a one-character separator; never empty. */
  function Split(s: string, sep: char): (r: seq<string>)
    ensures |r| >= 1
    decreases |s|
  {
    if s == [] then [""]
    else
      var rest := Split(s[1..], sep);
      if s[0] == sep then [""] + rest else [[s[0]] + rest[0]] + rest[1..]
  }

  /** Text without the separator splits into itself alone. */
  lemma {:induction false} SplitWithout(a: string, sep: char)
    requires sep !in a
    ensures Split(a, sep) == [a]
    decreases |a|
  {
    if a != [] {
      SplitWithout(a[1..], sep);
      assert [a[0]] + a[1..] == a;
    }
  }

  /** Splitting at the first separator yields the text before it, then the split of the rest. */
  lemma {:induction false} SplitAfter(a: string, sep: char, b: string)
    requires sep !in a
    ensures Split(a + [sep] + b, sep) == [a] + Split(b, sep)
    decreases |a|
  {
    var s := a + [sep] + b;
    if a == [] {
      assert s[1..] == b;
    } else {
      assert s[1..] == a[1..] + [sep] + b;
      SplitAfter(a[1..], sep, b);
      assert [a[0]] + a[1..] == a;
    }
  }

  /** No part holds the character `sep`. */
  predicate NoneContains(parts: seq<string>, sep: char)
  {
    forall k :: 0 <= k < |parts| ==> sep !in parts[k]
  }

  /** `join` and `split` are inverse when no part contains the separator. */
  lemma {:induction false} SplitJoin(parts: seq<string>, sep: char)
    requires |parts| >= 1
    requires NoneContains(parts, sep)
    ensures Split(Join([sep], parts), sep) == parts
    decreases |parts|
  {
    if |parts| == 1 {
      SplitWithout(parts[0], sep);
    } else {
      SplitJoin(parts[1..], sep);
      SplitAfter(parts[0], sep, Join([sep], parts[1..]));
      assert [parts[0]] + parts[1..] == parts;
    }
  }

  /** `t in s` for strings. */
  predicate Contains(s: string, t: string)
  {
    exists k :: 0 <= k <= |s| && OccursAt(s, t, k)
  }

  /** Whatever a text contains, a text that ends with it contains too. */
  lemma ContainsInSuffix(s: string, u: string, t: string)
    requires Contains(u, t)
    ensures Contains(s + u, t)
  {
    var k :| 0 <= k <= |u| && OccursAt(u, t, k);
    assert (s + u)[|s| + k..|s| + k + |t|] == u[k..k + |t|];
    assert OccursAt(s + u, t, |s| + k);
  }

  /** Whatever a text contains, it contains every slice of. */
  lemma ContainsSlice(s: string, t: string, i: nat, j: nat)
    requires Contains(s, t) && i <= j <= |t|
    ensures Contains(s, t[i..j])
  {
    var k :| 0 <= k <= |s| && OccursAt(s, t, k);
    assert s[k..k + |t|] == t;
    forall m | 0 <= m < j - i ensures s[k + i..k + j][m] == t[i..j][m] {
      assert s[k + i + m] == s[k..k + |t|][i + m];
    }
    assert OccursAt(s, t[i..j], k + i);
  }

  /** A value between a piece that ends with `open` and one that starts
      with `close` shows up as `open + value + close`. */
  lemma SliceAround(pre: string, value: string, post: string, open: string, close: string)
    requires |open| <= |pre| && pre[|pre| - |open|..] == open
    requires StartsWith(post, close)
    ensures (pre + value + post)[|pre| - |open|..|pre| + |value| + |close|] == open + value + close
  {
    var t := pre + value + post;
    var u := t[|pre| - |open|..|pre| + |value| + |close|];
    forall m | 0 <= m < |u| ensures u[m] == (open + value + close)[m] {
      if m < |open| {
        assert u[m] == pre[|pre| - |open| + m];
      } else if m < |open| + |value| {
        assert u[m] == value[m - |open|];
      } else {
        assert u[m] == post[m - |open| - |value|];
      }
    }
  }

  /** `template.format(...)` with the template given as its literal pieces
      around the replacement fields: `pieces[0] + values[0] + pieces[1] + ...`.
      Values are inserted verbatim. */
  function Format(pieces: seq<string>, values: seq<string>): (r: string)
    requires |pieces| == |values| + 1
    decreases |values|
  {
    if values == [] then pieces[0] else pieces[0] + values[0] + Format(pieces[1..], values[1..])
  }

  /** A formatted text starts with the template's first piece. */
  lemma FormatStart(pieces: seq<string>, values: seq<string>)
    requires |pieces| == |values| + 1
    ensures StartsWith(Format(pieces, values), pieces[0])
  {
    if values != [] {
      var rest := values[0] + Format(pieces[1..], values[1..]);
      assert (pieces[0] + rest)[..|pieces[0]|] == pieces[0];
    }
  }

  /** Each value appears in the formatted text between the pieces around its field. */
  lemma {:induction false} FormatField(pieces: seq<string>, values: seq<string>, i: nat)
    requires |pieces| == |values| + 1 && i < |values|
    ensures Contains(Format(pieces, values), pieces[i] + values[i] + pieces[i + 1])
    decreases i
  {
    var tail := Format(pieces[1..], values[1..]);
    if i == 0 {
      FormatStart(pieces[1..], values[1..]);
      var t := pieces[0] + values[0] + pieces[1];
      var f := Format(pieces, values);
      assert f == pieces[0] + values[0] + tail;
      assert tail[..|pieces[1]|] == pieces[1];
      assert f[..|t|] == t;
      assert OccursAt(f, t, 0);
    } else {
      FormatField(pieces[1..], values[1..], i - 1);
      ContainsInSuffix(pieces[0] + values[0], tail, pieces[i] + values[i] + pieces[i + 1]);
    }
  }

  /** A field whose literal text before it ends with `open` and after it
      starts with `close` shows up in the formatted string as
      `open + value + close`. */
  lemma FormatFieldAround(pieces: seq<string>, values: seq<string>, i: nat, open: string, close: string)
    requires |pieces| == |values| + 1 && i < |values|
    requires |open| <= |pieces[i]| && pieces[i][|pieces[i]| - |open|..] == open
    requires StartsWith(pieces[i + 1], close)
    ensures Contains(Format(pieces, values), open + values[i] + close)
  {
    var pre, post := pieces[i], pieces[i + 1];
    FormatField(pieces, values, i);
    SliceAround(pre, values[i], post, open, close);
    ContainsSlice(Format(pieces, values), pre + values[i] + post, |pre| - |open|, |pre| + |values[i]| + |close|);
  }

  /** A formatted text has no line break when neither the pieces nor the values have one. */
  lemma {:induction false} FormatSingleLine(pieces: seq<string>, values: seq<string>)
    requires |pieces| == |values| + 1
    requires forall k :: 0 <= k < |pieces| ==> '\n' !in pieces[k]
    requires forall k :: 0 <= k < |values| ==> '\n' !in values[k]
    ensures '\n' !in Format(pieces, values)
    decreases |values|
  {
    if values != [] {
      FormatSingleLine(pieces[1..], values[1..]);
    }
  }
}
