/**
 * Strings as the crawler's Python code treats them: the whitespace class behind
 * `str.strip()`, stripping, `str.split` on one character and `str.join`, prefix and
 * suffix tests, the code-point order that `sorted` uses on strings, and the POSIX
 * rule of `os.path.join`.
 */
module Text {
  import opened Wrappers

  /** `c.isspace()` in Python 3: the characters `str.strip()` removes. */
  predicate IsSpace(c: char) {
    || ('\t' <= c <= '\r')
    || ('\U{1C}' <= c <= '\U{1F}')
    || c == ' ' || c == '\U{85}' || c == '\U{A0}' || c == '\U{1680}'
    || ('\U{2000}' <= c <= '\U{200A}')
    || c == '\U{2028}' || c == '\U{2029}' || c == '\U{202F}' || c == '\U{205F}' || c == '\U{3000}'
  }

  /** `s.strip() == ""`: the line or text holds whitespace only. */
  predicate IsBlank(s: string) {
    forall i :: 0 <= i < |s| ==> IsSpace(s[i])
  }

  /** A whitespace character in front of a text leaves its blankness as it is. */
  lemma BlankCons(w: char, s: string)
    requires IsSpace(w)
    ensures IsBlank([w] + s) <==> IsBlank(s)
  {
    assert forall i :: 0 <= i < |s| ==> s[i] == ([w] + s)[i + 1];
  }

  /** A whitespace character behind a text leaves its blankness as it is. */
  lemma BlankSnoc(s: string, w: char)
    requires IsSpace(w)
    ensures IsBlank(s + [w]) <==> IsBlank(s)
  {
    assert forall i :: 0 <= i < |s| ==> s[i] == (s + [w])[i];
  }

  /** Concatenation regroups freely; stated once, since the solver finds it costly. */
  lemma AppendAssoc<T>(a: seq<T>, b: seq<T>, c: seq<T>)
    ensures a + b + c == a + (b + c)
  {
  }

  /** Dropping the last element of `a + b`, for a non-empty `b`, drops the last element of `b`. */
  lemma AppendDropLast<T>(a: seq<T>, b: seq<T>)
    requires b != []
    ensures (a + b)[..|a + b| - 1] == a + b[..|b| - 1]
    ensures (a + b)[|a + b| - 1] == b[|b| - 1]
  {
  }

  /** The prefix of full length is the whole sequence. */
  lemma PrefixAll<T>(s: seq<T>)
    ensures s[..|s|] == s
  {
  }

  /** A non-empty sequence is its front and its last element. */
  lemma LastSplit<T>(s: seq<T>)
    requires s != []
    ensures s[..|s| - 1] + [s[|s| - 1]] == s
  {
  }

  /** `s.lstrip()`. */
  function TrimLeft(s: string): (r: string)
    ensures |r| <= |s| && r == s[|s| - |r|..]
    ensures IsBlank(s[..|s| - |r|])
    ensures r != [] ==> !IsSpace(r[0])
    decreases |s|
  {
    if s != [] && IsSpace(s[0]) then
      var r := TrimLeft(s[1..]);
      assert s[..|s| - |r|] == [s[0]] + s[1..][..|s| - 1 - |r|];
      BlankCons(s[0], s[1..][..|s| - 1 - |r|]);
      r
    else s
  }

  /** `s.rstrip()`. */
  function TrimRight(s: string): (r: string)
    ensures |r| <= |s| && r == s[..|r|]
    ensures IsBlank(s[|r|..])
    ensures r != [] ==> !IsSpace(r[|r| - 1])
    decreases |s|
  {
    if s != [] && IsSpace(s[|s| - 1]) then
      var r := TrimRight(s[..|s| - 1]);
      assert s[|r|..] == s[..|s| - 1][|r|..] + [s[|s| - 1]];
      BlankSnoc(s[..|s| - 1][|r|..], s[|s| - 1]);
      r
    else s
  }

  /** `s.strip()`: the text between its leading and its trailing whitespace. */
  function Strip(s: string): (r: string)
    ensures |r| <= |s|
    ensures r != [] ==> !IsSpace(r[0]) && !IsSpace(r[|r| - 1])
    ensures r == [] <==> IsBlank(s)
  {
    TrimRight(TrimLeft(s))
  }

  /** A text that neither starts nor ends with whitespace is its own strip. */
  lemma StripTrimmed(s: string)
    requires s != [] ==> !IsSpace(s[0]) && !IsSpace(s[|s| - 1])
    ensures Strip(s) == s
  {
  }

  /** Stripping twice is stripping once. */
  lemma StripIdempotent(s: string)
    ensures Strip(Strip(s)) == Strip(s)
  {
    StripTrimmed(Strip(s));
  }

  /** `s.lstrip(c)` for one character. */
  function TrimLeftChar(s: string, c: char): (r: string)
    ensures |r| <= |s| && r == s[|s| - |r|..]
    ensures r != [] ==> r[0] != c
    decreases |s|
  {
    if s != [] && s[0] == c then TrimLeftChar(s[1..], c) else s
  }

  lemma TrimLeftCharCons(s: string, c: char)
    ensures TrimLeftChar([c] + s, c) == TrimLeftChar(s, c)
  {
    assert ([c] + s)[1..] == s;
  }

  /** `s.rstrip(c)` for one character. */
  function TrimRightChar(s: string, c: char): (r: string)
    ensures |r| <= |s| && r == s[..|r|]
    ensures r != [] ==> r[|r| - 1] != c
    decreases |s|
  {
    if s != [] && s[|s| - 1] == c then TrimRightChar(s[..|s| - 1], c) else s
  }

  lemma TrimRightCharSnoc(s: string, c: char)
    ensures TrimRightChar(s + [c], c) == TrimRightChar(s, c)
  {
    assert (s + [c])[..|s|] == s;
  }

  /** Any run of leading `c` is dropped. */
  lemma {:induction false} TrimLeftCharRun(pre: string, s: string, c: char)
    requires forall k :: 0 <= k < |pre| ==> pre[k] == c
    ensures TrimLeftChar(pre + s, c) == TrimLeftChar(s, c)
    decreases |pre|
  {
    if pre == [] {
      assert pre + s == s;
    } else {
      assert pre + s == [c] + (pre[1..] + s);
      TrimLeftCharCons(pre[1..] + s, c);
      TrimLeftCharRun(pre[1..], s, c);
    }
  }

  /** Any run of trailing `c` is dropped. */
  lemma {:induction false} TrimRightCharRun(s: string, post: string, c: char)
    requires forall k :: 0 <= k < |post| ==> post[k] == c
    ensures TrimRightChar(s + post, c) == TrimRightChar(s, c)
    decreases |post|
  {
    if post == [] {
      assert s + post == s;
    } else {
      var front := post[..|post| - 1];
      assert s + post == (s + front) + [c];
      TrimRightCharSnoc(s + front, c);
      TrimRightCharRun(s, front, c);
    }
  }

  /** `s.strip(c)` for one character. */
  function StripChar(s: string, c: char): (r: string)
    ensures r != [] ==> r[0] != c && r[|r| - 1] != c
  {
    TrimRightChar(TrimLeftChar(s, c), c)
  }

  /** `s.replace(x, y)` for one character each. */
  function ReplaceChar(s: string, x: char, y: char): (r: string)
    ensures |r| == |s|
    decreases |s|
  {
    if s == [] then [] else [if s[0] == x then y else s[0]] + ReplaceChar(s[1..], x, y)
  }

  /** After replacing `x` by another character, no `x` is left. */
  lemma {:induction false} ReplaceCharRemoves(s: string, x: char, y: char)
    requires x != y
    ensures x !in ReplaceChar(s, x, y)
    decreases |s|
  {
    if s != [] {
      ReplaceCharRemoves(s[1..], x, y);
    }
  }

  /** Replacing a character the text does not hold changes nothing. */
  lemma {:induction false} ReplaceCharAbsent(s: string, x: char, y: char)
    requires x !in s
    ensures ReplaceChar(s, x, y) == s
    decreases |s|
  {
    if s != [] {
      assert s[0] in s;
      assert forall c :: c in s[1..] ==> c in s;
      ReplaceCharAbsent(s[1..], x, y);
      assert s == [s[0]] + s[1..];
    }
  }

  /** Replacing `x` by a `y` the text did not hold can be undone by replacing `y` by `x`. */
  lemma {:induction false} ReplaceCharUndo(s: string, x: char, y: char)
    requires y !in s
    ensures ReplaceChar(ReplaceChar(s, x, y), y, x) == s
    decreases |s|
  {
    if s != [] {
      assert s[0] in s;
      assert forall c :: c in s[1..] ==> c in s;
      ReplaceCharUndo(s[1..], x, y);
      var r := ReplaceChar(s, x, y);
      assert r[1..] == ReplaceChar(s[1..], x, y);
      assert s == [s[0]] + s[1..];
    }
  }

  predicate StartsWith(s: string, prefix: string) {
    |prefix| <= |s| && s[..|prefix|] == prefix
  }

  predicate EndsWith(s: string, suffix: string) {
    |suffix| <= |s| && s[|s| - |suffix|..] == suffix
  }

  /** A suffix of a suffix is a suffix. */
  lemma EndsWithTransitive(a: string, b: string, c: string)
    requires EndsWith(a, b) && EndsWith(b, c)
    ensures EndsWith(a, c)
  {
    assert a[|a| - |c|..] == a[|a| - |b|..][|b| - |c|..];
  }

  /** `sub in s` for strings. */
  predicate Contains(s: string, sub: string)
    decreases |s|
  {
    StartsWith(s, sub) || (s != [] && Contains(s[1..], sub))
  }

  /** Position of the first `c` in `s`, as `str.find` and a regex `[^c]*` scan find it. */
  function IndexOf(s: string, c: char): (r: Option<nat>)
    ensures r.None? ==> c !in s
    ensures r.Some? ==> r.value < |s| && s[r.value] == c && c !in s[..r.value]
    decreases |s|
  {
    if s == [] then None
    else if s[0] == c then Some(0)
    else
      var r := IndexOf(s[1..], c);
      if r.None? then None
      else
        assert s[..r.value + 1] == [s[0]] + s[1..][..r.value];
        Some(r.value + 1)
  }

  /** The first `c` of `a + b` is the one `b` starts with when `a` has none. */
  lemma {:induction false} IndexOfAt(a: string, b: string, c: char)
    requires c !in a && b != [] && b[0] == c
    ensures IndexOf(a + b, c) == Some(|a|)
    decreases |a|
  {
    if a == [] {
      assert a + b == b;
    } else {
      assert a[0] in a;
      assert (a + b)[0] == a[0] && (a + b)[1..] == a[1..] + b;
      assert forall x :: x in a[1..] ==> x in a;
      IndexOfAt(a[1..], b, c);
    }
  }

  /** Position of the last `c` in `s`, as `s.rsplit(c, 1)` finds it. */
  function LastIndexOf(s: string, c: char): (r: Option<nat>)
    ensures r.None? ==> c !in s
    ensures r.Some? ==> r.value < |s| && s[r.value] == c && c !in s[r.value + 1..]
    decreases |s|
  {
    if s == [] then None
    else if s[|s| - 1] == c then Some(|s| - 1)
    else
      var r := LastIndexOf(s[..|s| - 1], c);
      assert s == s[..|s| - 1] + [s[|s| - 1]];
      r
  }

  /** `s.split(c)` for a one-character separator. */
  function Split(s: string, c: char): (parts: seq<string>)
    ensures |parts| >= 1
    ensures forall k :: 0 <= k < |parts| ==> c !in parts[k]
    decreases |s|
  {
    if s == [] then [""]
    else
      var rest := Split(s[1..], c);
      if s[0] == c then [""] + rest else [[s[0]] + rest[0]] + rest[1..]
  }

  /** `sep.join(parts)`. */
  function Join(parts: seq<string>, sep: string): string
    decreases |parts|
  {
    if parts == [] then ""
    else if |parts| == 1 then parts[0]
    else parts[0] + sep + Join(parts[1..], sep)
  }

  /** Joining one more part appends the separator and the part. */
  lemma {:induction false} JoinSnoc(parts: seq<string>, p: string, sep: string)
    requires parts != []
    ensures Join(parts + [p], sep) == Join(parts, sep) + sep + p
    decreases |parts|
  {
    if |parts| > 1 {
      assert (parts + [p])[1..] == parts[1..] + [p];
      JoinSnoc(parts[1..], p, sep);
    }
  }

  /** Joining the pieces of a split puts the separators back: `c.join(s.split(c)) == s`. */
  lemma {:induction false} JoinSplit(s: string, c: char)
    ensures Join(Split(s, c), [c]) == s
    decreases |s|
  {
    if s != [] {
      JoinSplit(s[1..], c);
      var rest := Split(s[1..], c);
      if s[0] != c && |rest| > 1 {
        assert ([[s[0]] + rest[0]] + rest[1..])[1..] == rest[1..];
      }
    }
  }

  /** A prefix without `c`, then `c`, splits off as one whole part. */
  lemma {:induction false} SplitPrefix(a: string, b: string, c: char)
    requires c !in a
    ensures Split(a + [c] + b, c) == [a] + Split(b, c)
    decreases |a|
  {
    if a != [] {
      assert (a + [c] + b)[1..] == a[1..] + [c] + b;
      SplitPrefix(a[1..], b, c);
      assert [a[0]] + a[1..] == a;
    } else {
      assert a + [c] + b == [c] + b;
    }
  }

  /** A text without `c` is one part. */
  lemma {:induction false} SplitNone(a: string, c: char)
    requires c !in a
    ensures Split(a, c) == [a]
    decreases |a|
  {
    if a != [] {
      SplitNone(a[1..], c);
      assert [a[0]] + a[1..] == a;
    }
  }

  /** Splitting a join recovers the parts when none of them holds the separator. */
  lemma {:induction false} SplitJoin(parts: seq<string>, c: char)
    requires parts != []
    requires forall k :: 0 <= k < |parts| ==> c !in parts[k]
    ensures Split(Join(parts, [c]), c) == parts
    decreases |parts|
  {
    if |parts| == 1 {
      SplitNone(parts[0], c);
    } else {
      SplitJoin(parts[1..], c);
      SplitPrefix(parts[0], Join(parts[1..], [c]), c);
      assert [parts[0]] + parts[1..] == parts;
    }
  }

  /** Appending the separator to a text adds one empty part to its split. */
  lemma {:induction false} SplitSnocSep(t: string, c: char)
    ensures Split(t + [c], c) == Split(t, c) + [""]
    decreases |t|
  {
    if t == [] {
      assert t + [c] == [c] && [c][1..] == [];
    } else {
      assert (t + [c])[1..] == t[1..] + [c];
      SplitSnocSep(t[1..], c);
      var rest := Split(t[1..], c);
      if t[0] != c {
        assert (rest + [""])[0] == rest[0];
        assert (rest + [""])[1..] == rest[1..] + [""];
      }
    }
  }

  /** Appending another character to a text extends the last part of its split. */
  lemma {:induction false} SplitSnocChar(t: string, x: char, c: char)
    requires x != c
    ensures var p := Split(t, c); Split(t + [x], c) == p[..|p| - 1] + [p[|p| - 1] + [x]]
    decreases |t|
  {
    if t == [] {
      assert t + [x] == [x] && [x][1..] == [];
      assert [x] + "" == [x];
    } else {
      SplitSnocChar(t[1..], x, c);
      if t[0] == c {
        SplitSnocCharAfterSep(t, x, c);
      } else if |Split(t[1..], c)| == 1 {
        SplitSnocCharOnePart(t, x, c);
      } else {
        SplitSnocCharMoreParts(t, x, c);
      }
    }
  }

  /** The inductive step of SplitSnocChar when the text starts with the separator. */
  lemma SplitSnocCharAfterSep(t: string, x: char, c: char)
    requires x != c && t != [] && t[0] == c
    requires var rest := Split(t[1..], c);
      Split(t[1..] + [x], c) == rest[..|rest| - 1] + [rest[|rest| - 1] + [x]]
    ensures var p := Split(t, c); Split(t + [x], c) == p[..|p| - 1] + [p[|p| - 1] + [x]]
  {
    assert (t + [x])[0] == c && (t + [x])[1..] == t[1..] + [x];
    var rest := Split(t[1..], c);
    var p := Split(t, c);
    assert p == [""] + rest;
    assert p[..|p| - 1] == [""] + rest[..|rest| - 1];
    assert p[|p| - 1] == rest[|rest| - 1];
  }

  /** The inductive step of SplitSnocChar when the text has no separator after its first character. */
  lemma SplitSnocCharOnePart(t: string, x: char, c: char)
    requires x != c && t != [] && t[0] != c && |Split(t[1..], c)| == 1
    requires var rest := Split(t[1..], c);
      Split(t[1..] + [x], c) == rest[..|rest| - 1] + [rest[|rest| - 1] + [x]]
    ensures var p := Split(t, c); Split(t + [x], c) == p[..|p| - 1] + [p[|p| - 1] + [x]]
  {
    assert (t + [x])[0] == t[0] && (t + [x])[1..] == t[1..] + [x];
    var rest := Split(t[1..], c);
    assert Split(t[1..] + [x], c) == [rest[0] + [x]];
    assert [t[0]] + (rest[0] + [x]) == ([t[0]] + rest[0]) + [x];
    assert Split(t, c) == [[t[0]] + rest[0]];
  }

  /** The inductive step of SplitSnocChar when the text holds a separator after its first character. */
  lemma SplitSnocCharMoreParts(t: string, x: char, c: char)
    requires x != c && t != [] && t[0] != c && |Split(t[1..], c)| > 1
    requires var rest := Split(t[1..], c);
      Split(t[1..] + [x], c) == rest[..|rest| - 1] + [rest[|rest| - 1] + [x]]
    ensures var p := Split(t, c); Split(t + [x], c) == p[..|p| - 1] + [p[|p| - 1] + [x]]
  {
    assert (t + [x])[0] == t[0] && (t + [x])[1..] == t[1..] + [x];
    var rest := Split(t[1..], c);
    var rest' := Split(t[1..] + [x], c);
    var h := [t[0]] + rest[0];
    assert rest'[0] == rest[0];
    assert rest'[1..] == rest[1..|rest| - 1] + [rest[|rest| - 1] + [x]];
    assert Split(t + [x], c) == [h] + rest'[1..];
    assert Split(t, c) == [h] + rest[1..];
    ConsSnocLast(h, rest, [x]);
  }

  /** Replacing the head of a list and extending its last element commute. */
  lemma ConsSnocLast(h: string, rest: seq<string>, y: string)
    requires |rest| > 1
    ensures var p := [h] + rest[1..];
      p[..|p| - 1] + [p[|p| - 1] + y] == [h] + (rest[1..|rest| - 1] + [rest[|rest| - 1] + y])
  {
    var p := [h] + rest[1..];
    assert p[..|p| - 1] == [h] + rest[1..|rest| - 1];
    assert p[|p| - 1] == rest[|rest| - 1];
  }

  /** `a <= b` on Python strings: code-point lexicographic order. */
  predicate Below(a: string, b: string)
    decreases |a|
  {
    a == [] || (b != [] && (a[0] < b[0] || (a[0] == b[0] && Below(a[1..], b[1..]))))
  }

  lemma {:induction false} BelowTotal(a: string, b: string)
    ensures Below(a, b) || Below(b, a)
    decreases |a|
  {
    if a != [] && b != [] && a[0] == b[0] {
      BelowTotal(a[1..], b[1..]);
    }
  }

  lemma {:induction false} BelowAntisymmetric(a: string, b: string)
    requires Below(a, b) && Below(b, a)
    ensures a == b
    decreases |a|
  {
    if a != [] {
      BelowAntisymmetric(a[1..], b[1..]);
      assert a == [a[0]] + a[1..] && b == [b[0]] + b[1..];
    }
  }

  lemma {:induction false} BelowTransitive(a: string, b: string, c: string)
    requires Below(a, b) && Below(b, c)
    ensures Below(a, c)
    decreases |a|
  {
    if a != [] && a[0] == b[0] && b[0] == c[0] {
      BelowTransitive(a[1..], b[1..], c[1..]);
    }
  }

  /** `os.path.join(a, b)` on POSIX: an absolute `b` wins; otherwise one `/` between. */
  function PathJoin(a: string, b: string): (r: string)
    ensures EndsWith(r, b)
    ensures StartsWith(b, "/") ==> r == b
  {
    if StartsWith(b, "/") then b
    else if a == [] || EndsWith(a, "/") then a + b
    else a + "/" + b
  }
}
