/**
 * The two JavaScript string operations the response validator relies on:
 * `Array.prototype.join` and `String.prototype.trim`, plus `Split`, the inverse
 * of `Join` for parts that do not contain the separator.
 */
module JsText {

  /**
   * A value that the `+` operator may meet where text is expected: a missing
   * property, `null`, or a string.
   */
  datatype JsString = Undefined | Null | Str(text: string)

  /** The text `+` concatenates for `v`: "undefined", "null" or the string itself. */
  function ToText(v: JsString): (text: string)
    ensures v.Str? ==> text == v.text
    ensures v.Undefined? ==> text == "undefined"
    ensures v.Null? ==> text == "null"
  {
    match v
    case Undefined => "undefined"
    case Null => "null"
    case Str(t) => t
  }

  /**
   * The code points `String.prototype.trim` removes: ECMAScript WhiteSpace
   * (TAB, VT, FF, ZWNBSP and every space separator) and LineTerminator
   * (LF, CR, LS, PS).
   */
  predicate IsWhiteSpace(c: char)
  {
    c == '\t' || c == '\n' || c == '\U{000B}' || c == '\U{000C}' || c == '\r' ||
    c == ' ' || c == '\U{00A0}' || c == '\U{1680}' ||
    ('\U{2000}' <= c <= '\U{200A}') ||
    c == '\U{2028}' || c == '\U{2029}' || c == '\U{202F}' || c == '\U{205F}' ||
    c == '\U{3000}' || c == '\U{FEFF}'
  }

  predicate AllWhiteSpace(s: string)
  {
    forall i :: 0 <= i < |s| ==> IsWhiteSpace(s[i])
  }

  /** Neither end of `s` is white space. */
  predicate Unpadded(s: string)
  {
    s == [] || (!IsWhiteSpace(s[0]) && !IsWhiteSpace(s[|s| - 1]))
  }

  /** `s` with its leading white space removed: the longest suffix not starting with white space. */
  function TrimStart(s: string): (r: string)
    ensures |r| <= |s| && r == s[|s| - |r|..]
    ensures AllWhiteSpace(s[..|s| - |r|])
    ensures r == [] || !IsWhiteSpace(r[0])
  {
    if |s| > 0 && IsWhiteSpace(s[0]) then
      var r := TrimStart(s[1..]);
      assert s[..|s| - |r|] == [s[0]] + s[1..][..|s| - 1 - |r|];
      r
    else s
  }

  /** `s` with its trailing white space removed: the longest prefix not ending in white space. */
  function TrimEnd(s: string): (r: string)
    ensures |r| <= |s| && r == s[..|r|]
    ensures AllWhiteSpace(s[|r|..])
    ensures r == [] || !IsWhiteSpace(r[|r| - 1])
  {
    if |s| > 0 && IsWhiteSpace(s[|s| - 1]) then
      var r := TrimEnd(s[..|s| - 1]);
      assert s[|r|..] == s[..|s| - 1][|r|..] + [s[|s| - 1]];
      r
    else s
  }

  /** `String.prototype.trim`. */
  function Trim(s: string): (r: string)
    ensures |r| <= |s|
    ensures Unpadded(r)
  {
    TrimEnd(TrimStart(s))
  }

  /** `parts.join(sep)`: the parts with one `sep` between neighbours, "" for no parts. */
  function Join(parts: seq<string>, sep: string): (r: string)
    ensures |parts| == 0 ==> r == ""
    ensures |parts| > 0 ==> parts[0] <= r
    ensures |parts| > 1 ==> parts[0] + sep <= r
    decreases |parts|
  {
    if |parts| == 0 then ""
    else if |parts| == 1 then parts[0]
    else parts[0] + sep + Join(parts[1..], sep)
  }

  /** The pieces of `s` between occurrences of `c` (`s.split(c)` in JavaScript). */
  function Split(s: string, c: char): (r: seq<string>)
    ensures |r| > 0
  {
    if |s| == 0 then [""]
    else if s[0] == c then [""] + Split(s[1..], c)
    else
      var rest := Split(s[1..], c);
      [[s[0]] + rest[0]] + rest[1..]
  }

  /** `t` sits in `s` at offset `k` with only white space before and after it. */
  predicate PaddedAt(s: string, t: string, k: int)
  {
    0 <= k <= |s| - |t| && t == s[k..k + |t|] && AllWhiteSpace(s[..k]) && AllWhiteSpace(s[k + |t|..])
  }

  /** White space, then `t`, where `t` is `r` followed by white space: `r` is padded in `s`. */
  lemma PaddedInSuffix(s: string, t: string, r: string)
    requires |t| <= |s| && t == s[|s| - |t|..] && AllWhiteSpace(s[..|s| - |t|])
    requires |r| <= |t| && r == t[..|r|] && AllWhiteSpace(t[|r|..])
    ensures PaddedAt(s, r, |s| - |t|)
  {
  }

  /** Trim removes white space at the two ends and nothing else. */
  lemma {:induction false} TrimIsInfix(s: string)
    ensures exists k :: PaddedAt(s, Trim(s), k)
  {
    var t := TrimStart(s);
    PaddedInSuffix(s, t, TrimEnd(t));
    assert PaddedAt(s, Trim(s), |s| - |t|);
  }

  lemma {:induction false} TrimStartSkips(a: string, t: string)
    requires AllWhiteSpace(a)
    ensures TrimStart(a + t) == TrimStart(t)
    decreases |a|
  {
    if |a| > 0 {
      assert (a + t)[0] == a[0] && (a + t)[1..] == a[1..] + t;
      TrimStartSkips(a[1..], t);
    } else {
      assert a + t == t;
    }
  }

  lemma {:induction false} TrimEndSkips(t: string, b: string)
    requires AllWhiteSpace(b)
    ensures TrimEnd(t + b) == TrimEnd(t)
    decreases |b|
  {
    if |b| > 0 {
      assert (t + b)[|t + b| - 1] == b[|b| - 1];
      assert (t + b)[..|t + b| - 1] == t + b[..|b| - 1];
      TrimEndSkips(t, b[..|b| - 1]);
    } else {
      assert t + b == t;
    }
  }

  /** Trim is determined by its specification: white space, then an unpadded core, then white space. */
  lemma {:induction false} TrimUnique(a: string, m: string, b: string)
    requires AllWhiteSpace(a) && Unpadded(m) && AllWhiteSpace(b)
    ensures Trim(a + m + b) == m
  {
    assert a + m + b == a + (m + b);
    TrimStartSkips(a, m + b);
    var t := TrimStart(m + b);
    if m == [] {
      assert m + b == b + [];
      TrimStartSkips(b, []);
      assert t == [];
    } else {
      assert (m + b)[0] == m[0];
      assert t == m + b;
      TrimEndSkips(m, b);
      assert TrimEnd(m) == m;
    }
  }

  lemma {:induction false} TrimIdempotent(s: string)
    ensures Trim(Trim(s)) == Trim(s)
  {
  }

  lemma {:induction false} SplitNoSeparator(a: string, c: char)
    requires c !in a
    ensures Split(a, c) == [a]
    decreases |a|
  {
    if |a| > 0 {
      SplitNoSeparator(a[1..], c);
      assert [a[0]] + a[1..] == a;
    }
  }

  lemma {:induction false} SplitAfterPart(a: string, c: char, t: string)
    requires c !in a
    ensures Split(a + [c] + t, c) == [a] + Split(t, c)
    decreases |a|
  {
    var s := a + [c] + t;
    if |a| == 0 {
      assert s == [c] + t && s[1..] == t;
    } else {
      assert s[0] == a[0] && s[1..] == a[1..] + [c] + t;
      SplitAfterPart(a[1..], c, t);
      assert [a[0]] + a[1..] == a;
    }
  }

  /** Joining with a one-character separator that no part contains can be undone by Split. */
  lemma {:induction false} SplitJoin(parts: seq<string>, c: char)
    requires |parts| > 0
    requires forall i :: 0 <= i < |parts| ==> c !in parts[i]
    ensures Split(Join(parts, [c]), c) == parts
    decreases |parts|
  {
    if |parts| == 1 {
      SplitNoSeparator(parts[0], c);
    } else {
      SplitJoin(parts[1..], c);
      SplitAfterPart(parts[0], c, Join(parts[1..], [c]));
      assert [parts[0]] + parts[1..] == parts;
    }
  }
}
