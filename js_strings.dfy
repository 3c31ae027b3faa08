/** The two JavaScript string operations the ingestion code relies on:
    `String.prototype.trim` and `String.prototype.split` with a one-character
    separator, together with `Array.prototype.join` as the inverse of `split`. */
module JsStrings {

  /** The code points ECMAScript classes as WhiteSpace or LineTerminator; these are
      exactly the characters `trim` removes from either end of a string. */
  predicate IsJsWhitespace(c: char) {
    || c == '\t' || c == '\U{000B}' || c == '\U{000C}' || c == ' '
    || c == '\U{00A0}' || c == '\U{FEFF}' || c == '\U{1680}'
    || ('\U{2000}' <= c <= '\U{200A}')
    || c == '\U{202F}' || c == '\U{205F}' || c == '\U{3000}'
    || c == '\n' || c == '\r' || c == '\U{2028}' || c == '\U{2029}'
  }

  ghost predicate AllWhitespace(s: string) {
    forall i :: 0 <= i < |s| ==> IsJsWhitespace(s[i])
  }

  /** A string with no whitespace at either end. */
  predicate IsTrimmed(s: string) {
    s == [] || (!IsJsWhitespace(s[0]) && !IsJsWhitespace(s[|s| - 1]))
  }

  /** Reference definition of trimming: cutting a whitespace-only prefix of length `k`
      and a whitespace-only suffix off `s` leaves `r`, which itself has no whitespace
      at either end. */
  ghost predicate IsTrimAt(s: string, k: nat, r: string) {
    && k + |r| <= |s|
    && s[k..k + |r|] == r
    && AllWhitespace(s[..k])
    && AllWhitespace(s[k + |r|..])
    && IsTrimmed(r)
  }

  ghost predicate IsTrimOf(s: string, r: string) {
    exists k: nat :: IsTrimAt(s, k, r)
  }

  /** `s.trimStart()`. */
  function TrimStart(s: string): string {
    if |s| > 0 && IsJsWhitespace(s[0]) then TrimStart(s[1..]) else s
  }

  /** `s.trimEnd()`. */
  function TrimEnd(s: string): string {
    if |s| > 0 && IsJsWhitespace(s[|s| - 1]) then TrimEnd(s[..|s| - 1]) else s
  }

  /** `s.trim()`: no longer than `s`, with no whitespace left at either end. */
  function Trim(s: string): (r: string)
    ensures |r| <= |s|
    ensures IsTrimmed(r)
  {
    var e := TrimEnd(s);
    TrimEndSpec(s);
    TrimStartSpec(e);
    assert TrimStart(e) != [] ==> TrimStart(e)[|TrimStart(e)| - 1] == e[|e| - 1];
    TrimStart(e)
  }

  /** `trimStart` removes a whitespace-only prefix, and no shorter one. */
  lemma {:induction false} TrimStartSpec(s: string)
    ensures var r := TrimStart(s);
      && |r| <= |s| && r == s[|s| - |r|..]
      && AllWhitespace(s[..|s| - |r|])
      && (r == [] || !IsJsWhitespace(r[0]))
    decreases |s|
  {
    if |s| > 0 && IsJsWhitespace(s[0]) {
      TrimStartSpec(s[1..]);
      var r := TrimStart(s[1..]);
      assert s[..|s| - |r|] == [s[0]] + s[1..][..|s| - 1 - |r|];
    }
  }

  /** `trimEnd` removes a whitespace-only suffix, and no shorter one. */
  lemma {:induction false} TrimEndSpec(s: string)
    ensures var r := TrimEnd(s);
      && |r| <= |s| && r == s[..|r|]
      && AllWhitespace(s[|r|..])
      && (r == [] || !IsJsWhitespace(r[|r| - 1]))
    decreases |s|
  {
    if |s| > 0 && IsJsWhitespace(s[|s| - 1]) {
      TrimEndSpec(s[..|s| - 1]);
      var r := TrimEnd(s[..|s| - 1]);
      assert s[|r|..] == s[..|s| - 1][|r|..] + [s[|s| - 1]];
    }
  }

  /** `trim` meets the reference definition. */
  lemma TrimSpec(s: string)
    ensures IsTrimOf(s, Trim(s))
  {
    var e := TrimEnd(s);
    var t := TrimStart(e);
    TrimEndSpec(s);
    TrimStartSpec(e);
    var k := |e| - |t|;
    assert s[k..k + |t|] == t;
    assert AllWhitespace(s[..k]) by { assert s[..k] == e[..k]; }
    assert AllWhitespace(s[k + |t|..]) by { assert s[k + |t|..] == s[|e|..]; }
    assert IsTrimmed(t) by {
      if t != [] { assert t[|t| - 1] == e[|e| - 1]; }
    }
    assert IsTrimAt(s, k, t);
  }

  /** Every non-whitespace character of `s` lies inside its trim. */
  lemma TextLiesInsideTrim(s: string, k: nat, r: string, i: nat)
    requires IsTrimAt(s, k, r)
    requires i < |s| && !IsJsWhitespace(s[i])
    ensures r != [] && k <= i < k + |r|
  {
  }

  /** The reference definition pins the trim down: there is only one. */
  lemma TrimOfIsUnique(s: string, r1: string, r2: string)
    requires IsTrimOf(s, r1) && IsTrimOf(s, r2)
    ensures r1 == r2
  {
    var k1: nat :| IsTrimAt(s, k1, r1);
    var k2: nat :| IsTrimAt(s, k2, r2);
    if r1 != [] {
      assert s[k1] == r1[0] && s[k1 + |r1| - 1] == r1[|r1| - 1];
      TextLiesInsideTrim(s, k2, r2, k1);
      TextLiesInsideTrim(s, k2, r2, k1 + |r1| - 1);
    }
    if r2 != [] {
      assert s[k2] == r2[0] && s[k2 + |r2| - 1] == r2[|r2| - 1];
      TextLiesInsideTrim(s, k1, r1, k2);
      TextLiesInsideTrim(s, k1, r1, k2 + |r2| - 1);
    }
  }

  /** Any string meeting the reference definition is what `trim` returns. */
  lemma TrimMatchesReference(s: string, r: string)
    requires IsTrimOf(s, r)
    ensures Trim(s) == r
  {
    TrimSpec(s);
    TrimOfIsUnique(s, Trim(s), r);
  }

  /** `trim` returns the empty string exactly when the input is all whitespace. */
  lemma TrimEmptyIffAllWhitespace(s: string)
    ensures Trim(s) == [] <==> AllWhitespace(s)
  {
    if AllWhitespace(s) {
      assert s[..0] == [] && s[0..0] == [] && s[0..] == s;
      assert IsTrimAt(s, 0, []);
      TrimMatchesReference(s, []);
    } else {
      var i :| 0 <= i < |s| && !IsJsWhitespace(s[i]);
      TrimSpec(s);
      var k: nat :| IsTrimAt(s, k, Trim(s));
    }
  }

  /** A string without whitespace at its ends is left as it is. */
  lemma TrimOfTrimmed(s: string)
    requires IsTrimmed(s)
    ensures Trim(s) == s
  {
    assert s[0..|s|] == s && s[..0] == [] && s[|s|..] == [];
    assert IsTrimAt(s, 0, s);
    TrimMatchesReference(s, s);
  }

  /** A space before text is trimmed away. */
  lemma TrimDropsLeadingSpace(s: string)
    requires IsTrimmed(s)
    ensures Trim(" " + s) == s
  {
    var t := " " + s;
    assert t[1..1 + |s|] == s && t[..1] == " " && t[1 + |s|..] == [];
    assert IsTrimAt(t, 1, s);
    TrimMatchesReference(t, s);
  }

  /** Trimming twice is the same as trimming once. */
  lemma TrimIdempotent(s: string)
    ensures Trim(Trim(s)) == Trim(s)
  {
    var r := Trim(s);
    TrimSpec(s);
    var k: nat :| IsTrimAt(s, k, r);
    TrimOfTrimmed(r);
  }

  /** One more whitespace character at the end (a `'\r'` of a CRLF line ending, say)
      does not change the trim. */
  lemma TrimIgnoresTrailingWhitespace(s: string, c: char)
    requires IsJsWhitespace(c)
    ensures Trim(s + [c]) == Trim(s)
  {
    assert (s + [c])[..|s + [c]| - 1] == s;
  }

  /** `s.split(sep)`: the pieces between occurrences of `sep`, in order. There is one
      piece more than there are separators, so even `""` yields `[""]`. */
  function Split(s: string, sep: char): (r: seq<string>)
    ensures |r| >= 1
    decreases |s|
  {
    if s == [] then [[]] else PushChar(s[0], Split(s[1..], sep), sep)
  }

  /** The pieces of `[c] + t`, given the pieces of `t`: a separator opens a new,
      empty first piece, any other character joins the first piece. */
  function PushChar(c: char, pieces: seq<string>, sep: char): (r: seq<string>)
    requires |pieces| >= 1
    ensures |r| >= 1
  {
    if c == sep then [[]] + pieces else [[c] + pieces[0]] + pieces[1..]
  }

  lemma SplitCons(c: char, t: string, sep: char)
    ensures Split([c] + t, sep) == PushChar(c, Split(t, sep), sep)
  {
    assert ([c] + t)[1..] == t;
  }

  lemma PushCharAppend(c: char, x: seq<string>, y: seq<string>, sep: char)
    requires |x| >= 1
    ensures PushChar(c, x + y, sep) == PushChar(c, x, sep) + y
  {
    if c != sep {
      assert (x + y)[1..] == x[1..] + y;
    }
  }

  /** `parts.join(sep)`. */
  function Join(parts: seq<string>, sep: char): string
  {
    if |parts| == 0 then []
    else if |parts| == 1 then parts[0]
    else parts[0] + [sep] + Join(parts[1..], sep)
  }

  /** Joining the pieces of a split gives back the original string. */
  lemma {:induction false} JoinSplit(s: string, sep: char)
    ensures Join(Split(s, sep), sep) == s
    decreases |s|
  {
    if s != [] {
      JoinSplit(s[1..], sep);
      var rest := Split(s[1..], sep);
      if s[0] == sep {
        assert ([[]] + rest)[1..] == rest;
      } else if |rest| > 1 {
        assert ([[s[0]] + rest[0]] + rest[1..])[1..] == rest[1..];
      }
    }
  }

  /** A string without the separator is a single piece. */
  lemma {:induction false} SplitWithoutSeparator(s: string, sep: char)
    requires sep !in s
    ensures Split(s, sep) == [s]
    decreases |s|
  {
    if s != [] {
      assert sep !in s[1..];
      SplitWithoutSeparator(s[1..], sep);
      assert [s[0]] + s[1..] == s;
    }
  }

  /** How many times `c` occurs in `s`. */
  function Occurrences(s: string, c: char): nat {
    if s == [] then 0 else (if s[0] == c then 1 else 0) + Occurrences(s[1..], c)
  }

  /** No piece contains the separator. */
  lemma {:induction false} SplitPiecesAvoidSeparator(s: string, sep: char)
    ensures forall i :: 0 <= i < |Split(s, sep)| ==> sep !in Split(s, sep)[i]
    decreases |s|
  {
    if s != [] {
      SplitPiecesAvoidSeparator(s[1..], sep);
      var p := Split(s[1..], sep);
      if s[0] != sep {
        forall i | 1 <= i < |Split(s, sep)|
          ensures sep !in Split(s, sep)[i]
        {
          assert Split(s, sep)[i] == p[i];
        }
      }
    }
  }

  /** There is one piece more than there are separators. */
  lemma {:induction false} SplitPieceCount(s: string, sep: char)
    ensures |Split(s, sep)| == Occurrences(s, sep) + 1
    decreases |s|
  {
    if s != [] {
      SplitPieceCount(s[1..], sep);
    }
  }

  /** Splitting distributes over a separator occurrence. */
  lemma {:induction false} SplitAtSeparator(a: string, b: string, sep: char)
    ensures Split(a + [sep] + b, sep) == Split(a, sep) + Split(b, sep)
    decreases |a|
  {
    if a == [] {
      assert a + [sep] + b == [sep] + b;
      SplitCons(sep, b, sep);
    } else {
      assert a + [sep] + b == [a[0]] + (a[1..] + [sep] + b);
      SplitCons(a[0], a[1..] + [sep] + b, sep);
      SplitAtSeparator(a[1..], b, sep);
      PushCharAppend(a[0], Split(a[1..], sep), Split(b, sep), sep);
    }
  }

  /** A first piece without the separator comes off whole. */
  lemma SplitFirstPiece(first: string, rest: string, sep: char)
    requires sep !in first
    ensures Split(first + [sep] + rest, sep) == [first] + Split(rest, sep)
  {
    SplitAtSeparator(first, rest, sep);
    SplitWithoutSeparator(first, sep);
  }

  /** A non-separator character appended to `s` joins the last piece. */
  lemma {:induction false} SplitAppendChar(s: string, c: char, sep: char)
    requires c != sep
    ensures var p := Split(s, sep);
      Split(s + [c], sep) == p[..|p| - 1] + [p[|p| - 1] + [c]]
    decreases |s|
  {
    if s == [] {
      assert s + [c] == [c] + [];
      SplitCons(c, [], sep);
    } else {
      var t := s[1..];
      assert s == [s[0]] + t && s + [c] == [s[0]] + (t + [c]);
      SplitCons(s[0], t, sep);
      SplitCons(s[0], t + [c], sep);
      SplitAppendChar(t, c, sep);
      var q := Split(t, sep);
      var q' := Split(t + [c], sep);
      assert q' == q[..|q| - 1] + [q[|q| - 1] + [c]];
      if s[0] != sep {
        if |q| == 1 {
          assert q' == [q[0] + [c]];
          assert [s[0]] + (q[0] + [c]) == ([s[0]] + q[0]) + [c];
        } else {
          assert q'[0] == q[0] && q'[1..] == q[1..][..|q| - 2] + [q[|q| - 1] + [c]];
        }
      }
    }
  }

  /** Splitting a join of separator-free pieces gives the pieces back. */
  lemma {:induction false} SplitJoin(parts: seq<string>, sep: char)
    requires |parts| > 0
    requires forall i :: 0 <= i < |parts| ==> sep !in parts[i]
    ensures Split(Join(parts, sep), sep) == parts
  {
    if |parts| == 1 {
      SplitWithoutSeparator(parts[0], sep);
    } else {
      SplitJoin(parts[1..], sep);
      SplitAtSeparator(parts[0], Join(parts[1..], sep), sep);
      SplitWithoutSeparator(parts[0], sep);
      assert parts == [parts[0]] + parts[1..];
    }
  }
}
