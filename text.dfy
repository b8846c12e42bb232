/**
 * The string operations of Python that the core relies on, over ASCII:
 * str.strip(), str.lower(), str.title(), the `in` substring test,
 * str.split(sep) with a one-character separator, and the inverse of
 * split, sep.join(parts).
 */
module Text {

  /** str.isspace() on ASCII: tab, line feed, vertical tab, form feed,
      carriage return, the separators 0x1C-0x1F, and space. */
  predicate IsSpace(c: char) {
    (9 <= c as int <= 13) || (28 <= c as int <= 32)
  }

  predicate AllSpace(s: string) {
    forall k :: 0 <= k < |s| ==> IsSpace(s[k])
  }

  /** Neither end of s is whitespace. */
  predicate Trimmed(s: string) {
    s == [] || (!IsSpace(s[0]) && !IsSpace(s[|s| - 1]))
  }

  /** Drops the leading whitespace of s. */
  function TrimStart(s: string): string {
    if s != [] && IsSpace(s[0]) then TrimStart(s[1..]) else s
  }

  /** Drops the trailing whitespace of s. */
  function TrimEnd(s: string): string {
    if s != [] && IsSpace(s[|s| - 1]) then TrimEnd(s[..|s| - 1]) else s
  }

  /** TrimStart removes a whitespace prefix and nothing more: what is left is
      a suffix of s that does not start with whitespace. */
  lemma {:induction false} TrimStartSpec(s: string)
    ensures var r := TrimStart(s);
      && |r| <= |s| && r == s[|s| - |r|..]
      && AllSpace(s[..|s| - |r|])
      && (r == [] || !IsSpace(r[0]))
  {
    if s != [] && IsSpace(s[0]) {
      var t, r := s[1..], TrimStart(s);
      TrimStartSpec(t);
      assert r == t[|t| - |r|..] == s[|s| - |r|..];
      assert s[..|s| - |r|] == [s[0]] + t[..|t| - |r|];
    }
  }

  /** TrimEnd removes a whitespace suffix and nothing more: what is left is
      a prefix of s that does not end with whitespace. */
  lemma {:induction false} TrimEndSpec(s: string)
    ensures var r := TrimEnd(s);
      && |r| <= |s| && r == s[..|r|]
      && AllSpace(s[|r|..])
      && (r == [] || !IsSpace(r[|r| - 1]))
  {
    if s != [] && IsSpace(s[|s| - 1]) {
      var t, r := s[..|s| - 1], TrimEnd(s);
      TrimEndSpec(t);
      assert r == t[..|r|] == s[..|r|];
      assert s[|r|..] == t[|r|..] + [s[|s| - 1]];
    }
  }

  /** Python's strip: the part of s left after removing whitespace at both ends. */
  function Strip(s: string): (r: string)
    ensures Trimmed(r)
  {
    TrimStartSpec(s);
    TrimEndSpec(TrimStart(s));
    TrimEnd(TrimStart(s))
  }

  /** strip() removes whitespace only: its result is a stretch of s with
      nothing but whitespace before and after it. */
  lemma {:induction false} StripBounds(s: string)
    ensures var r := Strip(s);
      exists i :: 0 <= i <= |s| - |r| && r == s[i..i + |r|]
                  && AllSpace(s[..i]) && AllSpace(s[i + |r|..])
  {
    var t := TrimStart(s);
    var r := TrimEnd(t);
    TrimStartSpec(s);
    TrimEndSpec(t);
    var i := |s| - |t|;
    assert r == s[i..i + |r|];
    assert t[|r|..] == s[i + |r|..];
  }

  lemma {:induction false} TrimStartSpaces(a: string, t: string)
    requires AllSpace(a)
    ensures TrimStart(a + t) == TrimStart(t)
  {
    if a != [] {
      var s := a + t;
      assert s[0] == a[0];
      assert TrimStart(s) == TrimStart(s[1..]);
      assert s[1..] == a[1..] + t;
      TrimStartSpaces(a[1..], t);
    } else {
      assert a + t == t;
    }
  }

  lemma {:induction false} TrimEndSpaces(t: string, b: string)
    requires AllSpace(b)
    ensures TrimEnd(t + b) == TrimEnd(t)
  {
    if b != [] {
      var s := t + b;
      assert s[|s| - 1] == b[|b| - 1];
      assert TrimEnd(s) == TrimEnd(s[..|s| - 1]);
      assert s[..|s| - 1] == t + b[..|b| - 1];
      TrimEndSpaces(t, b[..|b| - 1]);
    } else {
      assert t + b == t;
    }
  }

  /** Stripping a string that has no whitespace at its ends changes nothing. */
  lemma {:induction false} StripTrimmed(s: string)
    requires Trimmed(s)
    ensures Strip(s) == s
  {
  }

  /** strip() is idempotent: stripping a second time is a no-op. */
  lemma {:induction false} StripIdempotent(s: string)
    ensures Strip(Strip(s)) == Strip(s)
  {
    StripTrimmed(Strip(s));
  }

  /** strip() gives "" exactly when s is empty or all whitespace. */
  lemma {:induction false} StripBlank(s: string)
    ensures Strip(s) == [] <==> AllSpace(s)
  {
    var r := Strip(s);
    StripBounds(s);
    var i :| 0 <= i <= |s| - |r| && r == s[i..i + |r|] && AllSpace(s[..i]) && AllSpace(s[i + |r|..]);
    if r == [] {
      forall k | 0 <= k < |s| ensures IsSpace(s[k]) {
        if k < i { assert s[..i][k] == s[k]; } else { assert s[i..][k - i] == s[k]; }
      }
    } else {
      assert !IsSpace(s[i]);
    }
  }

  /** Whitespace around a trimmed string is exactly what strip() removes. */
  lemma {:induction false} StripPadded(a: string, f: string, b: string)
    requires AllSpace(a) && AllSpace(b) && Trimmed(f)
    ensures Strip(a + f + b) == f
  {
    assert a + f + b == a + (f + b);
    TrimStartSpaces(a, f + b);
    if f == [] {
      assert f + b == b;
      TrimStartSpaces(b, []);
      assert b + [] == b;
    } else {
      assert TrimStart(f + b) == f + b;
      TrimEndSpaces(f, b);
    }
  }

  function LowerChar(c: char): char {
    if 'A' <= c <= 'Z' then (c as int + 32) as char else c
  }

  function UpperChar(c: char): char {
    if 'a' <= c <= 'z' then (c as int - 32) as char else c
  }

  predicate IsLetter(c: char) {
    'A' <= c <= 'Z' || 'a' <= c <= 'z'
  }

  /** Lower-cases every ASCII capital letter and keeps every other character. */
  function Lower(s: string): (r: string)
    ensures |r| == |s|
    ensures forall k :: 0 <= k < |s| ==> r[k] == LowerChar(s[k])
  {
    if s == [] then [] else [LowerChar(s[0])] + Lower(s[1..])
  }

  /** Lower-casing commutes with slicing. */
  lemma {:induction false} LowerSlice(s: string, i: nat, j: nat)
    requires i <= j <= |s|
    ensures Lower(s)[i..j] == Lower(s[i..j])
  {
    var a, b := Lower(s)[i..j], Lower(s[i..j]);
    forall k | 0 <= k < j - i ensures a[k] == b[k] {
      assert a[k] == LowerChar(s[i + k]);
    }
  }

  /** s.title() after the given left context: a letter is upper-cased when
      the character before it is not a letter, lower-cased otherwise. */
  function TitleAfter(s: string, prevCased: bool): (r: string)
    ensures |r| == |s|
  {
    if s == [] then []
    else [if prevCased then LowerChar(s[0]) else UpperChar(s[0])] + TitleAfter(s[1..], IsLetter(s[0]))
  }

  /** Title case: each letter that follows a non-letter is upper-cased, every
      other letter lower-cased. */
  function Title(s: string): (r: string)
    ensures |r| == |s|
  {
    TitleAfter(s, false)
  }

  /** A lower-case word keeps its letters after the first under title(). */
  lemma {:induction false} TitleAfterLowerWord(s: string)
    requires forall k :: 0 <= k < |s| ==> 'a' <= s[k] <= 'z'
    ensures TitleAfter(s, true) == s
  {
    if s != [] {
      TitleAfterLowerWord(s[1..]);
    }
  }

  /** title() of a lower-case word capitalises its first letter only. */
  lemma {:induction false} TitleLowerWord(s: string)
    requires s != [] && forall k :: 0 <= k < |s| ==> 'a' <= s[k] <= 'z'
    ensures Title(s) == [UpperChar(s[0])] + s[1..]
  {
    TitleAfterLowerWord(s[1..]);
  }

  predicate StartsWith(s: string, p: string) {
    |p| <= |s| && s[..|p|] == p
  }

  /** The test `p in s` of Python. */
  predicate Contains(s: string, p: string)
    decreases |s|
  {
    StartsWith(s, p) || (s != [] && Contains(s[1..], p))
  }

  /** p occurs in s starting at position i. */
  predicate OccursAt(s: string, p: string, i: int) {
    0 <= i <= |s| - |p| && s[i..i + |p|] == p
  }

  /** `p in s` holds exactly when p occurs at some position of s. */
  lemma {:induction false} ContainsOccurrence(s: string, p: string)
    ensures Contains(s, p) <==> exists i :: OccursAt(s, p, i)
  {
    if exists i :: OccursAt(s, p, i) {
      var i :| OccursAt(s, p, i);
      if i > 0 {
        assert s[1..][i - 1..i - 1 + |p|] == s[i..i + |p|];
        assert OccursAt(s[1..], p, i - 1);
        ContainsOccurrence(s[1..], p);
      } else {
        assert StartsWith(s, p);
      }
    }
    if Contains(s, p) && !StartsWith(s, p) {
      ContainsOccurrence(s[1..], p);
      var i :| OccursAt(s[1..], p, i);
      assert s[i + 1..i + 1 + |p|] == s[1..][i..i + |p|];
      assert OccursAt(s, p, i + 1);
    }
    if StartsWith(s, p) {
      assert OccursAt(s, p, 0);
    }
  }

  /** Occurrences of c in s. */
  function Count(s: string, c: char): nat {
    if s == [] then 0 else (if s[0] == c then 1 else 0) + Count(s[1..], c)
  }

  lemma {:induction false} CountZero(s: string, c: char)
    ensures Count(s, c) == 0 <==> c !in s
  {
    if s != [] {
      CountZero(s[1..], c);
      assert c in s <==> s[0] == c || c in s[1..];
    }
  }

  /** Splitting on one separator: the pieces between occurrences of sep, one more piece
      than there are separators. */
  function Split(s: string, sep: char): (r: seq<string>)
    ensures |r| == Count(s, sep) + 1
    ensures forall k :: 0 <= k < |r| ==> sep !in r[k]
  {
    if s == [] then [[]]
    else if s[0] == sep then [[]] + Split(s[1..], sep)
    else
      var rest := Split(s[1..], sep);
      [[s[0]] + rest[0]] + rest[1..]
  }

  /** The pieces in order, with the separator between each two. */
  function Join(parts: seq<string>, sep: char): string
    requires |parts| > 0
  {
    if |parts| == 1 then parts[0] else parts[0] + [sep] + Join(parts[1..], sep)
  }

  lemma {:induction false} JoinAppend(parts: seq<string>, p: string, sep: char)
    requires |parts| > 0
    ensures Join(parts + [p], sep) == Join(parts, sep) + [sep] + p
  {
    if |parts| > 1 {
      assert (parts + [p])[1..] == parts[1..] + [p];
      JoinAppend(parts[1..], p, sep);
    }
  }

  lemma {:induction false} JoinConcat(p: seq<string>, q: seq<string>, sep: char)
    requires |p| > 0 && |q| > 0
    ensures Join(p + q, sep) == Join(p, sep) + [sep] + Join(q, sep)
  {
    if |p| > 1 {
      assert (p + q)[1..] == p[1..] + q;
      JoinConcat(p[1..], q, sep);
    } else {
      assert (p + q)[1..] == q;
    }
  }

  /** Joining the pieces of a split gives back the string: split loses nothing. */
  lemma {:induction false} JoinSplit(s: string, sep: char)
    ensures Join(Split(s, sep), sep) == s
  {
    if s == [] {
    } else if s[0] == sep {
      JoinSplit(s[1..], sep);
      assert s == [sep] + s[1..];
    } else {
      var rest := Split(s[1..], sep);
      JoinSplit(s[1..], sep);
      if |rest| == 1 {
        assert s == [s[0]] + rest[0];
      } else {
        assert rest == [rest[0]] + rest[1..];
        assert s == [s[0]] + rest[0] + [sep] + Join(rest[1..], sep);
      }
    }
  }

  /** A piece without sep, then sep: split cuts exactly there. */
  lemma {:induction false} SplitFirst(p: string, t: string, sep: char)
    requires sep !in p
    ensures Split(p + [sep] + t, sep) == [p] + Split(t, sep)
  {
    if p != [] {
      assert (p + [sep] + t)[1..] == p[1..] + [sep] + t;
      SplitFirst(p[1..], t, sep);
      assert p == [p[0]] + p[1..];
    } else {
      assert p + [sep] + t == [sep] + t;
    }
  }

  /** A string without sep splits into itself alone. */
  lemma {:induction false} SplitNoSep(p: string, sep: char)
    requires sep !in p
    ensures Split(p, sep) == [p]
  {
    if p != [] {
      SplitNoSep(p[1..], sep);
      assert p == [p[0]] + p[1..];
    }
  }

  /** Splitting a join of separator-free pieces returns the pieces. */
  lemma {:induction false} SplitJoin(parts: seq<string>, sep: char)
    requires |parts| > 0
    requires forall k :: 0 <= k < |parts| ==> sep !in parts[k]
    ensures Split(Join(parts, sep), sep) == parts
  {
    if |parts| == 1 {
      SplitNoSep(parts[0], sep);
    } else {
      SplitJoin(parts[1..], sep);
      SplitFirst(parts[0], Join(parts[1..], sep), sep);
    }
  }

  /** A character that is in no piece and is not the separator is not in the join. */
  lemma {:induction false} JoinExcludes(parts: seq<string>, sep: char, c: char)
    requires |parts| > 0 && c != sep
    requires forall k :: 0 <= k < |parts| ==> c !in parts[k]
    ensures c !in Join(parts, sep)
  {
    if |parts| > 1 {
      JoinExcludes(parts[1..], sep, c);
    }
  }

  /** The last piece of a split. */
  function LastPiece(s: string, sep: char): (r: string)
    ensures sep !in r
  {
    var parts := Split(s, sep);
    parts[|parts| - 1]
  }

  /** The last piece is the text after the last sep, or all of s without one. */
  lemma {:induction false} LastPieceSuffix(s: string, sep: char)
    ensures var r := LastPiece(s, sep);
      && |r| <= |s| && r == s[|s| - |r|..] && sep !in r
      && (if sep in s then |r| < |s| && s[|s| - |r| - 1] == sep else r == s)
  {
    if s == [] {
    } else if s[0] == sep {
      var t := s[1..];
      LastPieceSuffix(t, sep);
      var r := LastPiece(t, sep);
      assert LastPiece(s, sep) == r;
      assert s[|s| - |r|..] == t[|t| - |r|..];
      if sep in t {
        assert s[|s| - |r| - 1] == t[|t| - |r| - 1];
      } else {
        assert s[|s| - |r| - 1] == s[0];
      }
    } else {
      LastPieceSuffix(s[1..], sep);
      var rest := Split(s[1..], sep);
      if |rest| == 1 {
        CountZero(s[1..], sep);
        assert LastPiece(s[1..], sep) == rest[0] == s[1..];
        assert Split(s, sep) == [[s[0]] + rest[0]];
        assert s == [s[0]] + s[1..];
        assert sep !in s;
        assert LastPiece(s, sep) == s;
      } else {
        CountZero(s[1..], sep);
        assert LastPiece(s, sep) == LastPiece(s[1..], sep);
        assert sep in s[1..];
      }
    }
  }

  /** Replaces every occurrence of one character by another. */
  function ReplaceChar(s: string, from: char, to: char): (r: string)
    ensures |r| == |s|
    ensures forall k :: 0 <= k < |s| ==> r[k] == (if s[k] == from then to else s[k])
  {
    if s == [] then [] else [if s[0] == from then to else s[0]] + ReplaceChar(s[1..], from, to)
  }
}
