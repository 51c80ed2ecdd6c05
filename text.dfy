/**
 * The string operations of JavaScript that the pages rely on: `String.prototype.trim`, ASCII
 * `toLowerCase`, `includes`, `Array.prototype.join` with a one-character separator,
 * `String.prototype.split` on one character, and an ordinal string comparison.
 */
module Text {
  import Seqs

  /** The characters JavaScript treats as white space in `trim` and in the regular-expression class `\s`. */
  predicate IsSpace(c: char)
  {
    c == '\t' || c == '\n' || c == '\U{000B}' || c == '\U{000C}' || c == '\r' || c == ' '
    || c == '\U{00A0}' || c == '\U{1680}' || ('\U{2000}' <= c <= '\U{200A}')
    || c == '\U{2028}' || c == '\U{2029}' || c == '\U{202F}' || c == '\U{205F}'
    || c == '\U{3000}' || c == '\U{FEFF}'
  }

  /** `s` with its leading white space removed. */
  function TrimStart(s: string): (r: string)
    ensures |r| <= |s| && r == s[|s| - |r|..]
    ensures forall k :: 0 <= k < |s| - |r| ==> IsSpace(s[k])
    ensures r == [] || !IsSpace(r[0])
  {
    if s != [] && IsSpace(s[0]) then TrimStart(s[1..]) else s
  }

  /** `s` with its trailing white space removed. */
  function TrimEnd(s: string): (r: string)
    ensures |r| <= |s| && r == s[..|r|]
    ensures forall k :: |r| <= k < |s| ==> IsSpace(s[k])
    ensures r == [] || !IsSpace(r[|r| - 1])
  {
    if s != [] && IsSpace(s[|s| - 1]) then TrimEnd(s[..|s| - 1]) else s
  }

  /** `r` is the slice of `s` from `a`, with only white space before it and after it. */
  predicate Stripped(s: string, a: int, r: string)
  {
    && 0 <= a <= |s| - |r| && r == s[a..a + |r|]
    && (forall k :: 0 <= k < a ==> IsSpace(s[k]))
    && (forall k :: a + |r| <= k < |s| ==> IsSpace(s[k]))
  }

  /**
   * `s.trim()`: the part of `s` left once the white space before it and after it is removed;
   * it neither starts nor ends with white space.
   */
  function Trim(s: string): (r: string)
    ensures |r| <= |s|
    ensures exists a :: Stripped(s, a, r)
    ensures r == [] || (!IsSpace(r[0]) && !IsSpace(r[|r| - 1]))
  {
    var t := TrimStart(s);
    var r := TrimEnd(t);
    var a := |s| - |t|;
    assert r == s[a..a + |r|];
    assert forall k :: a + |r| <= k < |s| ==> s[k] == t[k - a];
    assert Stripped(s, a, r);
    r
  }

  /** `!s.trim()`: the string is empty once trimmed. */
  predicate IsBlank(s: string)
  {
    Trim(s) == []
  }

  /** A string is blank exactly when every character of it is white space. */
  lemma BlankIffAllSpace(s: string)
    ensures IsBlank(s) <==> forall k :: 0 <= k < |s| ==> IsSpace(s[k])
  {
    var t := TrimStart(s);
    var n := |s| - |t|;
    assert t == s[n..];
    if Trim(s) == [] {
      forall k | 0 <= k < |s| ensures IsSpace(s[k]) {
        if k >= n {
          assert s[k] == t[k - n];
        }
      }
    }
  }

  /** Trimming a string whose first and last characters are not white space leaves it as it is. */
  lemma TrimNoEdgeSpace(s: string)
    requires s == [] || (!IsSpace(s[0]) && !IsSpace(s[|s| - 1]))
    ensures Trim(s) == s
  {
  }

  /** ASCII lower-casing of one character. */
  function LowerChar(c: char): (r: char)
    ensures 'A' <= c <= 'Z' ==> 'a' <= r <= 'z' && r as int - c as int == 32
    ensures !('A' <= c <= 'Z') ==> r == c
  {
    if 'A' <= c <= 'Z' then (c as int + 32) as char else c
  }

  /** `s.toLowerCase()` on the ASCII letters. */
  function ToLower(s: string): (r: string)
    ensures |r| == |s| && forall i :: 0 <= i < |s| ==> r[i] == LowerChar(s[i])
  {
    Seqs.Map(s, LowerChar)
  }

  /** `needle` occurs in `hay` starting at position 0. */
  predicate StartsWith(hay: string, needle: string)
  {
    |needle| <= |hay| && hay[..|needle|] == needle
  }

  /** `needle` occurs in `hay` starting at position `i`. */
  predicate OccursAt(hay: string, needle: string, i: nat)
  {
    i + |needle| <= |hay| && hay[i..i + |needle|] == needle
  }

  /** `hay.includes(needle)`. */
  predicate Includes(hay: string, needle: string)
  {
    StartsWith(hay, needle) || (hay != [] && Includes(hay[1..], needle))
  }

  /** Where `Includes` holds, the needle occurs at some position. */
  lemma {:induction false} IncludedOccurs(hay: string, needle: string) returns (i: nat)
    requires Includes(hay, needle)
    ensures OccursAt(hay, needle, i)
  {
    if StartsWith(hay, needle) {
      i := 0;
    } else {
      var j := IncludedOccurs(hay[1..], needle);
      assert hay[j + 1..j + 1 + |needle|] == hay[1..][j..j + |needle|];
      i := j + 1;
    }
  }

  /** An occurrence at any position makes `Includes` hold. */
  lemma {:induction false} OccursIncluded(hay: string, needle: string, i: nat)
    requires OccursAt(hay, needle, i)
    ensures Includes(hay, needle)
  {
    if i > 0 {
      assert hay[1..][i - 1..i - 1 + |needle|] == hay[i..i + |needle|];
      OccursIncluded(hay[1..], needle, i - 1);
    }
  }

  /** `Includes` holds exactly when the needle occurs at some position of the haystack. */
  lemma IncludesIffOccurs(hay: string, needle: string)
    ensures Includes(hay, needle) <==> exists i: nat :: OccursAt(hay, needle, i)
  {
    if Includes(hay, needle) {
      var i := IncludedOccurs(hay, needle);
    }
    forall i: nat | OccursAt(hay, needle, i) ensures Includes(hay, needle) {
      OccursIncluded(hay, needle, i);
    }
  }

  /** The empty needle is included in every string: an empty search matches everything. */
  lemma IncludesEmpty(hay: string)
    ensures Includes(hay, [])
  {
  }

  /** `parts.join(sep)` for a one-character separator. */
  function Join(parts: seq<string>, sep: char): string
  {
    if parts == [] then []
    else if |parts| == 1 then parts[0]
    else parts[0] + [sep] + Join(parts[1..], sep)
  }

  /** Number of occurrences of `c` in `s`. */
  function CountChar(s: string, c: char): nat
  {
    if s == [] then 0 else (if s[0] == c then 1 else 0) + CountChar(s[1..], c)
  }

  /** `s.split(sep)` for a one-character separator; `"".split(sep)` is `[""]`. */
  function Split(s: string, sep: char): (r: seq<string>)
    ensures |r| == CountChar(s, sep) + 1
    ensures forall i :: 0 <= i < |r| ==> sep !in r[i]
  {
    if s == [] then [[]]
    else if s[0] == sep then [[]] + Split(s[1..], sep)
    else
      var rest := Split(s[1..], sep);
      [[s[0]] + rest[0]] + rest[1..]
  }

  lemma {:induction false} CountCharConcat(a: string, b: string, c: char)
    ensures CountChar(a + b, c) == CountChar(a, c) + CountChar(b, c)
  {
    if a == [] {
      assert a + b == b;
    } else {
      assert (a + b)[1..] == a[1..] + b;
      CountCharConcat(a[1..], b, c);
    }
  }

  /** A string without the separator splits into itself alone. */
  lemma {:induction false} SplitWithoutSeparator(s: string, sep: char)
    requires sep !in s
    ensures Split(s, sep) == [s]
  {
    if s != [] {
      SplitWithoutSeparator(s[1..], sep);
      assert [s[0]] + s[1..] == s;
    }
  }

  /** Splitting `a + sep + b`, where `a` has no separator, yields `a` and then the pieces of `b`. */
  lemma {:induction false} SplitAtFirstSeparator(a: string, b: string, sep: char)
    requires sep !in a
    ensures Split(a + [sep] + b, sep) == [a] + Split(b, sep)
  {
    if a == [] {
      assert a + [sep] + b == [sep] + b;
      assert ([sep] + b)[1..] == b;
    } else {
      assert (a + [sep] + b)[1..] == a[1..] + [sep] + b;
      SplitAtFirstSeparator(a[1..], b, sep);
      assert [a[0]] + a[1..] == a;
    }
  }

  /** Splitting undoes joining when no part contains the separator. */
  lemma {:induction false} SplitJoin(parts: seq<string>, sep: char)
    requires |parts| >= 1
    requires forall i :: 0 <= i < |parts| ==> sep !in parts[i]
    ensures Split(Join(parts, sep), sep) == parts
  {
    if |parts| == 1 {
      SplitWithoutSeparator(parts[0], sep);
    } else {
      SplitJoin(parts[1..], sep);
      SplitAtFirstSeparator(parts[0], Join(parts[1..], sep), sep);
      assert [parts[0]] + parts[1..] == parts;
    }
  }

  /** Joining `n >= 1` separator-free parts puts exactly `n - 1` separators into the result. */
  lemma JoinSeparatorCount(parts: seq<string>, sep: char)
    requires |parts| >= 1
    requires forall i :: 0 <= i < |parts| ==> sep !in parts[i]
    ensures CountChar(Join(parts, sep), sep) == |parts| - 1
  {
    SplitJoin(parts, sep);
  }

  /** Ordinal comparison: negative, zero or positive as `a` sorts before, with or after `b`. */
  function Compare(a: string, b: string): (r: int)
    ensures -1 <= r <= 1
  {
    if a == [] && b == [] then 0
    else if a == [] then -1
    else if b == [] then 1
    else if a[0] < b[0] then -1
    else if a[0] > b[0] then 1
    else Compare(a[1..], b[1..])
  }

  lemma {:induction false} CompareZeroIffEqual(a: string, b: string)
    ensures Compare(a, b) == 0 <==> a == b
  {
    if a != [] && b != [] && a[0] == b[0] {
      CompareZeroIffEqual(a[1..], b[1..]);
      assert a == [a[0]] + a[1..] && b == [b[0]] + b[1..];
    }
  }

  lemma {:induction false} CompareAntisymmetric(a: string, b: string)
    ensures Compare(a, b) == -Compare(b, a)
  {
    if a != [] && b != [] && a[0] == b[0] {
      CompareAntisymmetric(a[1..], b[1..]);
    }
  }

  lemma {:induction false} CompareTransitive(a: string, b: string, c: string)
    requires Compare(a, b) <= 0 && Compare(b, c) <= 0
    ensures Compare(a, c) <= 0
  {
    if a != [] && b != [] && c != [] && a[0] == b[0] && b[0] == c[0] {
      CompareTransitive(a[1..], b[1..], c[1..]);
    }
  }

  /** The empty string sorts before every other string. */
  lemma EmptyComesFirst(b: string)
    ensures Compare([], b) <= 0
    ensures Compare([], b) < 0 <==> b != []
  {
  }
}
