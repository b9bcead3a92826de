/**
  The JavaScript string semantics the server relies on: String.prototype.trim
  (applied by the mongoose `trim: true` setter), the length of a string in
  UTF-16 code units (checked by the mongoose `maxlength` validator) and the
  default order of Array.prototype.sort (UTF-16 code unit order), used for the
  online-user list.
 */
module Text {

  /**
    The characters trim removes: the WhiteSpace and LineTerminator code points
    of ECMAScript (sections 12.2 and 12.3 of ECMA-262): tab, line feed, vertical
    tab, form feed, carriage return, space, no-break space, the Unicode space
    separators, line and paragraph separator, and the byte order mark.
   */
  predicate IsTrimmable(c: char)
  {
    || c == '\t' || c == '\n' || c == '\U{000B}' || c == '\U{000C}' || c == '\r'
    || c == ' ' || c == '\U{00A0}' || c == '\U{1680}'
    || ('\U{2000}' <= c <= '\U{200A}')
    || c == '\U{2028}' || c == '\U{2029}' || c == '\U{202F}' || c == '\U{205F}'
    || c == '\U{3000}' || c == '\U{FEFF}'
  }

  /** Neither end of `s` is a trimmable character. */
  predicate IsTrimmed(s: string)
  {
    s == [] || (!IsTrimmable(s[0]) && !IsTrimmable(s[|s| - 1]))
  }

  /** Every character of `s` before index `i` or from index `j` on is trimmable. */
  predicate TrimmableOutside(s: string, i: int, j: int)
  {
    forall k :: 0 <= k < |s| && (k < i || j <= k) ==> IsTrimmable(s[k])
  }

  /** The first index from `i` on whose character is not trimmable, or `|s|` if there is none. */
  function SkipLeading(s: string, i: nat): (k: nat)
    requires i <= |s|
    ensures i <= k <= |s|
    ensures k < |s| ==> !IsTrimmable(s[k])
    decreases |s| - i
  {
    if i < |s| && IsTrimmable(s[i]) then SkipLeading(s, i + 1) else i
  }

  /** The index just past the last non-trimmable character of `s[lo..j]`, or `lo` if there is none. */
  function SkipTrailing(s: string, lo: nat, j: nat): (k: nat)
    requires lo <= j <= |s|
    ensures lo <= k <= j
    ensures lo < k ==> !IsTrimmable(s[k - 1])
    decreases j
  {
    if lo < j && IsTrimmable(s[j - 1]) then SkipTrailing(s, lo, j - 1) else j
  }

  /**
    String.prototype.trim (TrimString of section 22.1.3.32.1 of ECMA-262):
    the part of `s` from its first to its last non-trimmable character.
   */
  function Trim(s: string): (r: string)
    ensures IsTrimmed(r)
    ensures |r| <= |s|
  {
    var start := SkipLeading(s, 0);
    s[start..SkipTrailing(s, start, |s|)]
  }

  /** Every character SkipLeading passes over is trimmable. */
  lemma {:induction false} SkipLeadingPassesTrimmable(s: string, i: nat)
    requires i <= |s|
    ensures forall m :: i <= m < SkipLeading(s, i) ==> IsTrimmable(s[m])
    decreases |s| - i
  {
    if i < |s| && IsTrimmable(s[i]) {
      SkipLeadingPassesTrimmable(s, i + 1);
    }
  }

  /** Every character SkipTrailing passes over is trimmable. */
  lemma {:induction false} SkipTrailingPassesTrimmable(s: string, lo: nat, j: nat)
    requires lo <= j <= |s|
    ensures forall m :: SkipTrailing(s, lo, j) <= m < j ==> IsTrimmable(s[m])
    decreases j
  {
    if lo < j && IsTrimmable(s[j - 1]) {
      SkipTrailingPassesTrimmable(s, lo, j - 1);
    }
  }

  /**
    What trim keeps is a contiguous middle of `s`, and everything it drops on
    either side is trimmable.
   */
  lemma TrimIsMiddle(s: string)
    ensures exists i :: 0 <= i <= |s| - |Trim(s)| && Trim(s) == s[i..][..|Trim(s)|] && TrimmableOutside(s, i, i + |Trim(s)|)
  {
    var start := SkipLeading(s, 0);
    var end := SkipTrailing(s, start, |s|);
    SkipLeadingPassesTrimmable(s, 0);
    SkipTrailingPassesTrimmable(s, start, |s|);
    assert Trim(s) == s[start..][..end - start];
    assert TrimmableOutside(s, start, end);
  }

  /** trim returns "" exactly when `s` has nothing but trimmable characters. */
  lemma TrimEmptyIff(s: string)
    ensures Trim(s) == [] <==> forall k :: 0 <= k < |s| ==> IsTrimmable(s[k])
  {
    var start := SkipLeading(s, 0);
    SkipLeadingPassesTrimmable(s, 0);
    SkipTrailingPassesTrimmable(s, start, |s|);
    if Trim(s) == [] {
      assert SkipTrailing(s, start, |s|) == start;
    }
  }

  /** Trimming an already trimmed string changes nothing. */
  lemma TrimOfTrimmed(s: string)
    requires IsTrimmed(s)
    ensures Trim(s) == s
  {
  }

  /** Trim is idempotent. */
  lemma TrimIdempotent(s: string)
    ensures Trim(Trim(s)) == Trim(s)
  {
    TrimOfTrimmed(Trim(s));
  }

  /** The UTF-16 encoding of one character: one code unit in the Basic Multilingual Plane, else a surrogate pair. */
  function EncodeChar(c: char): (u: seq<int>)
    ensures 1 <= |u| <= 2
    ensures |u| == 1 <==> (c as int) < 0x1_0000
    ensures forall k :: 0 <= k < |u| ==> 0 <= u[k] < 0x1_0000
  {
    var n := c as int;
    if n < 0x1_0000 then [n]
    else [0xD800 + (n - 0x1_0000) / 0x400, 0xDC00 + (n - 0x1_0000) % 0x400]
  }

  /** The UTF-16 code units of `s`, as JavaScript stores it. */
  function CodeUnits(s: string): (u: seq<int>)
    ensures |s| <= |u| <= 2 * |s|
    ensures (forall k :: 0 <= k < |s| ==> (s[k] as int) < 0x1_0000) ==> |u| == |s|
    ensures forall k :: 0 <= k < |u| ==> 0 <= u[k] < 0x1_0000
  {
    if s == [] then []
    else EncodeChar(s[0]) + CodeUnits(s[1..])
  }

  /** JavaScript's `s.length`: the number of UTF-16 code units. */
  function Length(s: string): (n: nat)
    ensures |s| <= n <= 2 * |s|
  {
    if s == [] then 0
    else (if (s[0] as int) < 0x1_0000 then 1 else 2) + Length(s[1..])
  }

  /** Length counts the code units of the encoding. */
  lemma {:induction false} LengthIsCodeUnitCount(s: string)
    ensures Length(s) == |CodeUnits(s)|
  {
    if s != [] {
      LengthIsCodeUnitCount(s[1..]);
    }
  }

  /** Lexicographic order on code unit sequences: a prefix comes first. */
  predicate LexLessEq(a: seq<int>, b: seq<int>)
  {
    a == [] || (b != [] && (a[0] < b[0] || (a[0] == b[0] && LexLessEq(a[1..], b[1..]))))
  }

  lemma {:induction false} LexTotal(a: seq<int>, b: seq<int>)
    ensures LexLessEq(a, b) || LexLessEq(b, a)
  {
    if a != [] && b != [] && a[0] == b[0] {
      LexTotal(a[1..], b[1..]);
    }
  }

  lemma {:induction false} LexTransitive(a: seq<int>, b: seq<int>, c: seq<int>)
    requires LexLessEq(a, b) && LexLessEq(b, c)
    ensures LexLessEq(a, c)
  {
    if a != [] && a[0] == b[0] && b[0] == c[0] {
      LexTransitive(a[1..], b[1..], c[1..]);
    }
  }

  /** The default comparison of Array.prototype.sort: UTF-16 code unit order. */
  predicate UnitLessEq(a: string, b: string)
  {
    LexLessEq(CodeUnits(a), CodeUnits(b))
  }

  /** Code unit order is total. */
  lemma UnitTotal(a: string, b: string)
    ensures UnitLessEq(a, b) || UnitLessEq(b, a)
  {
    LexTotal(CodeUnits(a), CodeUnits(b));
  }

  /** Code unit order is transitive. */
  lemma UnitTransitive(a: string, b: string, c: string)
    requires UnitLessEq(a, b) && UnitLessEq(b, c)
    ensures UnitLessEq(a, c)
  {
    LexTransitive(CodeUnits(a), CodeUnits(b), CodeUnits(c));
  }

  /** Every string is `UnitLessEq` every string after it. */
  predicate UnitSorted(s: seq<string>)
  {
    forall i, j :: 0 <= i < j < |s| ==> UnitLessEq(s[i], s[j])
  }

  /** Puts `x` into `s` before the first string it is `UnitLessEq` to. */
  function InsertString(x: string, s: seq<string>): (r: seq<string>)
    ensures |r| == |s| + 1
  {
    if s == [] then [x]
    else if UnitLessEq(x, s[0]) then [x] + s
    else [s[0]] + InsertString(x, s[1..])
  }

  /** Inserting adds exactly `x`. */
  lemma {:induction false} InsertStringPermutes(x: string, s: seq<string>)
    ensures multiset(InsertString(x, s)) == multiset(s) + multiset{x}
  {
    if s != [] && !UnitLessEq(x, s[0]) {
      InsertStringPermutes(x, s[1..]);
      assert s == [s[0]] + s[1..];
    }
  }

  /** Inserting into a sorted sequence keeps it sorted. */
  lemma {:induction false} InsertStringSorted(x: string, s: seq<string>)
    requires UnitSorted(s)
    ensures UnitSorted(InsertString(x, s))
  {
    if s == [] {
    } else if UnitLessEq(x, s[0]) {
      forall j | 0 <= j < |s| ensures UnitLessEq(x, s[j]) {
        if j > 0 { UnitTransitive(x, s[0], s[j]); }
      }
      SortedPrepend(x, s);
    } else {
      UnitTotal(x, s[0]);
      var tail := s[1..];
      var rest := InsertString(x, tail);
      assert UnitSorted(tail) by {
        forall a, b | 0 <= a < b < |tail| ensures UnitLessEq(tail[a], tail[b]) {
          assert tail[a] == s[a + 1] && tail[b] == s[b + 1];
        }
      }
      InsertStringSorted(x, tail);
      InsertStringPermutes(x, tail);
      forall k | 0 <= k < |rest| ensures UnitLessEq(s[0], rest[k]) {
        assert rest[k] in multiset(rest);
        if rest[k] != x {
          assert rest[k] in multiset(tail);
          var j :| 0 <= j < |tail| && tail[j] == rest[k];
          assert s[j + 1] == rest[k];
        }
      }
      SortedPrepend(s[0], rest);
    }
  }

  /** Prepending a string that is `UnitLessEq` to every element keeps a sequence sorted. */
  lemma SortedPrepend(a: string, s: seq<string>)
    requires UnitSorted(s)
    requires forall k :: 0 <= k < |s| ==> UnitLessEq(a, s[k])
    ensures UnitSorted([a] + s)
  {
    var r := [a] + s;
    forall i, j | 0 <= i < j < |r| ensures UnitLessEq(r[i], r[j]) {
      assert r[j] == s[j - 1];
      if i > 0 { assert r[i] == s[i - 1]; }
    }
  }

  /** Array.prototype.sort() on strings: an insertion sort in code unit order. */
  function SortStrings(s: seq<string>): (r: seq<string>)
    ensures |r| == |s|
  {
    if s == [] then [] else InsertString(s[0], SortStrings(s[1..]))
  }

  /** SortStrings returns a permutation of its input. */
  lemma {:induction false} SortStringsPermutes(s: seq<string>)
    ensures multiset(SortStrings(s)) == multiset(s)
  {
    if s != [] {
      SortStringsPermutes(s[1..]);
      InsertStringPermutes(s[0], SortStrings(s[1..]));
      assert s == [s[0]] + s[1..];
    }
  }

  /** SortStrings returns its result in code unit order. */
  lemma {:induction false} SortStringsSorted(s: seq<string>)
    ensures UnitSorted(SortStrings(s))
  {
    if s != [] {
      SortStringsSorted(s[1..]);
      InsertStringSorted(s[0], SortStrings(s[1..]));
    }
  }
}
