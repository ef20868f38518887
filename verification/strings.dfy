/** String operations the Python code relies on: lower-casing (`str.lower`),
    joining with a separator (`str.join`) and substring search (`in`). */
module Strings {

  /** Lower-cases one character; only ASCII letters are folded. */
  function LowerChar(c: char): char {
    if 'A' <= c <= 'Z' then (c as int + 32) as char else c
  }

  function Lower(s: string): (r: string)
    ensures |r| == |s|
  {
    seq(|s|, i requires 0 <= i < |s| => LowerChar(s[i]))
  }

  /** `x` and `y` are the same letter up to ASCII case, or the same character. */
  predicate SameIgnoringCase(x: char, y: char) {
    x == y
    || ('A' <= x <= 'Z' && y as int - x as int == 32)
    || ('A' <= y <= 'Z' && x as int - y as int == 32)
  }

  /** Two strings agree position by position up to letter case. */
  predicate CaseVariants(a: string, b: string) {
    |a| == |b| && forall i :: 0 <= i < |a| ==> SameIgnoringCase(a[i], b[i])
  }

  lemma LowerCharFolds(x: char, y: char)
    ensures LowerChar(x) == LowerChar(y) <==> SameIgnoringCase(x, y)
  {
  }

  /** Lower-casing identifies exactly the strings that differ only in letter case. */
  lemma LowerIdentifiesCaseVariants(a: string, b: string)
    ensures Lower(a) == Lower(b) <==> CaseVariants(a, b)
  {
    if Lower(a) == Lower(b) {
      forall i | 0 <= i < |a|
        ensures SameIgnoringCase(a[i], b[i])
      {
        assert Lower(a)[i] == Lower(b)[i];
        LowerCharFolds(a[i], b[i]);
      }
    }
    if CaseVariants(a, b) {
      forall i | 0 <= i < |a|
        ensures Lower(a)[i] == Lower(b)[i]
      {
        LowerCharFolds(a[i], b[i]);
      }
    }
  }

  /** `sep.join(parts)` for a one-character separator. */
  function Join(parts: seq<string>, sep: char): string
  {
    if |parts| == 0 then ""
    else if |parts| == 1 then parts[0]
    else parts[0] + [sep] + Join(parts[1..], sep)
  }

  predicate OccursAt(haystack: string, needle: string, i: int) {
    0 <= i && i + |needle| <= |haystack| && haystack[i..i + |needle|] == needle
  }

  /** Python's `needle in haystack` for strings. */
  predicate Contains(haystack: string, needle: string) {
    exists i :: 0 <= i <= |haystack| - |needle| && OccursAt(haystack, needle, i)
  }

  /** An occurrence in `head + [sep] + tail` of a needle without `sep` lies
      wholly inside `head` or wholly inside `tail`. */
  lemma OccurrenceAvoidsSeparator(head: string, sep: char, tail: string, needle: string, i: int)
    requires sep !in needle && OccursAt(head + [sep] + tail, needle, i)
    ensures OccursAt(head, needle, i) || OccursAt(tail, needle, i - |head| - 1)
  {
    var joined, n := head + [sep] + tail, |needle|;
    forall m | i <= m < i + n
      ensures joined[m] != sep
    {
      assert joined[m] == needle[m - i];
    }
    assert joined[|head|] == sep;
    if i + n <= |head| {
      assert head[i..i + n] == joined[i..i + n];
    } else {
      assert i > |head|;
      assert tail[i - |head| - 1..i - |head| - 1 + n] == joined[i..i + n];
    }
  }

  lemma OccurrenceInHead(head: string, sep: char, tail: string, needle: string, i: int)
    requires OccursAt(head, needle, i)
    ensures OccursAt(head + [sep] + tail, needle, i)
  {
  }

  lemma OccurrenceInTail(head: string, sep: char, tail: string, needle: string, j: int)
    requires OccursAt(tail, needle, j)
    ensures OccursAt(head + [sep] + tail, needle, j + |head| + 1)
  {
  }

  /** A needle without the separator occurs in the joined string exactly when
      it occurs in one of the parts: no occurrence can straddle a separator. */
  lemma {:induction false} ContainsInJoin(parts: seq<string>, sep: char, needle: string)
    requires |needle| > 0 && sep !in needle
    ensures Contains(Join(parts, sep), needle)
        <==> exists k :: 0 <= k < |parts| && Contains(parts[k], needle)
  {
    if |parts| == 1 {
      assert Join(parts, sep) == parts[0];
    } else if |parts| > 1 {
      var head, rest := parts[0], parts[1..];
      var tail := Join(rest, sep);
      assert Join(parts, sep) == head + [sep] + tail;
      ContainsInJoin(rest, sep, needle);
      if Contains(head + [sep] + tail, needle) {
        var i :| 0 <= i <= |head + [sep] + tail| - |needle| && OccursAt(head + [sep] + tail, needle, i);
        OccurrenceAvoidsSeparator(head, sep, tail, needle, i);
        if !OccursAt(head, needle, i) {
          assert Contains(tail, needle);
          var k :| 0 <= k < |rest| && Contains(rest[k], needle);
          assert parts[k + 1] == rest[k];
        }
      }
      if exists k :: 0 <= k < |parts| && Contains(parts[k], needle) {
        var k :| 0 <= k < |parts| && Contains(parts[k], needle);
        if k == 0 {
          var i :| 0 <= i <= |head| - |needle| && OccursAt(head, needle, i);
          OccurrenceInHead(head, sep, tail, needle, i);
        } else {
          assert rest[k - 1] == parts[k];
          var j :| 0 <= j <= |tail| - |needle| && OccursAt(tail, needle, j);
          OccurrenceInTail(head, sep, tail, needle, j);
        }
      }
    }
  }
}
