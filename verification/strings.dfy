/**
  The string operations the record store relies on: Python's `str.join`, counting
  occurrences of a character, and the small scanners used to read a generated
  statement back (splitting a ", "-joined list, the word before the first blank).
 */
module Strings {

  /** Combined length of a list of strings. */
  function TotalLength(parts: seq<string>): nat
    decreases |parts|
  {
    if |parts| == 0 then 0 else |parts[0]| + TotalLength(parts[1..])
  }

  /** `sep.join(parts)` in Python: the parts with `sep` between neighbours. */
  function Join(sep: string, parts: seq<string>): string
    decreases |parts|
  {
    if |parts| == 0 then ""
    else if |parts| == 1 then parts[0]
    else parts[0] + sep + Join(sep, parts[1..])
  }

  /** A joined text starts with the first part and ends with the last; no parts join to "". */
  lemma {:induction false} JoinLayout(sep: string, parts: seq<string>)
    ensures |parts| == 0 ==> Join(sep, parts) == ""
    ensures |parts| > 0 ==> parts[0] <= Join(sep, parts)
    ensures |parts| > 0 ==> |parts[|parts| - 1]| <= |Join(sep, parts)|
    ensures |parts| > 0 ==> var s := Join(sep, parts); s[|s| - |parts[|parts| - 1]|..] == parts[|parts| - 1]
    decreases |parts|
  {
    if |parts| > 1 {
      var rest := Join(sep, parts[1..]);
      JoinLayout(sep, parts[1..]);
      assert Join(sep, parts) == (parts[0] + sep) + rest;
      assert parts[1..][|parts[1..]| - 1] == parts[|parts| - 1];
    }
  }

  /** A joined text holds every part and one separator between each pair of neighbours. */
  lemma {:induction false} JoinLength(sep: string, parts: seq<string>)
    ensures |parts| > 0 ==> |Join(sep, parts)| + |sep| == TotalLength(parts) + |parts| * |sep|
    decreases |parts|
  {
    if |parts| > 1 {
      JoinLength(sep, parts[1..]);
      assert |Join(sep, parts)| == |parts[0]| + |sep| + |Join(sep, parts[1..])|;
      assert |parts[1..]| * |sep| + |sep| == |parts| * |sep|;
    }
  }

  /** Number of positions of `s` holding `c`. */
  function Occurrences(c: char, s: string): nat
  {
    CountFrom(c, s, 0)
  }

  /** Number of positions of `s` at or after `i` holding `c`. */
  function CountFrom(c: char, s: string, i: nat): nat
    requires i <= |s|
    decreases |s| - i
  {
    if i == |s| then 0 else (if s[i] == c then 1 else 0) + CountFrom(c, s, i + 1)
  }

  /** Total number of occurrences of `c` over a list of strings. */
  function TotalOccurrences(c: char, parts: seq<string>): nat
    decreases |parts|
  {
    if |parts| == 0 then 0 else Occurrences(c, parts[0]) + TotalOccurrences(c, parts[1..])
  }

  lemma {:induction false} CountFromShift(c: char, a: string, b: string, j: nat)
    requires j <= |b|
    ensures CountFrom(c, a + b, |a| + j) == CountFrom(c, b, j)
    decreases |b| - j
  {
    if j < |b| {
      CountFromShift(c, a, b, j + 1);
    }
  }

  lemma {:induction false} CountFromAppend(c: char, a: string, b: string, i: nat)
    requires i <= |a|
    ensures CountFrom(c, a + b, i) == CountFrom(c, a, i) + Occurrences(c, b)
    decreases |a| - i
  {
    if i == |a| {
      CountFromShift(c, a, b, 0);
    } else {
      CountFromAppend(c, a, b, i + 1);
    }
  }

  lemma OccurrencesAppend(c: char, a: string, b: string)
    ensures Occurrences(c, a + b) == Occurrences(c, a) + Occurrences(c, b)
  {
    CountFromAppend(c, a, b, 0);
  }

  lemma {:induction false} CountFromAbsent(c: char, s: string, i: nat)
    requires i <= |s|
    ensures CountFrom(c, s, i) == 0 <==> c !in s[i..]
    decreases |s| - i
  {
    if i < |s| {
      CountFromAbsent(c, s, i + 1);
      assert s[i..] == [s[i]] + s[i + 1..];
    }
  }

  lemma OccurrencesAbsent(c: char, s: string)
    ensures Occurrences(c, s) == 0 <==> c !in s
  {
    CountFromAbsent(c, s, 0);
    assert s[0..] == s;
  }

  /** When the separator holds no `c`, joining adds no occurrence of `c`. */
  lemma {:induction false} OccurrencesJoin(c: char, sep: string, parts: seq<string>)
    requires c !in sep
    ensures Occurrences(c, Join(sep, parts)) == TotalOccurrences(c, parts)
    decreases |parts|
  {
    if |parts| == 1 {
      assert TotalOccurrences(c, parts[1..]) == 0;
    } else if |parts| > 1 {
      OccurrencesJoin(c, sep, parts[1..]);
      OccurrencesAbsent(c, sep);
      OccurrencesAppend(c, parts[0] + sep, Join(sep, parts[1..]));
      OccurrencesAppend(c, parts[0], sep);
    }
  }

  /** A character found in none of the parts nor the separator is absent from the join. */
  lemma {:induction false} AbsentFromJoin(c: char, sep: string, parts: seq<string>)
    requires c !in sep
    requires forall i :: 0 <= i < |parts| ==> c !in parts[i]
    ensures c !in Join(sep, parts)
    decreases |parts|
  {
    if |parts| > 1 {
      AbsentFromJoin(c, sep, parts[1..]);
    }
  }

  /** The join of non-empty parts is non-empty. */
  lemma {:induction false} JoinNonEmpty(sep: string, parts: seq<string>)
    requires |parts| > 0 && |parts[0]| > 0
    ensures |Join(sep, parts)| > 0
  {
  }

  /**
    Reads a ", "-separated list back into its items: the inverse of `Join(", ", _)`
    on lists of non-empty items without commas. The empty text reads as the empty list.
   */
  function SplitList(s: string): seq<string>
  {
    if |s| == 0 then [] else SplitFrom(s, "")
  }

  /** Scans `s`, with `acc` the item read so far, cutting at each ", ". */
  function SplitFrom(s: string, acc: string): (items: seq<string>)
    ensures |items| > 0
    decreases |s|
  {
    if |s| == 0 then [acc]
    else if |s| >= 2 && s[0] == ',' && s[1] == ' ' then [acc] + SplitFrom(s[2..], "")
    else SplitFrom(s[1..], acc + [s[0]])
  }

  lemma {:induction false} SplitFromItem(item: string, rest: string, acc: string)
    requires ',' !in item
    ensures SplitFrom(item + rest, acc) == SplitFrom(rest, acc + item)
    decreases |item|
  {
    if |item| == 0 {
      assert item + rest == rest;
      assert acc + item == acc;
    } else {
      var s := item + rest;
      assert s[0] == item[0];
      assert s[1..] == item[1..] + rest;
      SplitFromItem(item[1..], rest, acc + [item[0]]);
      assert acc + [item[0]] + item[1..] == acc + item;
    }
  }

  /** Splitting a joined list of non-empty, comma-free items gives the items back. */
  lemma {:induction false} SplitJoin(parts: seq<string>)
    requires forall i :: 0 <= i < |parts| ==> |parts[i]| > 0 && ',' !in parts[i]
    ensures SplitList(Join(", ", parts)) == parts
    decreases |parts|
  {
    if |parts| == 1 {
      SplitFromItem(parts[0], "", "");
      assert parts[0] + "" == parts[0];
      assert "" + parts[0] == parts[0];
    } else if |parts| > 1 {
      var rest := Join(", ", parts[1..]);
      JoinNonEmpty(", ", parts[1..]);
      SplitJoin(parts[1..]);
      assert Join(", ", parts) == parts[0] + (", " + rest);
      SplitFromItem(parts[0], ", " + rest, "");
      assert "" + parts[0] == parts[0];
      assert (", " + rest)[2..] == rest;
      assert parts == [parts[0]] + parts[1..];
    }
  }

  /** Length of the longest prefix of `s` free of `c`. */
  function Span(s: string, c: char): (n: nat)
    ensures n <= |s|
    decreases |s|
  {
    if |s| == 0 || s[0] == c then 0 else 1 + Span(s[1..], c)
  }

  /** The span stops exactly at the first `c`. */
  lemma {:induction false} SpanStops(a: string, b: string, c: char)
    requires c !in a
    requires |b| == 0 || b[0] == c
    ensures Span(a + b, c) == |a|
    decreases |a|
  {
    if |a| == 0 {
      assert a + b == b;
    } else {
      assert (a + b)[1..] == a[1..] + b;
      SpanStops(a[1..], b, c);
    }
  }

  /** The word at the front of `s`: everything before the first blank. */
  function Word(s: string): (w: string)
    ensures w <= s && ' ' !in w
  {
    var n := Span(s, ' ');
    SpanClean(s, ' ');
    s[..n]
  }

  lemma {:induction false} SpanClean(s: string, c: char)
    ensures c !in s[..Span(s, c)]
    decreases |s|
  {
    if |s| > 0 && s[0] != c {
      SpanClean(s[1..], c);
      assert s[..Span(s, c)] == [s[0]] + s[1..][..Span(s[1..], c)];
    }
  }

  /** A blank-free word followed by nothing or by a blank reads back as itself. */
  lemma WordOf(w: string, rest: string)
    requires ' ' !in w
    requires |rest| == 0 || rest[0] == ' '
    ensures Word(w + rest) == w
  {
    SpanStops(w, rest, ' ');
    assert (w + rest)[..|w|] == w;
  }
}
