/** Sequence and string helpers shared by the registry, the explorer and the renderer:
    Ruby's `Array#uniq`, `Array#flatten` of string arrays and `Array#join("\n")`, together with
    the splitting that reads a joined text back as lines. */
module SeqUtil {

  /** No element occurs twice. */
  ghost predicate NoDup<T>(s: seq<T>) {
    forall i, j :: 0 <= i < j < |s| ==> s[i] != s[j]
  }

  /** Appending a new element keeps a sequence free of duplicates. */
  lemma NoDupSnoc<T>(s: seq<T>, x: T)
    requires NoDup(s) && x !in s
    ensures NoDup(s + [x])
  {
    var t := s + [x];
    forall i, j | 0 <= i < j < |t|
      ensures t[i] != t[j]
    {
      if j == |s| {
        assert t[i] == s[i];
      }
    }
  }

  /** The elements of a sequence, as a set. */
  function Elems<T(!new)>(s: seq<T>): set<T> {
    set x | x in s
  }

  /** The position of the first occurrence of `x` in `s`. */
  function FirstIndex<T(==)>(s: seq<T>, x: T): (i: nat)
    requires x in s
    ensures i < |s| && s[i] == x && x !in s[..i]
  {
    if s[0] == x then 0 else 1 + FirstIndex(s[1..], x)
  }

  lemma FirstIndexCons<T>(s: seq<T>, x: T)
    requires x in s && s[0] != x
    ensures x in s[1..] && FirstIndex(s, x) == 1 + FirstIndex(s[1..], x)
  {
  }

  /** Ruby's `Array#uniq`: drops every element that already occurred earlier. */
  function Uniq<T(==,!new)>(s: seq<T>): (r: seq<T>)
    ensures NoDup(r)
    ensures forall x :: x in r <==> x in s
    ensures |r| <= |s|
  {
    if |s| == 0 then []
    else
      var u := Uniq(s[..|s| - 1]);
      if s[|s| - 1] in u then u else u + [s[|s| - 1]]
  }

  lemma {:induction false} FirstIndexOfPrefix<T>(s: seq<T>, x: T, n: nat)
    requires n <= |s| && x in s[..n]
    ensures FirstIndex(s, x) == FirstIndex(s[..n], x)
    decreases n
  {
    if s[0] != x {
      assert s[..n][1..] == s[1..][..n - 1];
      FirstIndexOfPrefix(s[1..], x, n - 1);
    }
  }

  lemma {:induction false} FirstIndexBeyondPrefix<T>(s: seq<T>, x: T, n: nat)
    requires n <= |s| && x in s && x !in s[..n]
    ensures FirstIndex(s, x) >= n
    decreases n
  {
    if n > 0 {
      assert s[0] in s[..n];
      assert s[..n][1..] == s[1..][..n - 1];
      FirstIndexBeyondPrefix(s[1..], x, n - 1);
    }
  }

  /** `Uniq` keeps first-occurrence order: an element listed earlier in the result
      occurs for the first time earlier in the input. */
  lemma {:induction false} UniqKeepsFirstOccurrenceOrder<T(!new)>(s: seq<T>)
    ensures forall i, j :: 0 <= i < j < |Uniq(s)| ==>
      FirstIndex(s, Uniq(s)[i]) < FirstIndex(s, Uniq(s)[j])
    decreases |s|
  {
    if |s| > 0 {
      var p := s[..|s| - 1];
      var x := s[|s| - 1];
      var u := Uniq(p);
      UniqKeepsFirstOccurrenceOrder(p);
      assert s[..|s| - 1] == p;
      forall y | y in u
        ensures FirstIndex(s, y) == FirstIndex(p, y) < |p|
      {
        FirstIndexOfPrefix(s, y, |p|);
      }
      if x !in u {
        FirstIndexBeyondPrefix(s, x, |p|);
        assert Uniq(s) == u + [x];
      } else {
        assert Uniq(s) == u;
      }
    }
  }

  /** The elements of the middle part of `a + b + c` sit right after `a`. */
  lemma IndexMiddle<T>(a: seq<T>, b: seq<T>, c: seq<T>, k: int)
    requires 0 <= k < |b|
    ensures |a| + k < |a + b + c| && (a + b + c)[|a| + k] == b[k]
  {
  }

  lemma AppendAssoc<T>(a: seq<T>, b: seq<T>, c: seq<T>)
    ensures (a + b) + c == a + (b + c)
  {
  }

  /** The concatenation of a sequence of sequences (Ruby's `flatten` on nested arrays). */
  function Concat<T(!new)>(ss: seq<seq<T>>): (r: seq<T>)
    ensures forall x :: x in r <==> exists i :: 0 <= i < |ss| && x in ss[i]
  {
    if |ss| == 0 then []
    else
      var r := ss[0] + Concat(ss[1..]);
      assert forall x, i :: 0 <= i < |ss| - 1 && x in ss[1..][i] ==> x in ss[i + 1];
      assert forall x, i :: 1 <= i < |ss| && x in ss[i] ==> x in ss[1..][i - 1];
      r
  }

  lemma {:induction false} ConcatAppend<T(!new)>(ss: seq<seq<T>>, t: seq<T>)
    ensures Concat(ss + [t]) == Concat(ss) + t
    decreases |ss|
  {
    if |ss| > 0 {
      assert (ss + [t])[1..] == ss[1..] + [t];
      ConcatAppend(ss[1..], t);
    }
  }

  const NL: char := '\n'

  /** Ruby's `Array#join("\n")`. */
  function JoinLines(lines: seq<string>): (r: string)
    ensures |lines| == 1 ==> r == lines[0]
    ensures |lines| == 0 ==> r == ""
  {
    if |lines| == 0 then ""
    else if |lines| == 1 then lines[0]
    else lines[0] + [NL] + JoinLines(lines[1..])
  }

  /** Cuts a text at every line break; the inverse of `JoinLines` on break-free lines. */
  function SplitLines(s: string): (r: seq<string>)
    ensures |r| >= 1
    decreases |s|
  {
    if NL !in s then [s]
    else
      var i := FirstIndex(s, NL);
      [s[..i]] + SplitLines(s[i + 1..])
  }

  ghost predicate LineFree(s: string) {
    NL !in s
  }

  lemma LineFreeAppend(a: string, b: string)
    ensures LineFree(a + b) <==> LineFree(a) && LineFree(b)
  {
    assert forall x :: x in a + b <==> x in a || x in b;
  }

  ghost predicate AllLineFree(lines: seq<string>) {
    forall i :: 0 <= i < |lines| ==> LineFree(lines[i])
  }

  /** Joining non-empty line groups one after another is joining their concatenation. */
  lemma {:induction false} JoinLinesAppend(a: seq<string>, b: seq<string>)
    requires |a| >= 1 && |b| >= 1
    ensures JoinLines(a + b) == JoinLines(a) + [NL] + JoinLines(b)
    decreases |a|
  {
    if |a| == 1 {
      assert (a + b)[1..] == b;
    } else {
      assert (a + b)[1..] == a[1..] + b;
      JoinLinesAppend(a[1..], b);
    }
  }

  /** Reading a joined text back line by line gives the lines that were joined,
      as long as none of them holds a line break itself. */
  lemma {:induction false} SplitJoinLines(lines: seq<string>)
    requires |lines| >= 1 && AllLineFree(lines)
    ensures SplitLines(JoinLines(lines)) == lines
    decreases |lines|
  {
    if |lines| == 1 {
      assert LineFree(lines[0]);
    } else {
      var s := JoinLines(lines);
      var h := lines[0];
      assert LineFree(h);
      assert s == h + [NL] + JoinLines(lines[1..]);
      assert s[|h|] == NL;
      assert s[..|h|] == h;
      assert NL in s;
      var i := FirstIndex(s, NL);
      assert i == |h|;
      assert s[i + 1..] == JoinLines(lines[1..]);
      SplitJoinLines(lines[1..]);
    }
  }
}
