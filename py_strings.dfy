/**
 * The few Python 2 `str` operations the selector relies on, written out as
 * functions on `seq<char>`: `s.split(sep)` with a one-character separator,
 * `s.split()` with no argument, `s.startswith(p)`, `p in s` and `s[:-1]`.
 * Python 2 strings are byte strings, so "whitespace" is the six ASCII
 * characters recognised by C's `isspace` and by the `\s` class of `re`.
 */
module PyStrings {

  /** Space, tab, line feed, carriage return, vertical tab, form feed. */
  predicate IsWhitespace(c: char)
  {
    c == ' ' || c == '\t' || c == '\n' || c == '\r' || c == '\U{000B}' || c == '\U{000C}'
  }

  /** No character of `s` is whitespace (what `\S*` matches). */
  predicate NonBlank(s: string)
  {
    forall i :: 0 <= i < |s| ==> !IsWhitespace(s[i])
  }

  /** `s.startswith(p)` */
  predicate StartsWith(s: string, p: string)
  {
    |p| <= |s| && s[..|p|] == p
  }

  /** `t in s` for strings: `t` occurs in `s` as a contiguous substring. */
  predicate Contains(s: string, t: string)
    decreases |s|
  {
    StartsWith(s, t) || (|s| > 0 && Contains(s[1..], t))
  }

  /** `s[:-1]`: everything but the last character (the empty string stays empty). */
  function DropLast(s: string): (r: string)
    ensures |s| > 0 ==> r + [s[|s| - 1]] == s
    ensures |s| == 0 ==> r == s
  {
    if |s| == 0 then s else s[..|s| - 1]
  }

  /** Index of the first `c` in `s`, or `|s|` when there is none. */
  function FirstIndex(s: string, c: char): (i: nat)
    ensures i <= |s|
    ensures i < |s| ==> s[i] == c
    ensures forall j :: 0 <= j < i ==> s[j] != c
  {
    if |s| == 0 || s[0] == c then 0 else 1 + FirstIndex(s[1..], c)
  }

  /** `s.split(sep)`: the pieces between the occurrences of `sep`, empty pieces kept. */
  function Split(s: string, sep: char): (r: seq<string>)
    ensures |r| >= 1
    ensures forall k :: 0 <= k < |r| ==> sep !in r[k]
    decreases |s|
  {
    var i := FirstIndex(s, sep);
    if i == |s| then [s] else [s[..i]] + Split(s[i + 1..], sep)
  }

  /** `sep.join(parts)` */
  function Join(parts: seq<string>, sep: char): string
  {
    if |parts| == 0 then ""
    else if |parts| == 1 then parts[0]
    else parts[0] + [sep] + Join(parts[1..], sep)
  }

  /** Length of the longest prefix of `s` free of whitespace. */
  function RunLength(s: string): (n: nat)
    ensures n <= |s|
    ensures forall j :: 0 <= j < n ==> !IsWhitespace(s[j])
    ensures n < |s| ==> IsWhitespace(s[n])
  {
    if |s| == 0 || IsWhitespace(s[0]) then 0 else 1 + RunLength(s[1..])
  }

  /**
   * `s.split()`: the maximal whitespace-free runs of `s`, in order; leading,
   * trailing and repeated whitespace yield no empty pieces.
   */
  function Words(s: string): (r: seq<string>)
    ensures forall k :: 0 <= k < |r| ==> |r[k]| > 0 && NonBlank(r[k])
    decreases |s|
  {
    if |s| == 0 then []
    else if IsWhitespace(s[0]) then Words(s[1..])
    else
      var n := RunLength(s);
      [s[..n]] + Words(s[n..])
  }

  // ---------------------------------------------------------------------
  // Splitting and joining are inverse to each other.
  // ---------------------------------------------------------------------

  /** A string without the separator is a single piece. */
  lemma SplitWithoutSeparator(s: string, sep: char)
    requires sep !in s
    ensures Split(s, sep) == [s]
  {
  }

  /** Splitting at the first separator: the first piece, then the pieces of what follows it. */
  lemma SplitAtFirst(a: string, sep: char, b: string)
    requires sep !in a
    ensures Split(a + [sep] + b, sep) == [a] + Split(b, sep)
  {
    var s := a + [sep] + b;
    var i := FirstIndex(s, sep);
    assert s[|a|] == sep;
    assert forall j :: 0 <= j < |a| ==> s[j] == a[j];
    assert i == |a|;
    assert s[..i] == a;
    assert s[i + 1..] == b;
  }

  lemma JoinCons(a: string, tail: seq<string>, sep: char)
    requires |tail| >= 1
    ensures Join([a] + tail, sep) == a + [sep] + Join(tail, sep)
  {
    assert ([a] + tail)[1..] == tail;
  }

  lemma {:induction false} JoinSplit(s: string, sep: char)
    ensures Join(Split(s, sep), sep) == s
    decreases |s|
  {
    var i := FirstIndex(s, sep);
    if i < |s| {
      var a, b := s[..i], s[i + 1..];
      JoinSplit(b, sep);
      JoinCons(a, Split(b, sep), sep);
    }
  }

  lemma {:induction false} SplitJoin(parts: seq<string>, sep: char)
    requires |parts| >= 1
    requires forall k :: 0 <= k < |parts| ==> sep !in parts[k]
    ensures Split(Join(parts, sep), sep) == parts
  {
    if |parts| == 1 {
      SplitWithoutSeparator(parts[0], sep);
    } else {
      SplitJoin(parts[1..], sep);
      SplitAtFirst(parts[0], sep, Join(parts[1..], sep));
      assert parts == [parts[0]] + parts[1..];
    }
  }

  /** Splitting distributes over a separator: `(a + sep + b).split(sep) == a.split(sep) + b.split(sep)`. */
  lemma {:induction false} SplitConcat(a: string, sep: char, b: string)
    ensures Split(a + [sep] + b, sep) == Split(a, sep) + Split(b, sep)
    decreases |a|
  {
    var i := FirstIndex(a, sep);
    if i == |a| {
      SplitAtFirst(a, sep, b);
    } else {
      var s := a + [sep] + b;
      assert a == a[..i] + [sep] + a[i + 1..];
      assert s == a[..i] + [sep] + (a[i + 1..] + [sep] + b);
      SplitAtFirst(a[..i], sep, a[i + 1..] + [sep] + b);
      SplitConcat(a[i + 1..], sep, b);
    }
  }

  // ---------------------------------------------------------------------
  // Whitespace splitting agrees with splitting at a whitespace separator
  // as long as the pieces are non-empty and contain no whitespace.
  // ---------------------------------------------------------------------

  lemma RunLengthOfPiece(a: string, c: char, b: string)
    requires |a| > 0 && NonBlank(a) && IsWhitespace(c)
    ensures RunLength(a + [c] + b) == |a|
  {
    var s := a + [c] + b;
    assert s[|a|] == c;
    assert forall j :: 0 <= j < |a| ==> s[j] == a[j];
  }

  /** `Words(a + c + b) == [a] + Words(b)` when `a` is one non-empty run and `c` is whitespace. */
  lemma WordsAtPiece(a: string, c: char, b: string)
    requires |a| > 0 && NonBlank(a) && IsWhitespace(c)
    ensures Words(a + [c] + b) == [a] + Words(b)
  {
    var s := a + [c] + b;
    RunLengthOfPiece(a, c, b);
    assert s[0] == a[0];
    assert s[..|a|] == a;
    assert s[|a|..] == [c] + b;
    assert ([c] + b)[1..] == b;
  }

  /**
   * `RunLength` is fixed by its contract: a position `n` that ends a run of
   * non-whitespace starting at 0 and is followed by whitespace (or the end)
   * is the run length.
   */
  lemma RunLengthIs(s: string, n: nat)
    requires n <= |s|
    requires forall j :: 0 <= j < n ==> !IsWhitespace(s[j])
    requires n < |s| ==> IsWhitespace(s[n])
    ensures RunLength(s) == n
  {
  }

  /** A single non-empty run of non-whitespace splits into itself. */
  lemma WordsOfRun(s: string)
    requires |s| > 0 && NonBlank(s)
    ensures Words(s) == [s]
  {
    RunLengthIs(s, |s|);
    assert s[..|s|] == s;
    assert s[|s|..] == [];
  }

  /**
   * Splitting on whitespace distributes over any whitespace character:
   * `(a + c + b).split() == a.split() + b.split()`. With `WordsOfRun` and
   * `Words("") == []` this fixes `Words` on every string as the maximal
   * non-whitespace runs, in order.
   */
  lemma {:induction false} WordsAtWhitespace(a: string, c: char, b: string)
    requires IsWhitespace(c)
    ensures Words(a + [c] + b) == Words(a) + Words(b)
    decreases |a|
  {
    if |a| == 0 {
      assert a + [c] + b == [c] + b;
      WordsAfterBlank(c, b);
    } else if IsWhitespace(a[0]) {
      assert (a + [c] + b)[1..] == a[1..] + [c] + b;
      WordsAtWhitespace(a[1..], c, b);
    } else if RunLength(a) == |a| {
      WordsAtPiece(a, c, b);
      WordsOfRun(a);
      WordsAfterBlank(c, b);
    } else {
      var n := RunLength(a);
      WordsAfterRun(a, [c] + b);
      assert a + ([c] + b) == a + [c] + b;
      assert a[n..] + ([c] + b) == a[n..] + [c] + b;
      WordsAtWhitespace(a[n..], c, b);
      assert Words(a) == [a[..n]] + Words(a[n..]);
    }
  }

  /** Leading whitespace adds no piece. */
  lemma WordsAfterBlank(c: char, b: string)
    requires IsWhitespace(c)
    ensures Words([c] + b) == Words(b)
  {
    assert ([c] + b)[1..] == b;
  }

  /** A run that stops inside `a` is the first piece of `a + t`, whatever follows. */
  lemma WordsAfterRun(a: string, t: string)
    requires |a| > 0 && !IsWhitespace(a[0]) && RunLength(a) < |a|
    ensures Words(a + t) == [a[..RunLength(a)]] + Words(a[RunLength(a)..] + t)
  {
    var s, n := a + t, RunLength(a);
    assert forall j :: 0 <= j < |a| ==> s[j] == a[j];
    RunLengthIs(s, n);
    assert s[..n] == a[..n];
    assert s[n..] == a[n..] + t;
  }

  /**
   * When the first `k` pieces of `s.split(sep)` (for a whitespace `sep`) are
   * non-empty and whitespace-free and some piece follows them, `s.split()`
   * begins with those same `k` pieces.
   */
  lemma {:induction false} WordsAgreeWithSplit(s: string, sep: char, k: nat)
    requires IsWhitespace(sep)
    requires k < |Split(s, sep)|
    requires forall j :: 0 <= j < k ==> |Split(s, sep)[j]| > 0 && NonBlank(Split(s, sep)[j])
    ensures |Words(s)| >= k
    ensures forall j :: 0 <= j < k ==> Words(s)[j] == Split(s, sep)[j]
    decreases k
  {
    if k > 0 {
      var f := Split(s, sep);
      var i := FirstIndex(s, sep);
      assert i < |s|;
      var a, b := s[..i], s[i + 1..];
      assert s == a + [sep] + b;
      assert f == [a] + Split(b, sep);
      assert f[0] == a;
      forall j | 0 <= j < k - 1
        ensures |Split(b, sep)[j]| > 0 && NonBlank(Split(b, sep)[j])
      {
        assert Split(b, sep)[j] == f[j + 1];
      }
      WordsAgreeWithSplit(b, sep, k - 1);
      WordsAtPiece(a, sep, b);
      assert Words(s) == [a] + Words(b);
      forall j | 0 < j < k ensures Words(s)[j] == f[j] {
        assert Words(s)[j] == Words(b)[j - 1] && f[j] == Split(b, sep)[j - 1];
      }
    }
  }
}
