/**
  The JavaScript string and array primitives the path helpers are built from:
  `String.prototype.split` with a one-character separator, `Array.prototype.join`
  and `Array.prototype.pop`, over strings as `seq<char>` and arrays as `seq`.
 */
module Strings {

  /** `s.endsWith(t)`. */
  predicate EndsWith(s: string, t: string)
  {
    |t| <= |s| && s[|s| - |t|..] == t
  }

  /** The last element of a non-empty sequence (what `pop()` returns). */
  function Last<T>(xs: seq<T>): T
    requires |xs| > 0
  {
    xs[|xs| - 1]
  }

  /** `pop()` as it acts on the array: drops the last element, and leaves an
      empty array as it is. */
  function Pop<T>(xs: seq<T>): (r: seq<T>)
    ensures |xs| == 0 ==> r == xs
    ensures |xs| > 0 ==> r + [xs[|xs| - 1]] == xs
  {
    if |xs| == 0 then [] else xs[..|xs| - 1]
  }

  /** A non-empty sequence is what `pop()` leaves, followed by what it returns. */
  lemma PopThenLast<T>(xs: seq<T>)
    requires |xs| >= 1
    ensures Pop(xs) + [Last(xs)] == xs
  {
  }

  /** The same for two `pop()` calls in a row. */
  lemma PopTwoThenLastTwo<T>(xs: seq<T>)
    requires |xs| >= 2
    ensures Pop(Pop(xs)) + [xs[|xs| - 2], Last(xs)] == xs
  {
  }

  /** Two `pop()` calls undo two pushes. */
  lemma PushTwoPopTwo<T>(xs: seq<T>, a: T, b: T)
    ensures Pop(Pop(xs + [a, b])) == xs && Last(xs + [a, b]) == b
  {
    assert Pop(xs + [a, b]) == xs + [a];
  }

  /** `parts.join(c)`: the parts with one `c` between neighbours; `[].join(c)` is "". */
  function Join(parts: seq<string>, c: char): string
  {
    if |parts| == 0 then ""
    else if |parts| == 1 then parts[0]
    else parts[0] + [c] + Join(parts[1..], c)
  }

  /** `s.split(c)`: the maximal runs of non-`c` characters between the
      occurrences of `c`. There is always at least one part (`"".split(c)` is
      `[""]`), no part contains `c`, and joining the parts gives `s` back. */
  function Split(s: string, c: char): (parts: seq<string>)
    ensures |parts| >= 1
    ensures forall i :: 0 <= i < |parts| ==> c !in parts[i]
    ensures Join(parts, c) == s
    decreases |s|
  {
    if |s| == 0 then [""]
    else
      var rest := Split(s[1..], c);
      if s[0] == c then
        [""] + rest
      else
        assert Join(rest, c) == s[1..];
        [[s[0]] + rest[0]] + rest[1..]
  }

  /** A string without the separator splits into itself alone. */
  lemma {:induction false} SplitNoSeparator(s: string, c: char)
    requires c !in s
    ensures Split(s, c) == [s]
    decreases |s|
  {
    if |s| > 0 {
      SplitNoSeparator(s[1..], c);
    }
  }

  /** A string splits into exactly one part iff it has no separator. */
  lemma SplitSingleton(s: string, c: char)
    ensures |Split(s, c)| == 1 <==> c !in s
  {
    if c !in s {
      SplitNoSeparator(s, c);
    }
  }

  /** Sequence concatenation is associative. */
  lemma AppendAssoc<T>(x: seq<T>, y: seq<T>, z: seq<T>)
    ensures x + (y + z) == (x + y) + z
  {
  }

  /** Splitting distributes over one occurrence of the separator. */
  lemma {:induction false} SplitConcat(a: string, b: string, c: char)
    ensures Split(a + [c] + b, c) == Split(a, c) + Split(b, c)
    decreases |a|
  {
    var t := a + [c] + b;
    if |a| == 0 {
      assert t == [c] + b;
      assert t[1..] == b;
      assert Split(t, c) == [""] + Split(b, c);
      assert Split(a, c) == [""];
    } else {
      assert t[0] == a[0];
      assert t[1..] == a[1..] + [c] + b;
      SplitConcat(a[1..], b, c);
      var rest, bs := Split(a[1..], c), Split(b, c);
      assert Split(t[1..], c) == rest + bs;
      if a[0] == c {
        assert Split(t, c) == [""] + (rest + bs);
        assert Split(a, c) == [""] + rest;
        AppendAssoc([""], rest, bs);
      } else {
        assert (rest + bs)[0] == rest[0];
        assert (rest + bs)[1..] == rest[1..] + bs;
        assert Split(t, c) == [[a[0]] + rest[0]] + (rest[1..] + bs);
        assert Split(a, c) == [[a[0]] + rest[0]] + rest[1..];
        AppendAssoc([[a[0]] + rest[0]], rest[1..], bs);
      }
    }
  }

  /** Joining one more part appends the separator and that part. */
  lemma {:induction false} JoinSnoc(parts: seq<string>, x: string, c: char)
    requires |parts| >= 1
    ensures Join(parts + [x], c) == Join(parts, c) + [c] + x
    decreases |parts|
  {
    if |parts| > 1 {
      assert (parts + [x])[1..] == parts[1..] + [x];
      JoinSnoc(parts[1..], x, c);
    }
  }

  /** Joining one more part onto a (possibly empty) array of parts. */
  lemma JoinSnocAny(parts: seq<string>, x: string, c: char)
    ensures Join(parts + [x], c) == if |parts| == 0 then x else Join(parts, c) + [c] + x
  {
    if |parts| == 0 {
      assert parts + [x] == [x];
    } else {
      JoinSnoc(parts, x, c);
    }
  }

  /** Joining two more parts onto a (possibly empty) array of parts. */
  lemma JoinTwoMore(parts: seq<string>, x: string, y: string, c: char)
    ensures Join(parts + [x, y], c) == (if |parts| == 0 then x else Join(parts, c) + [c] + x) + [c] + y
  {
    assert parts + [x, y] == (parts + [x]) + [y];
    JoinSnoc(parts + [x], y, c);
    if |parts| > 0 {
      JoinSnoc(parts, x, c);
    } else {
      assert parts + [x] == [x];
    }
  }

  /** Splitting undoes joining, provided there is at least one part and no
      part contains the separator: split and join are mutually inverse. */
  lemma {:induction false} JoinSplit(parts: seq<string>, c: char)
    requires |parts| >= 1
    requires forall i :: 0 <= i < |parts| ==> c !in parts[i]
    ensures Split(Join(parts, c), c) == parts
    decreases |parts|
  {
    if |parts| == 1 {
      SplitNoSeparator(parts[0], c);
    } else {
      SplitNoSeparator(parts[0], c);
      JoinSplit(parts[1..], c);
      SplitConcat(parts[0], Join(parts[1..], c), c);
    }
  }
}
