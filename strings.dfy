/**
 * The JavaScript string primitives the page logic relies on:
 * `split` and `join` with a one-character separator, and `replace`
 * with a one-character pattern (which replaces the first occurrence only).
 */
module JsString {

  /** True when `prefix` is an initial segment of `s`. */
  predicate StartsWith(s: string, prefix: string)
  {
    |prefix| <= |s| && s[..|prefix|] == prefix
  }

  /**
   * `s.split(sep)`: the pieces of `s` between occurrences of `sep`, in order.
   * There is always at least one piece (`"".split("&")` is `[""]`), and no piece
   * contains the separator.
   */
  function Split(s: string, sep: char): (parts: seq<string>)
    ensures |parts| >= 1
    ensures forall i :: 0 <= i < |parts| ==> sep !in parts[i]
    decreases |s|
  {
    if s == [] then [""]
    else
      var rest := Split(s[1..], sep);
      if s[0] == sep then [""] + rest
      else [[s[0]] + rest[0]] + rest[1..]
  }

  /** There is a second piece exactly when the separator occurs. */
  lemma {:induction false} SplitHasSecondPiece(s: string, sep: char)
    ensures |Split(s, sep)| >= 2 <==> sep in s
    decreases |s|
  {
    if s != [] {
      SplitHasSecondPiece(s[1..], sep);
      assert s == [s[0]] + s[1..];
      assert sep in s <==> s[0] == sep || sep in s[1..];
    }
  }

  /** `parts.join(sep)`: the pieces with one separator between neighbours. */
  function Join(parts: seq<string>, sep: char): string
  {
    if |parts| == 0 then ""
    else if |parts| == 1 then parts[0]
    else parts[0] + [sep] + Join(parts[1..], sep)
  }

  /** A string without the separator splits into itself alone. */
  lemma {:induction false} SplitWithoutSeparator(s: string, sep: char)
    requires sep !in s
    ensures Split(s, sep) == [s]
    decreases |s|
  {
    if s != [] {
      assert sep !in s[1..];
      SplitWithoutSeparator(s[1..], sep);
      assert s == [s[0]] + s[1..];
    }
  }

  /** Splitting peels off the piece in front of the first separator. */
  lemma {:induction false} SplitAtFirstSeparator(a: string, sep: char, b: string)
    requires sep !in a
    ensures Split(a + [sep] + b, sep) == [a] + Split(b, sep)
    decreases |a|
  {
    var s := a + [sep] + b;
    if a == [] {
      assert s == [sep] + b;
      assert s[1..] == b;
    } else {
      assert s[0] == a[0];
      assert s[1..] == a[1..] + [sep] + b;
      SplitAtFirstSeparator(a[1..], sep, b);
      assert [a[0]] + a[1..] == a;
    }
  }

  /** Joining what `split` produced gives back the original string. */
  lemma {:induction false} JoinSplit(s: string, sep: char)
    ensures Join(Split(s, sep), sep) == s
    decreases |s|
  {
    if s != [] {
      var rest := Split(s[1..], sep);
      JoinSplit(s[1..], sep);
      if s[0] == sep {
        assert Split(s, sep) == [""] + rest;
        assert ([""] + rest)[1..] == rest;
        assert s == [sep] + s[1..];
      } else {
        var parts := Split(s, sep);
        assert parts == [[s[0]] + rest[0]] + rest[1..];
        if |rest| == 1 {
          assert s == [s[0]] + rest[0];
        } else {
          assert parts[1..] == rest[1..];
          assert Join(rest, sep) == rest[0] + [sep] + Join(rest[1..], sep);
          assert s == [s[0]] + s[1..];
        }
      }
    }
  }

  /**
   * Splitting a joined list recovers the list exactly, provided the list is
   * not empty and no piece contains the separator.
   */
  lemma {:induction false} SplitJoin(parts: seq<string>, sep: char)
    requires |parts| >= 1
    requires forall i :: 0 <= i < |parts| ==> sep !in parts[i]
    ensures Split(Join(parts, sep), sep) == parts
    decreases |parts|
  {
    if |parts| == 1 {
      SplitWithoutSeparator(parts[0], sep);
    } else {
      SplitJoin(parts[1..], sep);
      SplitAtFirstSeparator(parts[0], sep, Join(parts[1..], sep));
      assert [parts[0]] + parts[1..] == parts;
    }
  }

  /** `s.indexOf(c)` on a string or an array, with `|s|` standing for "not found" (JavaScript's -1). */
  function IndexOf<T(==)>(s: seq<T>, c: T): (i: nat)
    ensures i <= |s|
    ensures i < |s| ==> s[i] == c
    ensures forall j :: 0 <= j < i ==> s[j] != c
  {
    if s == [] then 0
    else if s[0] == c then 0
    else 1 + IndexOf(s[1..], c)
  }

  /** `s.replace(from, to)` with a one-character pattern: only the first occurrence changes. */
  function ReplaceFirst(s: string, from: char, to: char): string
  {
    if s == [] then []
    else if s[0] == from then [to] + s[1..]
    else [s[0]] + ReplaceFirst(s[1..], from, to)
  }

  /** The replacement keeps the length and changes exactly the position `indexOf` finds. */
  lemma {:induction false} ReplaceFirstSpec(s: string, from: char, to: char)
    ensures |ReplaceFirst(s, from, to)| == |s|
    ensures forall j :: 0 <= j < |s| ==> ReplaceFirst(s, from, to)[j] == (if j == IndexOf(s, from) then to else s[j])
  {
    if s != [] && s[0] != from {
      ReplaceFirstSpec(s[1..], from, to);
      var r := ReplaceFirst(s, from, to);
      assert forall j :: 1 <= j < |s| ==> r[j] == ReplaceFirst(s[1..], from, to)[j - 1];
    }
  }

  /** Every occurrence of `from` replaced by `to`, everything else kept. */
  function ReplaceAll(s: string, from: char, to: char): string
  {
    seq(|s|, i requires 0 <= i < |s| => if s[i] == from then to else s[i])
  }

  /** Replacing every occurrence works piece by piece. */
  lemma ReplaceAllConcat(a: string, b: string, from: char, to: char)
    ensures ReplaceAll(a + b, from, to) == ReplaceAll(a, from, to) + ReplaceAll(b, from, to)
  {
    var l := ReplaceAll(a + b, from, to);
    var r := ReplaceAll(a, from, to) + ReplaceAll(b, from, to);
    assert forall i :: 0 <= i < |a| ==> l[i] == r[i];
    assert forall i :: |a| <= i < |a + b| ==> l[i] == r[i];
  }

  /** A string without the character is left as it is. */
  lemma ReplaceAllWithout(a: string, from: char, to: char)
    requires from !in a
    ensures ReplaceAll(a, from, to) == a
  {
    var r := ReplaceAll(a, from, to);
    assert forall i :: 0 <= i < |a| ==> r[i] == a[i];
  }

  /** The first occurrence is the one after the longest prefix without the character. */
  lemma {:induction false} ReplaceFirstAt(a: string, b: string, from: char, to: char)
    requires from !in a
    ensures ReplaceFirst(a + [from] + b, from, to) == a + [to] + b
  {
    var s := a + [from] + b;
    if a == [] {
      assert s[1..] == b;
    } else {
      assert s[0] == a[0] && s[1..] == a[1..] + [from] + b;
      ReplaceFirstAt(a[1..], b, from, to);
      assert [a[0]] + (a[1..] + [to] + b) == a + [to] + b;
    }
  }
}
