/**
 * The parts of Go's `strings` package the service relies on: splitting on a
 * one-character separator and ASCII lower-casing.
 */
module Strings {

  /** Number of occurrences of `c` in `s`. */
  function Count(s: string, c: char): nat
  {
    if |s| == 0 then 0 else (if s[0] == c then 1 else 0) + Count(s[1..], c)
  }

  /**
   * strings.Split(s, sep) for a one-character separator: the pieces between
   * separators, in order; an empty string gives one empty piece.
   */
  function Split(s: string, sep: char): (parts: seq<string>)
    ensures |parts| == Count(s, sep) + 1
    ensures forall i :: 0 <= i < |parts| ==> sep !in parts[i]
    decreases |s|
  {
    if |s| == 0 then [""]
    else
      var rest := Split(s[1..], sep);
      if s[0] == sep then [""] + rest
      else [[s[0]] + rest[0]] + rest[1..]
  }

  /** strings.Join(parts, sep): the pieces with one separator between neighbours. */
  function Join(parts: seq<string>, sep: char): string
  {
    if |parts| == 0 then ""
    else if |parts| == 1 then parts[0]
    else parts[0] + [sep] + Join(parts[1..], sep)
  }

  /** Joining the pieces of a split gives back the string. */
  lemma {:induction false} JoinSplit(s: string, sep: char)
    ensures Join(Split(s, sep), sep) == s
    decreases |s|
  {
    if |s| > 0 {
      var rest := Split(s[1..], sep);
      JoinSplit(s[1..], sep);
      if s[0] == sep {
        assert Split(s, sep) == [""] + rest;
        assert ([""] + rest)[1..] == rest;
      } else if |rest| > 1 {
        assert Join(rest, sep) == rest[0] + [sep] + Join(rest[1..], sep);
        assert Split(s, sep)[1..] == rest[1..];
        assert s == [s[0]] + s[1..];
      } else {
        assert s == [s[0]] + s[1..];
      }
    }
  }

  /** A string without the separator splits into itself alone. */
  lemma {:induction false} SplitWithoutSeparator(p: string, sep: char)
    requires sep !in p
    ensures Split(p, sep) == [p]
    decreases |p|
  {
    if |p| > 0 {
      SplitWithoutSeparator(p[1..], sep);
      assert [p[0]] + p[1..] == p;
    }
  }

  /** The first piece ends at the first separator; the rest is split on its own. */
  lemma {:induction false} SplitAtFirstSeparator(p: string, sep: char, t: string)
    requires sep !in p
    ensures Split(p + [sep] + t, sep) == [p] + Split(t, sep)
    decreases |p|
  {
    if |p| == 0 {
      assert p + [sep] + t == [sep] + t;
      assert ([sep] + t)[1..] == t;
    } else {
      var s := p + [sep] + t;
      assert s[1..] == p[1..] + [sep] + t;
      SplitAtFirstSeparator(p[1..], sep, t);
      assert [p[0]] + p[1..] == p;
    }
  }

  /** Splitting a join of separator-free pieces gives back the pieces. */
  lemma {:induction false} SplitJoin(parts: seq<string>, sep: char)
    requires |parts| > 0
    requires forall i :: 0 <= i < |parts| ==> sep !in parts[i]
    ensures Split(Join(parts, sep), sep) == parts
    decreases |parts|
  {
    if |parts| == 1 {
      SplitWithoutSeparator(parts[0], sep);
    } else {
      SplitJoin(parts[1..], sep);
      SplitAtFirstSeparator(parts[0], sep, Join(parts[1..], sep));
      assert [parts[0]] + parts[1..] == parts;
    }
  }

  /** A string that ends with the separator has an empty last piece. */
  lemma {:induction false} SplitTrailingSeparator(s: string, sep: char)
    requires |s| > 0 && s[|s| - 1] == sep
    ensures var parts := Split(s, sep); parts[|parts| - 1] == ""
    decreases |s|
  {
    if |s| > 1 {
      SplitTrailingSeparator(s[1..], sep);
    }
  }

  /** strings.ToLower restricted to ASCII: 'A'..'Z' become 'a'..'z'. */
  function LowerAscii(c: char): char
  {
    if 'A' <= c <= 'Z' then (c as int + 32) as char else c
  }

  function UpperAscii(c: char): char
  {
    if 'a' <= c <= 'z' then (c as int - 32) as char else c
  }

  function ToLower(s: string): string
  {
    seq(|s|, i requires 0 <= i < |s| => LowerAscii(s[i]))
  }

  predicate IsLowerWord(w: string)
  {
    forall i :: 0 <= i < |w| ==> 'a' <= w[i] <= 'z'
  }

  /**
   * Lower-casing `s` gives the lower-case word `w` exactly when `s` spells `w`
   * with each letter in either case.
   */
  lemma ToLowerMatches(s: string, w: string)
    requires IsLowerWord(w)
    ensures ToLower(s) == w <==>
              |s| == |w| && forall i :: 0 <= i < |s| ==> s[i] == w[i] || s[i] == UpperAscii(w[i])
  {
  }
}
