/**
 * Splitting and joining strings on a separator, shared by the server's form parser
 * (`String.split("&")`) and the browser script (`Array.prototype.join`).
 */
module Strings {

  /** `f` applied to each element, in order. */
  function MapSeq<T, U>(f: T -> U, s: seq<T>): (r: seq<U>)
    ensures |r| == |s| && forall i :: 0 <= i < |s| ==> r[i] == f(s[i])
  {
    seq(|s|, i requires 0 <= i < |s| => f(s[i]))
  }

  /** Mapping one more element appends its image. */
  lemma MapSeqPrefix<T, U>(f: T -> U, s: seq<T>, i: nat)
    requires i < |s|
    ensures MapSeq(f, s[..i + 1]) == MapSeq(f, s[..i]) + [f(s[i])]
  {
  }

  /** Index of the first occurrence of `c` in `s` (Java's `indexOf`). */
  function IndexOf(s: string, c: char): (i: nat)
    requires c in s
    ensures i < |s| && s[i] == c && c !in s[..i]
  {
    if s[0] == c then 0 else 1 + IndexOf(s[1..], c)
  }

  /** The pieces of `s` between occurrences of `c`, empty pieces included. */
  function SplitOn(s: string, c: char): (parts: seq<string>)
    decreases |s|
  {
    if c !in s then [s]
    else
      var i := IndexOf(s, c);
      [s[..i]] + SplitOn(s[i + 1..], c)
  }

  /** The elements of `parts` with `sep` between neighbours; the empty list joins to "". */
  function Join(parts: seq<string>, sep: string): string {
    if |parts| == 0 then ""
    else if |parts| == 1 then parts[0]
    else parts[0] + sep + Join(parts[1..], sep)
  }

  /** No piece of a split contains the separator, and there is always at least one piece. */
  lemma {:induction false} SplitOnPieces(s: string, c: char)
    ensures |SplitOn(s, c)| >= 1
    ensures forall i :: 0 <= i < |SplitOn(s, c)| ==> c !in SplitOn(s, c)[i]
    decreases |s|
  {
    if c in s {
      var i := IndexOf(s, c);
      SplitOnPieces(s[i + 1..], c);
    }
  }

  /** Joining the pieces back with the separator restores the string. */
  lemma {:induction false} JoinSplitOn(s: string, c: char)
    ensures Join(SplitOn(s, c), [c]) == s
    decreases |s|
  {
    if c in s {
      var i := IndexOf(s, c);
      var head, rest := s[..i], s[i + 1..];
      var tail := SplitOn(rest, c);
      assert SplitOn(s, c) == [head] + tail;
      SplitOnNonEmpty(rest, c);
      JoinCons(head, tail, [c]);
      JoinSplitOn(rest, c);
      assert s == head + [c] + rest;
    }
  }

  lemma SplitOnNonEmpty(s: string, c: char)
    ensures |SplitOn(s, c)| >= 1
  {
    SplitOnPieces(s, c);
  }

  lemma JoinCons(p: string, parts: seq<string>, sep: string)
    requires |parts| >= 1
    ensures Join([p] + parts, sep) == p + sep + Join(parts, sep)
  {
    assert ([p] + parts)[1..] == parts;
  }

  /** Splitting a join of separator-free pieces gives the pieces back. */
  lemma {:induction false} SplitOnJoin(parts: seq<string>, c: char)
    requires |parts| >= 1
    requires forall i :: 0 <= i < |parts| ==> c !in parts[i]
    ensures SplitOn(Join(parts, [c]), c) == parts
  {
    if |parts| > 1 {
      var s := Join(parts, [c]);
      var p := parts[0];
      SplitOnJoin(parts[1..], c);
      assert s == p + [c] + Join(parts[1..], [c]);
      assert s[|p|] == c;
      assert s[..|p|] == p;
      assert c !in s[..|p|];
      assert IndexOf(s, c) == |p|;
      assert s[|p| + 1..] == Join(parts[1..], [c]);
    }
  }

  /** Joining one more piece adds the separator and the piece at the end. */
  lemma {:induction false} JoinAppend(parts: seq<string>, p: string, sep: string)
    requires |parts| >= 1
    ensures Join(parts + [p], sep) == Join(parts, sep) + sep + p
    decreases |parts|
  {
    if |parts| > 1 {
      JoinAppend(parts[1..], p, sep);
      assert (parts + [p])[1..] == parts[1..] + [p];
    } else {
      assert (parts + [p])[1..] == [p];
    }
  }

  /**
   * `s.replace(c, t)` for a one-character target (or a global one-character regex): every
   * occurrence of c becomes t.
   */
  function Replace(s: string, c: char, t: string): string {
    if s == [] then [] else ReplaceOne(s[0], c, t) + Replace(s[1..], c, t)
  }

  /** What one character becomes under `Replace`. */
  function ReplaceOne(x: char, c: char, t: string): string {
    if x == c then t else [x]
  }

  /** A string without `c` is left unchanged. */
  lemma {:induction false} ReplaceAbsent(s: string, c: char, t: string)
    requires c !in s
    ensures Replace(s, c, t) == s
    decreases |s|
  {
    if s != [] {
      assert s[0] != c && c !in s[1..];
      ReplaceAbsent(s[1..], c, t);
    }
  }

  /** A one-character string is replaced as its character. */
  lemma ReplaceSingle(x: char, c: char, t: string)
    ensures Replace([x], c, t) == ReplaceOne(x, c, t)
  {
    assert Replace([x], c, t) == ReplaceOne(x, c, t) + Replace([], c, t);
  }

  lemma {:induction false} ReplaceConcat(a: string, b: string, c: char, t: string)
    ensures Replace(a + b, c, t) == Replace(a, c, t) + Replace(b, c, t)
    decreases |a|
  {
    if a != [] {
      var h, ra, rb := ReplaceOne(a[0], c, t), Replace(a[1..], c, t), Replace(b, c, t);
      assert (a + b)[0] == a[0] && (a + b)[1..] == a[1..] + b;
      assert Replace(a + b, c, t) == h + Replace(a[1..] + b, c, t);
      ReplaceConcat(a[1..], b, c, t);
      assert h + (ra + rb) == (h + ra) + rb;
    } else {
      assert a + b == b;
    }
  }
}
