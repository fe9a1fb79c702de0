/**
 * The few `System.String` operations the modelled code relies on:
 * `string.Join`, `PadRight`, `new string(c, n)`, `StartsWith` and
 * `Equals(_, StringComparison.OrdinalIgnoreCase)`.
 */
module Strings {

  /** `new string(c, n)`: `n` copies of `c`. */
  function Repeat(c: char, n: nat): (r: string)
    ensures |r| == n
    ensures forall i :: 0 <= i < n ==> r[i] == c
  {
    seq(n, _ => c)
  }

  /** `s.PadRight(width)`: `s` followed by spaces up to `width` characters; never truncates. */
  function PadRight(s: string, width: nat): (r: string)
    ensures |r| == if |s| < width then width else |s|
    ensures r[..|s|] == s
    ensures forall i :: |s| <= i < |r| ==> r[i] == ' '
  {
    if |s| < width then s + Repeat(' ', width - |s|) else s
  }

  /** `string.Join(sep, parts)`: the parts with `sep` between consecutive ones. */
  function Join(sep: string, parts: seq<string>): string
  {
    if |parts| == 0 then ""
    else if |parts| == 1 then parts[0]
    else parts[0] + sep + Join(sep, parts[1..])
  }

  /** Total length of a sequence of strings. */
  function SumLengths(parts: seq<string>): nat
  {
    if |parts| == 0 then 0 else |parts[0]| + SumLengths(parts[1..])
  }

  /** Sum of a sequence of naturals. */
  function Sum(xs: seq<nat>): nat
  {
    if |xs| == 0 then 0 else xs[0] + Sum(xs[1..])
  }

  /** The length of a join is the parts' total plus one separator between each pair. */
  lemma {:induction false} JoinLength(sep: string, parts: seq<string>)
    requires |parts| > 0
    ensures |Join(sep, parts)| == SumLengths(parts) + |sep| * (|parts| - 1)
  {
    if |parts| > 1 {
      JoinLength(sep, parts[1..]);
    }
  }

  /** Parts whose lengths are given by `w` have total length `Sum(w)`. */
  lemma {:induction false} SumLengthsOfWidths(parts: seq<string>, w: seq<nat>)
    requires |parts| == |w|
    requires forall i :: 0 <= i < |parts| ==> |parts[i]| == w[i]
    ensures SumLengths(parts) == Sum(w)
  {
    if |parts| > 0 {
      SumLengthsOfWidths(parts[1..], w[1..]);
    }
  }

  /** A join starts with its first part. */
  lemma {:induction false} JoinStartsWithFirst(sep: string, parts: seq<string>)
    requires |parts| > 0
    ensures |parts[0]| <= |Join(sep, parts)|
    ensures Join(sep, parts)[..|parts[0]|] == parts[0]
  {
  }

  predicate StartsWith(s: string, prefix: string)
  {
    |prefix| <= |s| && s[..|prefix|] == prefix
  }

  /** Upper-casing restricted to ASCII letters. */
  function AsciiUpper(c: char): (r: char)
    ensures 'a' <= c <= 'z' ==> r as int == c as int - 32
    ensures !('a' <= c <= 'z') ==> r == c
  {
    if 'a' <= c <= 'z' then (c as int - 32) as char else c
  }

  /** `a.Equals(b, StringComparison.OrdinalIgnoreCase)`, with ASCII case folding. */
  predicate EqualsIgnoreCase(a: string, b: string)
  {
    |a| == |b| && forall i :: 0 <= i < |a| ==> AsciiUpper(a[i]) == AsciiUpper(b[i])
  }

  /** `args.Any(x => x.Equals(flag, StringComparison.OrdinalIgnoreCase))`. */
  predicate HasFlag(args: seq<string>, flag: string)
  {
    exists i :: 0 <= i < |args| && EqualsIgnoreCase(args[i], flag)
  }
}
