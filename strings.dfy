/** The string operations of Rust's standard library that the program uses (`starts_with`,
    `join`, `flat_map` over text nodes), and `EndsWith`, which only the inverse of the
    page URL (`Howto.LinkOfPageUrl`) needs. */
module Strings {

  /** `str::starts_with`. */
  predicate StartsWith(s: string, prefix: string)
  {
    |prefix| <= |s| && s[..|prefix|] == prefix
  }

  /** `str::ends_with`. */
  predicate EndsWith(s: string, suffix: string)
  {
    |suffix| <= |s| && s[|s| - |suffix|..] == suffix
  }

  /** `parts.join("")`: the parts one after the other, nothing in between. */
  function Concat(parts: seq<string>): string
  {
    if parts == [] then "" else parts[0] + Concat(parts[1..])
  }

  /** `parts.join(sep)`: the parts with `sep` between each neighbouring pair. */
  function JoinWith(parts: seq<string>, sep: string): string
  {
    if |parts| == 0 then ""
    else if |parts| == 1 then parts[0]
    else parts[0] + sep + JoinWith(parts[1..], sep)
  }

  /** `flat_map` over a sequence of text-node sequences. */
  function Flatten(nested: seq<seq<string>>): seq<string>
  {
    if nested == [] then [] else nested[0] + Flatten(nested[1..])
  }

  /** The text of each inner sequence, `join("")`ed on its own. */
  function ConcatEach(nested: seq<seq<string>>): (r: seq<string>)
    ensures |r| == |nested|
    ensures forall i :: 0 <= i < |nested| ==> r[i] == Concat(nested[i])
  {
    if nested == [] then [] else [Concat(nested[0])] + ConcatEach(nested[1..])
  }

  /** Joining is a homomorphism from sequence concatenation to string concatenation. */
  lemma {:induction false} ConcatAppend(a: seq<string>, b: seq<string>)
    ensures Concat(a + b) == Concat(a) + Concat(b)
  {
    if a == [] {
      assert a + b == b;
    } else {
      assert (a + b)[1..] == a[1..] + b;
      ConcatAppend(a[1..], b);
    }
  }

  /** `join("")` is `join` with an empty separator: the two definitions agree. */
  lemma {:induction false} ConcatIsJoinWithEmpty(parts: seq<string>)
    ensures Concat(parts) == JoinWith(parts, "")
  {
    if |parts| > 1 {
      ConcatIsJoinWithEmpty(parts[1..]);
    }
  }

  /** Flattening the text nodes of several elements and then joining them gives the
      texts of the elements, each joined on its own, one after the other. */
  lemma {:induction false} ConcatFlatten(nested: seq<seq<string>>)
    ensures Concat(Flatten(nested)) == Concat(ConcatEach(nested))
  {
    if nested != [] {
      ConcatFlatten(nested[1..]);
      ConcatAppend(nested[0], Flatten(nested[1..]));
      assert ([Concat(nested[0])] + ConcatEach(nested[1..]))[1..] == ConcatEach(nested[1..]);
    }
  }

  /** With a non-empty separator, joining a non-empty sequence gives the empty string
      exactly when the sequence is one empty string. */
  lemma {:induction false} JoinWithEmptyIff(parts: seq<string>, sep: string)
    requires |parts| >= 1 && |sep| >= 1
    ensures JoinWith(parts, sep) == "" <==> parts == [""]
  {
    if |parts| > 1 {
      assert |JoinWith(parts, sep)| >= |sep|;
    }
  }
}
