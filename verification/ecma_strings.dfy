/**
  The step-by-step algorithms of ECMA-262 for `StringIndexOf`,
  `String.prototype.split` (string separator, no limit) and
  `Array.prototype.join`, written as loops and proved to compute the
  recursive definitions of module Delimited.
 */
module EcmaStrings {
  import opened Options
  import opened Delimited

  /**
    ECMA-262 `StringIndexOf(s, sep, from)`: the leftmost index at or after
    `from` where `sep` occurs, or -1 when there is none.
   */
  method StringIndexOf(s: string, sep: string, from: nat) returns (j: int)
    requires sep != [] && from <= |s|
    ensures j == -1 <==> IndexFrom(s, sep, from).None?
    ensures j != -1 ==> IndexFrom(s, sep, from) == Some(j)
  {
    var k := from;
    while k + |sep| <= |s|
      invariant from <= k
      invariant forall m :: from <= m < k ==> !OccursAt(s, sep, m)
    {
      if s[k..k + |sep|] == sep {
        IndexFromLeftmost(s, sep, from, k);
        return k;
      }
      k := k + 1;
    }
    assert forall m :: from <= m ==> !OccursAt(s, sep, m);
    return -1;
  }

  /** ECMA-262 `String.prototype.split(sep)` for a non-empty string separator and no limit. */
  method SplitLoop(s: string, sep: string) returns (r: seq<string>)
    requires sep != []
    ensures r == Split(s, sep)
  {
    if s == [] {
      SplitFromNone(s, sep, 0);
      return [s];
    }
    var substrings: seq<string> := [];
    var i: nat := 0;
    var j := StringIndexOf(s, sep, 0);
    while j != -1
      invariant i <= |s|
      invariant j == -1 <==> IndexFrom(s, sep, i).None?
      invariant j != -1 ==> IndexFrom(s, sep, i) == Some(j)
      invariant substrings + SplitFrom(s, sep, i) == Split(s, sep)
      decreases |s| - i
    {
      CollectPiece(s, sep, i, j, substrings);
      substrings := substrings + [s[i..j]];
      i := j + |sep|;
      j := StringIndexOf(s, sep, i);
    }
    SplitFromNone(s, sep, i);
    r := substrings + [s[i..]];
  }

  /** Moving the piece before the occurrence at `j` into the collected pieces keeps their concatenation with the rest. */
  lemma CollectPiece(s: string, sep: string, i: nat, j: nat, substrings: seq<string>)
    requires sep != [] && i <= |s| && IndexFrom(s, sep, i) == Some(j)
    ensures j + |sep| <= |s|
    ensures substrings + SplitFrom(s, sep, i) == (substrings + [s[i..j]]) + SplitFrom(s, sep, j + |sep|)
  {
    SplitFromAt(s, sep, i, j);
  }

  /** ECMA-262 `Array.prototype.join(sep)` over an array of strings. */
  method JoinLoop(xs: seq<string>, sep: string) returns (r: string)
    ensures r == Join(xs, sep)
  {
    r := [];
    var k := 0;
    while k < |xs|
      invariant k <= |xs|
      invariant r == Join(xs[..k], sep)
    {
      if k > 0 {
        r := r + sep;
        JoinSnoc(xs[..k], xs[k], sep);
      }
      r := r + xs[k];
      assert xs[..k + 1] == xs[..k] + [xs[k]];
      k := k + 1;
    }
    assert xs[..k] == xs;
  }
}
