/**
  Delimiter-separated lists of strings, as the patent edit form stores them:
  `Split` behaves like JavaScript's `String.prototype.split` with a non-empty
  string separator (leftmost, non-overlapping matches, never an empty result)
  and `Join` like `Array.prototype.join` (so joining no elements gives "").
  Positions are indices into the whole string, as in ECMA-262's own
  description of `split`. The laws relating the two are proved at the end
  of the module.
 */
module Delimited {
  import opened Options

  /** `sep` occurs in `s` at index `j`. */
  predicate OccursAt(s: string, sep: string, j: int) {
    0 <= j && j + |sep| <= |s| && s[j..j + |sep|] == sep
  }

  /** `s` contains no occurrence of `sep`. */
  ghost predicate Free(s: string, sep: string) {
    forall j :: !OccursAt(s, sep, j)
  }

  /** A string without the separator's first character cannot contain the separator. */
  lemma FreeOfFirstChar(s: string, sep: string)
    requires sep != [] && sep[0] !in s
    ensures Free(s, sep)
  {
  }

  /** The first `b` characters of `sep` are also its last `b` characters. */
  predicate IsBorder(sep: string, b: nat)
    requires b <= |sep|
  {
    sep[..b] == sep[|sep| - b..]
  }

  /**
    No proper non-empty prefix of `sep` is also a suffix of it, so two
    occurrences of `sep` can never overlap.
   */
  predicate Borderless(sep: string) {
    NoBorderFrom(sep, 1)
  }

  /** No prefix of `sep` of length at least `b` (and less than `|sep|`) is also a suffix. */
  predicate NoBorderFrom(sep: string, b: nat)
    decreases |sep| - b
  {
    b >= |sep| || (!IsBorder(sep, b) && NoBorderFrom(sep, b + 1))
  }

  /** A borderless separator has no border of any proper length. */
  lemma {:induction false} NoBorderAt(sep: string, from: nat, b: nat)
    requires NoBorderFrom(sep, from) && from <= b < |sep|
    ensures !IsBorder(sep, b)
    decreases b - from
  {
    if from < b {
      NoBorderAt(sep, from + 1, b);
    }
  }

  /**
    Index of the leftmost occurrence of `sep` in `s` at or after `from`, if
    there is one (ECMA-262's `StringIndexOf`, with None for -1).
   */
  function IndexFrom(s: string, sep: string, from: nat): (r: Option<nat>)
    requires sep != []
    ensures r.Some? ==> from <= r.value && OccursAt(s, sep, r.value)
    decreases |s| - from
  {
    if |s| < from + |sep| then None
    else if s[from..from + |sep|] == sep then Some(from)
    else IndexFrom(s, sep, from + 1)
  }

  /**
    `IndexFrom` misses nothing: there is no occurrence before the one it
    finds, and none at all at or after `from` when it finds none.
   */
  lemma {:induction false} IndexFromIsLeftmost(s: string, sep: string, from: nat, k: nat)
    requires sep != [] && from <= k && OccursAt(s, sep, k)
    ensures IndexFrom(s, sep, from).Some? && IndexFrom(s, sep, from).value <= k
    decreases |s| - from
  {
    if from < k && s[from..from + |sep|] != sep {
      IndexFromIsLeftmost(s, sep, from + 1, k);
    }
  }

  /** A known leftmost occurrence at or after `from` is what `IndexFrom` finds. */
  lemma IndexFromLeftmost(s: string, sep: string, from: nat, j: nat)
    requires sep != [] && from <= j
    requires OccursAt(s, sep, j)
    requires forall k :: from <= k < j ==> !OccursAt(s, sep, k)
    ensures IndexFrom(s, sep, from) == Some(j)
  {
    IndexFromIsLeftmost(s, sep, from, j);
  }

  /** An occurrence in the piece `s[i..j]` is an occurrence in `s` lying inside that piece. */
  lemma OccursInPiece(s: string, sep: string, i: nat, j: nat, m: int)
    requires i <= j <= |s|
    ensures OccursAt(s[i..j], sep, m) <==> OccursAt(s, sep, i + m) && 0 <= m && i + m + |sep| <= j
  {
    if 0 <= m && m + |sep| <= j - i {
      var piece := s[i..j];
      assert forall q :: 0 <= q < j - i ==> piece[q] == s[i + q];
      assert piece[m..m + |sep|] == s[i + m..i + m + |sep|];
    }
  }

  /**
    The pieces of `s[from..]` between the leftmost non-overlapping
    occurrences of `sep`. There is always at least one piece, and no piece
    contains `sep`.
   */
  function SplitFrom(s: string, sep: string, from: nat): (r: seq<string>)
    requires sep != [] && from <= |s|
    ensures |r| >= 1
    decreases |s| - from
  {
    match IndexFrom(s, sep, from)
    case None => [s[from..]]
    case Some(j) => [s[from..j]] + SplitFrom(s, sep, j + |sep|)
  }

  /** No piece of `s[from..]` contains the separator. */
  lemma {:induction false} SplitFromFree(s: string, sep: string, from: nat)
    requires sep != [] && from <= |s|
    ensures forall p <- SplitFrom(s, sep, from) :: Free(p, sep)
    decreases |s| - from
  {
    match IndexFrom(s, sep, from)
    case None =>
      assert Free(s[from..], sep) by {
        assert s[from..] == s[from..|s|];
        forall m | OccursAt(s[from..|s|], sep, m) ensures false {
          OccursInPiece(s, sep, from, |s|, m);
          IndexFromIsLeftmost(s, sep, from, from + m);
        }
      }
    case Some(j) =>
      assert Free(s[from..j], sep) by {
        forall m | OccursAt(s[from..j], sep, m) ensures false {
          OccursInPiece(s, sep, from, j, m);
          IndexFromIsLeftmost(s, sep, from, from + m);
        }
      }
      SplitFromFree(s, sep, j + |sep|);
  }

  /** `s.split(sep)` in JavaScript, for a non-empty string separator. */
  function Split(s: string, sep: string): (r: seq<string>)
    requires sep != []
    ensures |r| >= 1
    ensures forall p <- r :: Free(p, sep)
  {
    SplitFromFree(s, sep, 0);
    SplitFrom(s, sep, 0)
  }

  /** `xs.join(sep)` in JavaScript: the elements with one `sep` between each neighbouring pair. */
  function Join(xs: seq<string>, sep: string): (r: string)
    ensures |xs| == 0 ==> r == []
  {
    if |xs| == 0 then []
    else if |xs| == 1 then xs[0]
    else xs[0] + sep + Join(xs[1..], sep)
  }

  /** Appending one element to a non-empty list appends a separator and that element. */
  lemma {:induction false} JoinSnoc(xs: seq<string>, x: string, sep: string)
    requires |xs| > 0
    ensures Join(xs + [x], sep) == Join(xs, sep) + sep + x
    decreases |xs|
  {
    if |xs| == 1 {
      assert (xs + [x])[1..] == [x];
    } else {
      assert (xs + [x])[1..] == xs[1..] + [x];
      JoinSnoc(xs[1..], x, sep);
    }
  }

  /** Joining a list of two or more elements puts the separator after its head. */
  lemma JoinCons(x: string, rest: seq<string>, sep: string)
    requires |rest| >= 1
    ensures Join([x] + rest, sep) == x + sep + Join(rest, sep)
  {
    assert ([x] + rest)[1..] == rest;
  }

  /** `s[from..]` is cut at an occurrence of `sep` at `j` into the part before, `sep` and the rest. */
  lemma CutAt(s: string, sep: string, from: nat, j: nat)
    requires from <= j && OccursAt(s, sep, j)
    ensures s[from..] == s[from..j] + sep + s[j + |sep|..]
  {
  }

  /** Joining the pieces of `s[from..]` gives back exactly that suffix. */
  lemma {:induction false} JoinSplitFrom(s: string, sep: string, from: nat)
    requires sep != [] && from <= |s|
    ensures Join(SplitFrom(s, sep, from), sep) == s[from..]
    decreases |s| - from
  {
    match IndexFrom(s, sep, from)
    case None =>
      SplitFromNone(s, sep, from);
    case Some(j) =>
      var rest := SplitFrom(s, sep, j + |sep|);
      calc {
        Join(SplitFrom(s, sep, from), sep);
        { SplitFromAt(s, sep, from, j); }
        Join([s[from..j]] + rest, sep);
        { JoinCons(s[from..j], rest, sep); }
        s[from..j] + sep + Join(rest, sep);
        { JoinSplitFrom(s, sep, j + |sep|); }
        s[from..j] + sep + s[j + |sep|..];
        { CutAt(s, sep, from, j); }
        s[from..];
      }
  }

  /** Joining the pieces of a split gives back the original string, whatever it contains. */
  lemma JoinSplit(s: string, sep: string)
    requires sep != []
    ensures Join(Split(s, sep), sep) == s
  {
    JoinSplitFrom(s, sep, 0);
    assert s[0..] == s;
  }

  /**
    Two occurrences of `sep` at `k` and at `e`, with the second starting
    inside the first, overlap in a border of `sep`: the last
    `k + |sep| - e` characters of the first are the first ones of the second.
   */
  lemma StraddleIsBorder(s: string, sep: string, k: nat, e: nat)
    requires OccursAt(s, sep, k) && OccursAt(s, sep, e) && k < e < k + |sep|
    ensures IsBorder(sep, k + |sep| - e)
  {
    var b := k + |sep| - e;
    forall q | 0 <= q < b
      ensures sep[..b][q] == sep[|sep| - b..][q]
    {
      assert sep[q] == s[e..e + |sep|][q] == s[e + q];
      assert sep[|sep| - b + q] == s[k..k + |sep|][|sep| - b + q] == s[e + q];
    }
  }

  /**
    When `sep` is borderless and the piece `x` at `from` does not contain
    it, an occurrence of `sep` right after `x` is the leftmost one at or
    after `from`.
   */
  lemma FirstOccurrenceAfter(s: string, sep: string, from: nat, x: string)
    requires sep != [] && Borderless(sep) && Free(x, sep)
    requires from + |x| + |sep| <= |s|
    requires s[from..from + |x|] == x && s[from + |x|..from + |x| + |sep|] == sep
    ensures IndexFrom(s, sep, from) == Some(from + |x|)
  {
    var e := from + |x|;
    forall k | from <= k < e
      ensures !OccursAt(s, sep, k)
    {
      if OccursAt(s, sep, k) {
        if k + |sep| <= e {
          OccursInPiece(s, sep, from, e, k - from);
        } else {
          StraddleIsBorder(s, sep, k, e);
          NoBorderAt(sep, 1, k + |sep| - e);
        }
      }
    }
    IndexFromLeftmost(s, sep, from, e);
  }

  /** Where the parts of a suffix `x + sep + t` of `s` lie in `s`. */
  lemma SuffixParts(s: string, from: nat, x: string, sep: string, t: string)
    requires from <= |s| && s[from..] == x + sep + t
    ensures from + |x| + |sep| <= |s|
    ensures s[from..from + |x|] == x && s[from + |x|..from + |x| + |sep|] == sep
    ensures s[from + |x| + |sep|..] == t
  {
    var u := s[from..];
    assert forall k :: 0 <= k < |u| ==> u[k] == s[from + k];
  }

  /** Unfolds `SplitFrom` at the leftmost occurrence `j` at or after `from`. */
  lemma SplitFromAt(s: string, sep: string, from: nat, j: nat)
    requires sep != [] && from <= |s| && IndexFrom(s, sep, from) == Some(j)
    ensures SplitFrom(s, sep, from) == [s[from..j]] + SplitFrom(s, sep, j + |sep|)
  {
  }

  /** Without a further occurrence, the rest of `s` is the last piece. */
  lemma SplitFromNone(s: string, sep: string, from: nat)
    requires sep != [] && from <= |s| && IndexFrom(s, sep, from).None?
    ensures SplitFrom(s, sep, from) == [s[from..]]
  {
  }

  /** A string free of the separator splits into itself alone. */
  lemma SplitWhole(s: string, sep: string)
    requires sep != [] && Free(s, sep)
    ensures Split(s, sep) == [s]
  {
    assert IndexFrom(s, sep, 0).None?;
    assert s[0..] == s;
  }

  /** A last piece free of the separator is split off whole. */
  lemma SplitFromLast(s: string, sep: string, from: nat)
    requires sep != [] && from <= |s| && Free(s[from..], sep)
    ensures SplitFrom(s, sep, from) == [s[from..]]
  {
    assert s[from..|s|] == s[from..];
    forall k | from <= k
      ensures !OccursAt(s, sep, k)
    {
      OccursInPiece(s, sep, from, |s|, k - from);
    }
    assert IndexFrom(s, sep, from).None?;
  }

  /** A piece `x` followed by the leftmost occurrence of the separator is split off whole. */
  lemma SplitFromPiece(s: string, sep: string, from: nat, x: string)
    requires sep != [] && Borderless(sep) && Free(x, sep)
    requires from + |x| + |sep| <= |s|
    requires s[from..from + |x|] == x && s[from + |x|..from + |x| + |sep|] == sep
    ensures SplitFrom(s, sep, from) == [x] + SplitFrom(s, sep, from + |x| + |sep|)
  {
    var j := from + |x|;
    assert IndexFrom(s, sep, from) == Some(j) by {
      FirstOccurrenceAfter(s, sep, from, x);
    }
    SplitFromAt(s, sep, from, j);
  }

  /**
    A suffix `x + sep + t` of `s`, with `x` free of a borderless separator,
    splits into `x` followed by the pieces of `t`.
   */
  lemma SplitFromCons(s: string, sep: string, from: nat, x: string, t: string)
    requires sep != [] && Borderless(sep) && Free(x, sep)
    requires from <= |s| && s[from..] == x + sep + t
    ensures from + |x| + |sep| <= |s| && s[from + |x| + |sep|..] == t
    ensures SplitFrom(s, sep, from) == [x] + SplitFrom(s, sep, from + |x| + |sep|)
  {
    SuffixParts(s, from, x, sep, t);
    SplitFromPiece(s, sep, from, x);
  }

  /** The head and the tail of a list free of the separator are free of it. */
  lemma FreeHeadTail(x: string, rest: seq<string>, sep: string)
    requires forall y <- [x] + rest :: Free(y, sep)
    ensures Free(x, sep) && forall y <- rest :: Free(y, sep)
  {
    assert x in [x] + rest;
    forall y | y in rest ensures Free(y, sep) { assert y in [x] + rest; }
  }

  /**
    A suffix of `s` that is the join of a non-empty list of elements free
    of a borderless separator splits back into that list.
   */
  lemma {:induction false} SplitFromJoin(s: string, sep: string, from: nat, xs: seq<string>)
    requires sep != [] && Borderless(sep)
    requires |xs| >= 1 && forall x <- xs :: Free(x, sep)
    requires from <= |s| && s[from..] == Join(xs, sep)
    ensures SplitFrom(s, sep, from) == xs
    decreases |xs|
  {
    if |xs| == 1 {
      SplitFromLast(s, sep, from);
    } else {
      var x, rest := xs[0], xs[1..];
      assert xs == [x] + rest;
      FreeHeadTail(x, rest, sep);
      SplitFromCons(s, sep, from, x, Join(rest, sep));
      SplitFromJoin(s, sep, from + |x| + |sep|, rest);
    }
  }

  /**
    Splitting a joined list gives the list back exactly when the list is
    non-empty and no element contains the separator (for a borderless
    separator such as ", " or ",").
   */
  lemma SplitJoin(xs: seq<string>, sep: string)
    requires sep != [] && Borderless(sep)
    ensures Split(Join(xs, sep), sep) == xs <==> |xs| >= 1 && forall x <- xs :: Free(x, sep)
  {
    if |xs| >= 1 && forall x <- xs :: Free(x, sep) {
      var s := Join(xs, sep);
      assert s[0..] == s;
      SplitFromJoin(s, sep, 0, xs);
    }
  }

  /** ", " has no border, so author lists split back into their names. */
  lemma CommaSpaceIsBorderless()
    ensures Borderless(", ")
  {
    assert !IsBorder(", ", 1) by {
      assert ", "[..1] == [','];
    }
  }

  /** A single-character separator has no proper border at all. */
  lemma SingleCharIsBorderless(c: char)
    ensures Borderless([c])
  {
  }

  /**
    The border hypothesis of `SplitJoin` is needed: with the separator "aa",
    the list ["a", ""] has no element containing it, yet it does not survive
    a join followed by a split.
   */
  lemma OverlappingSeparatorBreaksSplitJoin()
    ensures Free("a", "aa") && Free("", "aa")
    ensures Join(["a", ""], "aa") == "aaa"
    ensures Split(Join(["a", ""], "aa"), "aa") == ["", "a"]
  {
    assert !OccursAt("a", "aa", 0);
    assert OccursAt("aaa", "aa", 0);
    assert IndexFrom("aaa", "aa", 0) == Some(0);
    assert !OccursAt("aaa", "aa", 2);
    assert IndexFrom("aaa", "aa", 2).None?;
    assert "aaa"[0..0] == "";
    assert "aaa"[2..] == "a";
  }
}
