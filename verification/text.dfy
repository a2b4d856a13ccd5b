/** The pieces of Rust's `str` API the writers rely on, restricted to a single
    `char` pattern: `split`, `replace`, and the position searches behind them. */
module Text {
  import opened Wrappers

  /** Rust's `str::split(c)` collected into a sequence: the maximal runs of
      characters between occurrences of `c`, in order. The iterator is never
      empty; `""` splits into `[""]`. */
  function Split(s: string, c: char): (r: seq<string>)
    ensures |r| >= 1
    ensures forall i :: 0 <= i < |r| ==> c !in r[i]
    ensures r[0] <= s
    ensures |r[0]| < |s| ==> s[|r[0]|] == c
    decreases |s|
  {
    if |s| == 0 then [""]
    else
      var rest := Split(s[1..], c);
      if s[0] == c then [""] + rest
      else [[s[0]] + rest[0]] + rest[1..]
  }

  /** The pieces glued back together with `sep` between neighbours. */
  function Join(pieces: seq<string>, sep: string): string
  {
    if |pieces| == 0 then ""
    else if |pieces| == 1 then pieces[0]
    else pieces[0] + sep + Join(pieces[1..], sep)
  }

  /** Rust's `Iterator::nth`: skip `n` elements, then take the next one, if
      the iterator has not run out by then. */
  function Nth<T>(xs: seq<T>, n: nat): (r: Option<T>)
    ensures r.Some? <==> n < |xs|
    ensures r.Some? ==> r.value == xs[n]
  {
    if |xs| == 0 then None
    else if n == 0 then Some(xs[0])
    else Nth(xs[1..], n - 1)
  }

  /** Rust's `str::replace(c, rep)` for a one-character pattern: every
      occurrence of `c` is replaced by `rep`, scanning left to right. The
      standard library builds the result from the text between matches with
      `rep` pushed at each match, which is the join of the split pieces. */
  function Replace(s: string, c: char, rep: string): (r: string)
    ensures c !in rep ==> c !in r
    ensures rep == [c] ==> r == s
  {
    JoinAvoids(Split(s, c), rep, c);
    JoinSplit(s, c);
    Join(Split(s, c), rep)
  }

  /** Reference definition: `s` with every occurrence of `c` dropped and every
      other character kept in order. */
  function Without(s: string, c: char): string
  {
    if |s| == 0 then ""
    else (if s[0] == c then "" else [s[0]]) + Without(s[1..], c)
  }

  /** Position of the first occurrence of `c` in `s`, if any. */
  function FirstIndexOf(s: string, c: char): (r: Option<nat>)
    ensures r.None? <==> c !in s
    ensures r.Some? ==> r.value < |s| && s[r.value] == c && c !in s[..r.value]
  {
    if |s| == 0 then None
    else if s[0] == c then Some(0)
    else
      assert s == [s[0]] + s[1..];
      match FirstIndexOf(s[1..], c)
      case None => None
      case Some(i) =>
        assert s[..i + 1] == [s[0]] + s[1..][..i];
        Some(i + 1)
  }

  /** Position of the last occurrence of `c` in `s`, if any (Rust's `rsplitn(2, c)`
      splits there). */
  function LastIndexOf(s: string, c: char): (r: Option<nat>)
    ensures r.None? <==> c !in s
    ensures r.Some? ==> r.value < |s| && s[r.value] == c && c !in s[r.value + 1..]
  {
    if |s| == 0 then None
    else if s[|s| - 1] == c then Some(|s| - 1)
    else
      var init := s[..|s| - 1];
      assert s == init + [s[|s| - 1]];
      match LastIndexOf(init, c)
      case None => None
      case Some(i) =>
        assert s[i + 1..] == init[i + 1..] + [s[|s| - 1]];
        Some(i)
  }

  /** An occurrence with none before it is the one `FirstIndexOf` finds. */
  lemma FirstIndexOfUnique(s: string, c: char, k: nat)
    requires k < |s| && s[k] == c && c !in s[..k]
    ensures FirstIndexOf(s, c) == Some(k)
  {
    assert s[k] in s;
  }

  /** An occurrence with none after it is the one `LastIndexOf` finds. */
  lemma LastIndexOfUnique(s: string, c: char, k: nat)
    requires k < |s| && s[k] == c && c !in s[k + 1..]
    ensures LastIndexOf(s, c) == Some(k)
  {
    assert s[k] in s;
  }

  /** A string is the concatenation of its three slices around two cut points. */
  lemma ThreeSlices(s: string, a: nat, b: nat)
    requires a <= b <= |s|
    ensures s == s[..a] + s[a..b] + s[b..]
  {
  }

  // ---------------------------------------------------------------------------
  // Split and Join are inverse to each other

  /** Gluing `x` onto the first piece glues it onto the front of the join. */
  lemma JoinConsFirst(x: string, pieces: seq<string>, sep: string)
    requires |pieces| >= 1
    ensures Join([x + pieces[0]] + pieces[1..], sep) == x + Join(pieces, sep)
  {
    var glued := [x + pieces[0]] + pieces[1..];
    assert glued[1..] == pieces[1..];
  }

  /** Joining the pieces of a split with the separator gives back the string. */
  lemma {:induction false} JoinSplit(s: string, c: char)
    ensures Join(Split(s, c), [c]) == s
    decreases |s|
  {
    if |s| > 0 {
      JoinSplit(s[1..], c);
      if s[0] == c {
        JoinSplitStep(s, c);
      } else {
        JoinSplitGlue(s, c);
      }
    }
  }

  /** One step of `JoinSplit` when the string starts with the separator. */
  lemma JoinSplitStep(s: string, c: char)
    requires |s| > 0 && s[0] == c && Join(Split(s[1..], c), [c]) == s[1..]
    ensures Join(Split(s, c), [c]) == s
  {
    var rest := Split(s[1..], c);
    var pieces := [""] + rest;
    assert Split(s, c) == pieces;
    assert pieces[1..] == rest;
    assert Join(pieces, [c]) == "" + [c] + Join(rest, [c]);
    assert s == [c] + s[1..];
  }

  /** One step of `JoinSplit` when the string starts with another character. */
  lemma JoinSplitGlue(s: string, c: char)
    requires |s| > 0 && s[0] != c && Join(Split(s[1..], c), [c]) == s[1..]
    ensures Join(Split(s, c), [c]) == s
  {
    var rest := Split(s[1..], c);
    calc {
      Join(Split(s, c), [c]);
      Join([[s[0]] + rest[0]] + rest[1..], [c]);
      { JoinConsFirst([s[0]], rest, [c]); }
      [s[0]] + Join(rest, [c]);
      [s[0]] + s[1..];
    }
    assert [s[0]] + s[1..] == s;
  }

  /** Gluing pieces that avoid `c` with a separator that avoids `c` gives a
      string that avoids `c`. */
  lemma {:induction false} JoinAvoids(pieces: seq<string>, sep: string, c: char)
    requires forall i :: 0 <= i < |pieces| ==> c !in pieces[i]
    ensures c !in sep ==> c !in Join(pieces, sep)
    decreases |pieces|
  {
    if |pieces| > 1 {
      JoinAvoids(pieces[1..], sep, c);
    }
  }

  /** There is one more piece than there are separators. */
  lemma {:induction false} SplitCount(s: string, c: char)
    ensures |Split(s, c)| == multiset(s)[c] + 1
    decreases |s|
  {
    if |s| > 0 {
      SplitCount(s[1..], c);
      assert s == [s[0]] + s[1..];
    }
  }

  /** A string free of the separator splits into itself alone. */
  lemma {:induction false} SplitWithoutSeparator(s: string, c: char)
    requires c !in s
    ensures Split(s, c) == [s]
    decreases |s|
  {
    if |s| > 0 {
      assert s[0] in s;
      SplitWithoutSeparator(s[1..], c);
      assert s == [s[0]] + s[1..];
    }
  }

  /** Splitting `a ++ [c] ++ b`, where `a` has no `c`, yields `a` followed by the
      pieces of `b`. */
  lemma {:induction false} SplitAfterFirstSeparator(a: string, b: string, c: char)
    requires c !in a
    ensures Split(a + [c] + b, c) == [a] + Split(b, c)
    decreases |a|
  {
    var s := a + [c] + b;
    if |a| == 0 {
      assert s[1..] == b;
    } else {
      assert s[1..] == a[1..] + [c] + b;
      SplitAfterFirstSeparator(a[1..], b, c);
      assert a == [a[0]] + a[1..];
    }
  }

  // ---------------------------------------------------------------------------
  // Replacing by the empty string is filtering

  /** Replacing every `c` by nothing is the same as dropping every `c`. */
  lemma {:induction false} ReplaceEmptyIsWithout(s: string, c: char)
    ensures Replace(s, c, "") == Without(s, c)
    decreases |s|
  {
    if |s| > 0 {
      var rest := Split(s[1..], c);
      ReplaceEmptyIsWithout(s[1..], c);
      if s[0] == c {
        assert ([""] + rest)[1..] == rest;
      } else {
        JoinConsFirst([s[0]], rest, "");
      }
    }
  }

  /** The filter never leaves `c` behind. */
  lemma {:induction false} WithoutRemovesAll(s: string, c: char)
    ensures c !in Without(s, c)
    decreases |s|
  {
    if |s| > 0 {
      WithoutRemovesAll(s[1..], c);
    }
  }

  /** The filter keeps every other character, as many times as it occurs. */
  lemma {:induction false} WithoutKeepsOthers(s: string, c: char, x: char)
    requires x != c
    ensures multiset(Without(s, c))[x] == multiset(s)[x]
    decreases |s|
  {
    if |s| > 0 {
      WithoutKeepsOthers(s[1..], c, x);
      WithoutKeepsOthersStep(s, c, x);
    }
  }

  /** One step of `WithoutKeepsOthers`: the first character counts the same on
      both sides. */
  lemma WithoutKeepsOthersStep(s: string, c: char, x: char)
    requires |s| > 0 && x != c
    requires multiset(Without(s[1..], c))[x] == multiset(s[1..])[x]
    ensures multiset(Without(s, c))[x] == multiset(s)[x]
  {
    var head := if s[0] == c then "" else [s[0]];
    assert multiset(Without(s, c)) == multiset(head) + multiset(Without(s[1..], c));
    assert multiset(s) == multiset([s[0]]) + multiset(s[1..]) by {
      assert s == [s[0]] + s[1..];
    }
    assert multiset(head)[x] == multiset([s[0]])[x];
  }

  /** The filter distributes over concatenation, so the kept characters stay in
      their original order. */
  lemma {:induction false} WithoutAppend(a: string, b: string, c: char)
    ensures Without(a + b, c) == Without(a, c) + Without(b, c)
    decreases |a|
  {
    if |a| > 0 {
      assert (a + b)[1..] == a[1..] + b;
      WithoutAppend(a[1..], b, c);
    } else {
      assert a + b == b;
    }
  }

  /** A string that has no `c` is left unchanged by the filter. */
  lemma {:induction false} WithoutIdentity(s: string, c: char)
    requires c !in s
    ensures Without(s, c) == s
    decreases |s|
  {
    if |s| > 0 {
      WithoutIdentity(s[1..], c);
      assert s == [s[0]] + s[1..];
    }
  }
}
