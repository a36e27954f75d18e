/**
 * The parts of Go's `strings` package that the command builder, the error
 * formatter and tilde expansion rely on, over strings as sequences of
 * Unicode scalar values.
 */
module Strings {
  import opened Wrappers

  // ---------------------------------------------------------------------
  // Split and Join on a one-character separator
  // ---------------------------------------------------------------------

  /**
   * `strings.Split(s, string(sep))`: the pieces of `s` between occurrences
   * of `sep`. The empty string gives one empty piece, and two adjacent
   * separators give an empty piece between them.
   */
  function Split(s: string, sep: char): (pieces: seq<string>)
    ensures |pieces| >= 1
    decreases |s|
  {
    if s == [] then [""]
    else
      var rest := Split(s[1..], sep);
      if s[0] == sep then [""] + rest
      else [[s[0]] + rest[0]] + rest[1..]
  }

  /** `strings.Join(parts, string(sep))`: the pieces with `sep` between each two. */
  function Join(parts: seq<string>, sep: char): (s: string)
  {
    if |parts| == 0 then ""
    else if |parts| == 1 then parts[0]
    else parts[0] + [sep] + Join(parts[1..], sep)
  }

  /** Joining the pieces back with the separator gives the original string. */
  lemma {:induction false} JoinSplit(s: string, sep: char)
    ensures Join(Split(s, sep), sep) == s
    decreases |s|
  {
    if s != [] {
      var rest := Split(s[1..], sep);
      JoinSplit(s[1..], sep);
      if s[0] == sep {
        assert Split(s, sep) == [""] + rest;
        assert Join([""] + rest, sep) == "" + [sep] + Join(rest, sep) by {
          assert ([""] + rest)[1..] == rest;
        }
      } else if |rest| == 1 {
        assert Split(s, sep) == [[s[0]] + rest[0]];
      } else {
        var head := [[s[0]] + rest[0]];
        assert Split(s, sep) == head + rest[1..];
        assert (head + rest[1..])[1..] == rest[1..];
        assert Join(rest, sep) == rest[0] + [sep] + Join(rest[1..], sep);
      }
    }
  }

  /** No piece of a split contains the separator. */
  lemma {:induction false} SplitPiecesLackSeparator(s: string, sep: char)
    ensures forall i :: 0 <= i < |Split(s, sep)| ==> sep !in Split(s, sep)[i]
    decreases |s|
  {
    if s != [] {
      SplitPiecesLackSeparator(s[1..], sep);
    }
  }

  /** There is exactly one more piece than there are separators in `s`. */
  lemma {:induction false} SplitCount(s: string, sep: char)
    ensures |Split(s, sep)| == multiset(s)[sep] + 1
    decreases |s|
  {
    if s != [] {
      SplitCount(s[1..], sep);
      assert s == [s[0]] + s[1..];
      assert multiset(s) == multiset([s[0]]) + multiset(s[1..]);
    }
  }

  /** A string without the separator splits into itself alone. */
  lemma {:induction false} SplitWithoutSeparator(a: string, sep: char)
    requires sep !in a
    ensures Split(a, sep) == [a]
    decreases |a|
  {
    if a != [] {
      SplitWithoutSeparator(a[1..], sep);
      assert [a[0]] + a[1..] == a;
    }
  }

  /** A separator ends the first piece; what follows it is split on its own. */
  lemma {:induction false} SplitAtSeparator(a: string, sep: char, b: string)
    requires sep !in a
    ensures Split(a + [sep] + b, sep) == [a] + Split(b, sep)
    decreases |a|
  {
    var s := a + [sep] + b;
    if a == [] {
      assert s[1..] == b;
    } else {
      assert s[1..] == a[1..] + [sep] + b;
      SplitAtSeparator(a[1..], sep, b);
      assert [a[0]] + a[1..] == a;
    }
  }

  /** Two adjacent separators produce an empty piece between them. */
  lemma AdjacentSeparatorsGiveEmptyPiece(a: string, sep: char, b: string)
    requires sep !in a
    ensures Split(a + [sep, sep] + b, sep) == [a, ""] + Split(b, sep)
  {
    assert a + [sep, sep] + b == a + [sep] + ([sep] + b);
    SplitAtSeparator(a, sep, [sep] + b);
    SplitAtSeparator([], sep, b);
    assert [] + [sep] + b == [sep] + b;
  }

  /** Split is the inverse of Join on pieces that do not contain the separator. */
  lemma {:induction false} SplitJoin(parts: seq<string>, sep: char)
    requires |parts| >= 1
    requires forall i :: 0 <= i < |parts| ==> sep !in parts[i]
    ensures Split(Join(parts, sep), sep) == parts
    decreases |parts|
  {
    if |parts| == 1 {
      SplitWithoutSeparator(parts[0], sep);
    } else {
      SplitJoin(parts[1..], sep);
      SplitAtSeparator(parts[0], sep, Join(parts[1..], sep));
      assert [parts[0]] + parts[1..] == parts;
    }
  }

  // ---------------------------------------------------------------------
  // TrimSpace
  // ---------------------------------------------------------------------

  /**
   * Go's `unicode.IsSpace`: the ASCII and Latin-1 spaces, and the other
   * characters with the Unicode White_Space property.
   */
  predicate IsSpace(c: char)
  {
    c == '\t' || c == '\n' || c == '\U{000B}' || c == '\U{000C}' || c == '\r' || c == ' '
    || c == '\U{0085}' || c == '\U{00A0}' || c == '\U{1680}'
    || ('\U{2000}' <= c <= '\U{200A}')
    || c == '\U{2028}' || c == '\U{2029}' || c == '\U{202F}' || c == '\U{205F}' || c == '\U{3000}'
  }

  predicate AllSpace(s: string)
  {
    forall i :: 0 <= i < |s| ==> IsSpace(s[i])
  }

  /** The suffix of `s` that starts at its first non-space character. */
  function TrimLeft(s: string): (r: string)
    ensures |r| <= |s| && r == s[|s| - |r|..]
    ensures r == [] || !IsSpace(r[0])
    decreases |s|
  {
    if s != [] && IsSpace(s[0]) then TrimLeft(s[1..]) else s
  }

  /** The prefix of `s` that ends at its last non-space character. */
  function TrimRight(s: string): (r: string)
    ensures |r| <= |s| && r == s[..|r|]
    ensures r == [] || !IsSpace(r[|r| - 1])
    decreases |s|
  {
    if s != [] && IsSpace(s[|s| - 1]) then TrimRight(s[..|s| - 1]) else s
  }

  /** `strings.TrimSpace`: `s` without its leading and trailing white space. */
  function TrimSpace(s: string): (r: string)
    ensures |r| <= |s|
    ensures r == [] || (!IsSpace(r[0]) && !IsSpace(r[|r| - 1]))
  {
    TrimRight(TrimLeft(s))
  }

  /** TrimLeft drops only white space. */
  lemma {:induction false} TrimLeftDropsSpace(s: string)
    ensures AllSpace(s[..|s| - |TrimLeft(s)|])
    decreases |s|
  {
    if s != [] && IsSpace(s[0]) {
      TrimLeftDropsSpace(s[1..]);
      var n := |s| - |TrimLeft(s)|;
      assert s[..n] == [s[0]] + s[1..][..n - 1];
    }
  }

  /** TrimRight drops only white space. */
  lemma {:induction false} TrimRightDropsSpace(s: string)
    ensures AllSpace(s[|TrimRight(s)|..])
    decreases |s|
  {
    if s != [] && IsSpace(s[|s| - 1]) {
      var init := s[..|s| - 1];
      TrimRightDropsSpace(init);
      var n := |TrimRight(s)|;
      assert s[n..] == init[n..] + [s[|s| - 1]];
    }
  }

  /** Leading white space in front of a string that starts with a non-space is dropped. */
  lemma {:induction false} TrimLeftSkips(pre: string, x: string)
    requires AllSpace(pre)
    requires x == [] || !IsSpace(x[0])
    ensures TrimLeft(pre + x) == x
    decreases |pre|
  {
    if pre != [] {
      assert (pre + x)[1..] == pre[1..] + x;
      TrimLeftSkips(pre[1..], x);
    } else {
      assert pre + x == x;
    }
  }

  /** Trailing white space after a string that ends with a non-space is dropped. */
  lemma {:induction false} TrimRightSkips(x: string, post: string)
    requires AllSpace(post)
    requires x == [] || !IsSpace(x[|x| - 1])
    ensures TrimRight(x + post) == x
    decreases |post|
  {
    if post != [] {
      var shorter := post[..|post| - 1];
      assert (x + post)[..|x + post| - 1] == x + shorter;
      TrimRightSkips(x, shorter);
    } else {
      assert x + post == x;
    }
  }

  /**
   * TrimSpace is determined by its contract: whenever `s` is white space,
   * then a string `t` with non-space ends (or empty), then white space,
   * TrimSpace gives exactly `t`.
   */
  lemma TrimSpaceUnique(pre: string, t: string, post: string)
    requires AllSpace(pre) && AllSpace(post)
    requires t == [] || (!IsSpace(t[0]) && !IsSpace(t[|t| - 1]))
    ensures TrimSpace(pre + t + post) == t
  {
    if t == [] {
      var s := pre + t + post;
      assert AllSpace(s) by {
        forall i | 0 <= i < |s| ensures IsSpace(s[i]) {
          if i < |pre| { assert s[i] == pre[i]; } else { assert s[i] == post[i - |pre|]; }
        }
      }
      TrimLeftSkips(s, []);
      assert s + [] == s;
      TrimRightSkips([], []);
    } else {
      assert pre + t + post == pre + (t + post);
      TrimLeftSkips(pre, t + post);
      TrimRightSkips(t, post);
    }
  }

  /** Every string is white space, then its trimmed form, then white space. */
  lemma TrimSpaceDecomposes(s: string)
    ensures exists pre, post :: AllSpace(pre) && AllSpace(post) && s == pre + TrimSpace(s) + post
  {
    var l := TrimLeft(s);
    var t := TrimSpace(s);
    var pre, post := s[..|s| - |l|], l[|t|..];
    TrimLeftDropsSpace(s);
    TrimRightDropsSpace(l);
    Concat3(s, pre, l, t, post);
    assert AllSpace(pre) && AllSpace(post) && s == pre + TrimSpace(s) + post;
  }

  /** Splicing a prefix split of `s` with a prefix split of its remainder. */
  lemma Concat3(s: string, pre: string, l: string, t: string, post: string)
    requires |pre| <= |s| && pre == s[..|pre|] && l == s[|pre|..]
    requires |t| <= |l| && t == l[..|t|] && post == l[|t|..]
    ensures s == pre + t + post
  {
    assert l == t + post;
    assert s == pre + l;
  }

  /** The trimmed string is empty exactly when `s` is all white space. */
  lemma TrimSpaceEmptyIffAllSpace(s: string)
    ensures TrimSpace(s) == [] <==> AllSpace(s)
  {
    if AllSpace(s) {
      TrimSpaceUnique(s, [], []);
      assert s + [] + [] == s;
    }
    if TrimSpace(s) == [] {
      var l := TrimLeft(s);
      TrimLeftDropsSpace(s);
      TrimRightDropsSpace(l);
      assert l[0..] == l;
      assert l == [];
      assert s[..|s|] == s;
    }
  }

  /** Trimming twice is trimming once. */
  lemma TrimSpaceIdempotent(s: string)
    ensures TrimSpace(TrimSpace(s)) == TrimSpace(s)
  {
  }

  // ---------------------------------------------------------------------
  // Index and Replace with n = 1
  // ---------------------------------------------------------------------

  /** The first position of `c` in `s`, as the search inside `strings.Replace`; None for Go's -1. */
  function IndexOf(s: string, c: char): (r: Option<nat>)
    ensures r.None? <==> c !in s
    ensures r.Some? ==> r.value < |s| && s[r.value] == c && c !in s[..r.value]
    decreases |s|
  {
    if s == [] then None
    else if s[0] == c then Some(0)
    else
      match IndexOf(s[1..], c)
      case None => None
      case Some(i) =>
        assert s[..i + 1] == [s[0]] + s[1..][..i];
        Some(i + 1)
  }

  /** `strings.Replace(s, string(target), replacement, 1)`: the first `target` is replaced. */
  function ReplaceFirst(s: string, target: char, replacement: string): (r: string)
    ensures target !in s ==> r == s
    ensures target in s ==> exists i ::
              && 0 <= i < |s|
              && s[i] == target
              && target !in s[..i]
              && r == s[..i] + replacement + s[i + 1..]
  {
    match IndexOf(s, target)
    case None => s
    case Some(i) => s[..i] + replacement + s[i + 1..]
  }
}
