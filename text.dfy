/** The few `str` operations the core relies on: Python's ordering of
    strings and `sorted`, `str.split(sep)[1]`, `str.replace(' ', '')`, and
    prefix and suffix tests. */
module Text {
  import opened Outcomes

  // ---------------------------------------------------------------------
  // Ordering and sorting

  /** Python's `a < b` on `str`: the first differing code point decides,
      and a proper prefix comes first. */
  predicate StrLess(a: string, b: string)
    decreases |a|
  {
    if a == [] then b != []
    else if b == [] then false
    else if a[0] != b[0] then a[0] < b[0]
    else StrLess(a[1..], b[1..])
  }

  lemma {:induction false} StrLessIrreflexive(a: string)
    ensures !StrLess(a, a)
    decreases |a|
  {
    if a != [] {
      StrLessIrreflexive(a[1..]);
    }
  }

  lemma {:induction false} StrLessTransitive(a: string, b: string, c: string)
    requires StrLess(a, b) && StrLess(b, c)
    ensures StrLess(a, c)
    decreases |a|
  {
    if a != [] && b != [] && c != [] && a[0] == b[0] && b[0] == c[0] {
      StrLessTransitive(a[1..], b[1..], c[1..]);
    }
  }

  /** Any two strings are equal or ordered one way or the other. */
  lemma {:induction false} StrLessTotal(a: string, b: string)
    ensures a == b || StrLess(a, b) || StrLess(b, a)
    decreases |a|
  {
    if a != [] && b != [] && a[0] == b[0] {
      StrLessTotal(a[1..], b[1..]);
      if a[1..] == b[1..] {
        assert a == [a[0]] + a[1..] && b == [b[0]] + b[1..];
      }
    }
  }

  lemma {:induction false} StrLessAsymmetric(a: string, b: string)
    requires StrLess(a, b)
    ensures !StrLess(b, a)
    decreases |a|
  {
    if a != [] && b != [] && a[0] == b[0] {
      StrLessAsymmetric(a[1..], b[1..]);
    }
  }

  /** A common prefix does not change the order. */
  lemma {:induction false} StrLessCommonPrefix(p: string, a: string, b: string)
    ensures StrLess(p + a, p + b) <==> StrLess(a, b)
    decreases |p|
  {
    if p != [] {
      assert (p + a)[0] == (p + b)[0] == p[0];
      assert (p + a)[1..] == p[1..] + a && (p + b)[1..] == p[1..] + b;
      assert p + a != [] && p + b != [];
      assert StrLess(p + a, p + b) == StrLess(p[1..] + a, p[1..] + b);
      StrLessCommonPrefix(p[1..], a, b);
    } else {
      assert p + a == a && p + b == b;
    }
  }

  /** Strings that start with pieces of the same length are ordered by the
      first pieces when those differ, and by the rest otherwise. */
  lemma {:induction false} StrLessConcat(x1: string, r1: string, x2: string, r2: string)
    requires |x1| == |x2|
    ensures StrLess(x1 + r1, x2 + r2) <==> if x1 != x2 then StrLess(x1, x2) else StrLess(r1, r2)
    decreases |x1|
  {
    if x1 == x2 {
      StrLessCommonPrefix(x1, r1, r2);
    } else if x1[0] == x2[0] {
      assert (x1 + r1)[1..] == x1[1..] + r1 && (x2 + r2)[1..] == x2[1..] + r2;
      assert x1 == [x1[0]] + x1[1..] && x2 == [x2[0]] + x2[1..];
      StrLessConcat(x1[1..], r1, x2[1..], r2);
    }
  }

  /** Ascending order as Python's `sorted` leaves it. */
  predicate Ascending(s: seq<string>) {
    forall i, j :: 0 <= i < j < |s| ==> !StrLess(s[j], s[i])
  }

  function Insert(x: string, s: seq<string>): (r: seq<string>)
    ensures multiset(r) == multiset(s) + multiset{x}
    ensures Ascending(s) ==> Ascending(r)
  {
    if s == [] || !StrLess(s[0], x) then
      PrependAscending(x, s);
      [x] + s
    else
      var t := Insert(x, s[1..]);
      assert s == [s[0]] + s[1..];
      ConsAscending(s, x, t);
      [s[0]] + t
  }

  /** `x` may go in front of a list whose head is not below it. */
  lemma PrependAscending(x: string, s: seq<string>)
    requires s == [] || !StrLess(s[0], x)
    ensures Ascending(s) ==> Ascending([x] + s)
  {
    if Ascending(s) && s != [] {
      forall j | 0 < j < |s| + 1 ensures !StrLess(([x] + s)[j], x) {
        if StrLess(s[j - 1], x) {
          StrLessTotal(s[0], s[j - 1]);
          if j - 1 > 0 {
            assert !StrLess(s[j - 1], s[0]);
          }
          StrLessTransitive(s[0], s[j - 1], x);
        }
      }
    }
  }

  /** The head of an ascending list stays in front when `x`, which is above
      it, goes into the rest. */
  lemma ConsAscending(s: seq<string>, x: string, t: seq<string>)
    requires s != [] && StrLess(s[0], x)
    requires multiset(t) == multiset(s[1..]) + multiset{x}
    requires Ascending(s[1..]) ==> Ascending(t)
    ensures Ascending(s) ==> Ascending([s[0]] + t)
  {
    if Ascending(s) {
      assert Ascending(s[1..]);
      var r := [s[0]] + t;
      forall j | 0 < j < |r| ensures !StrLess(r[j], s[0]) {
        assert r[j] == t[j - 1];
        assert r[j] in multiset(t);
        if r[j] == x {
          StrLessAsymmetric(s[0], x);
        } else {
          assert r[j] in s[1..];
        }
      }
    }
  }

  /** Python's `sorted` on a list of strings. */
  function SortNames(s: seq<string>): (r: seq<string>)
    ensures multiset(r) == multiset(s)
    ensures Ascending(r)
  {
    if s == [] then []
    else
      assert s == [s[0]] + s[1..];
      Insert(s[0], SortNames(s[1..]))
  }

  // ---------------------------------------------------------------------
  // Searching and splitting

  predicate OccursAt(s: string, pat: string, k: nat) {
    k + |pat| <= |s| && s[k..k + |pat|] == pat
  }

  /** The first position at or after `from` where `pat` occurs in `s`. */
  function IndexOf(s: string, pat: string, from: nat): (r: Option<nat>)
    requires |pat| > 0
    ensures r.Some? ==> from <= r.value && OccursAt(s, pat, r.value)
    ensures r.Some? ==> forall k :: from <= k < r.value ==> !OccursAt(s, pat, k)
    ensures r.None? ==> forall k :: from <= k ==> !OccursAt(s, pat, k)
    decreases |s| - from
  {
    if from + |pat| > |s| then None
    else if s[from..from + |pat|] == pat then Some(from)
    else IndexOf(s, pat, from + 1)
  }

  /** Python's `s.split(sep)[1]`: the text between the first and the second
      occurrence of `sep` (or the end of `s`); `None` where the list has no
      second element and indexing raises `IndexError`. */
  function SecondPiece(s: string, sep: string): (r: Option<string>)
    requires |sep| > 0
    ensures r.None? <==> forall k: nat :: !OccursAt(s, sep, k)
  {
    match IndexOf(s, sep, 0)
    case None => None
    case Some(i) =>
      match IndexOf(s, sep, i + |sep|)
      case None => Some(s[i + |sep|..])
      case Some(j) => Some(s[i + |sep|..j])
  }

  /** The second piece holds no `sep` and sits in `s` right after the first
      `sep`, running up to the next `sep` or the end of `s`. */
  lemma SecondPieceIsBetween(s: string, sep: string)
    requires |sep| > 0 && SecondPiece(s, sep).Some?
    ensures var r := SecondPiece(s, sep).value;
      && (forall k: nat :: !OccursAt(r, sep, k))
      && var a := IndexOf(s, sep, 0).value + |sep|;
      && OccursAt(s, r, a)
      && (a + |r| == |s| || OccursAt(s, sep, a + |r|))
  {
    var a := IndexOf(s, sep, 0).value + |sep|;
    var b := PieceFrom(s, sep, a);
    assert SecondPiece(s, sep) == Some(s[a..b]) by {
      assert s[a..|s|] == s[a..];
    }
  }

  /** From `a`, the text up to the next `sep` (or the end) ends at `b`. */
  lemma PieceFrom(s: string, sep: string, a: nat) returns (b: nat)
    requires |sep| > 0 && a <= |s|
    ensures a <= b <= |s|
    ensures b == if IndexOf(s, sep, a).Some? then IndexOf(s, sep, a).value else |s|
    ensures forall k: nat :: !OccursAt(s[a..b], sep, k)
    ensures OccursAt(s, s[a..b], a)
    ensures b == |s| || OccursAt(s, sep, b)
  {
    b := if IndexOf(s, sep, a).Some? then IndexOf(s, sep, a).value else |s|;
    NoneInside(s, sep, a, b);
  }

  /** A piece of `s` in which `pat` starts nowhere before the piece ends,
      counting only occurrences that fit in the piece, holds no `pat`. */
  lemma NoneInside(s: string, pat: string, a: nat, b: nat)
    requires a <= b <= |s|
    requires forall k: nat :: a <= k && k + |pat| <= b ==> !OccursAt(s, pat, k)
    ensures forall k: nat :: !OccursAt(s[a..b], pat, k)
  {
    forall k: nat ensures !OccursAt(s[a..b], pat, k) {
      var piece := s[a..b];
      if k + |pat| <= |piece| {
        var x, y := piece[k..k + |pat|], s[a + k..a + k + |pat|];
        assert forall m :: 0 <= m < |pat| ==> x[m] == y[m];
        assert x == y;
        assert !OccursAt(s, pat, a + k);
      }
    }
  }

  /** The split of `sep + t` where `t` holds no occurrence of `sep` is `t`. */
  lemma SecondPieceAfterSeparator(sep: string, t: string)
    requires |sep| > 0
    requires forall k: nat :: !OccursAt(t, sep, k)
    ensures SecondPiece(sep + t, sep) == Some(t)
  {
    var s := sep + t;
    assert s[0..|sep|] == sep;
    assert IndexOf(s, sep, 0) == Some(0);
    forall k: nat | |sep| <= k ensures !OccursAt(s, sep, k) {
      if k + |sep| <= |s| {
        assert s[k..k + |sep|] == t[k - |sep|..k - |sep| + |sep|];
        assert !OccursAt(t, sep, k - |sep|);
      }
    }
    assert IndexOf(s, sep, |sep|) == None;
    assert s[|sep|..] == t;
  }

  /** Python's `s.replace(' ', '')`. */
  function RemoveSpaces(s: string): (r: string)
    ensures ' ' !in r
    ensures forall c :: c in r <==> c in s && c != ' '
    ensures forall c :: c != ' ' ==> multiset(r)[c] == multiset(s)[c]
    ensures ' ' !in s ==> r == s
  {
    if s == [] then []
    else
      assert s == [s[0]] + s[1..];
      if s[0] == ' ' then RemoveSpaces(s[1..])
      else [s[0]] + RemoveSpaces(s[1..])
  }

  /** Removing spaces works piece by piece, so the characters that remain
      keep their order. */
  lemma {:induction false} RemoveSpacesConcat(a: string, b: string)
    ensures RemoveSpaces(a + b) == RemoveSpaces(a) + RemoveSpaces(b)
  {
    if a == [] {
      assert a + b == b;
    } else {
      assert (a + b)[0] == a[0] && (a + b)[1..] == a[1..] + b;
      RemoveSpacesConcat(a[1..], b);
    }
  }

  predicate StartsWith(s: string, p: string) {
    |p| <= |s| && s[..|p|] == p
  }

  predicate EndsWith(s: string, p: string) {
    |p| <= |s| && s[|s| - |p|..] == p
  }

  lemma EndsWithTransitive(a: string, b: string, c: string)
    requires EndsWith(a, b) && EndsWith(b, c)
    ensures EndsWith(a, c)
  {
    assert a[|a| - |c|..] == b[|b| - |c|..];
  }

  /** Equal concatenations whose first parts have the same length agree
      part by part. */
  lemma ConcatCancel(x1: string, y1: string, x2: string, y2: string)
    requires x1 + y1 == x2 + y2 && |x1| == |x2|
    ensures x1 == x2 && y1 == y2
  {
    assert x1 == (x1 + y1)[..|x1|] && x2 == (x2 + y2)[..|x2|];
    assert y1 == (x1 + y1)[|x1|..] && y2 == (x2 + y2)[|x2|..];
  }
}
