/**
 * The list of selected hours and the operations the component applies to it:
 * removing an hour (`Array.prototype.filter`), toggling an hour, and sorting by
 * numeric value (`sort((a, b) => a - b)`).
 */
module Selection {

  predicate NoDup(s: seq<int>) {
    forall i, j :: 0 <= i < j < |s| ==> s[i] != s[j]
  }

  lemma {:induction false} NoDupCons(a: int, s: seq<int>)
    ensures NoDup([a] + s) <==> a !in s && NoDup(s)
  {
    var t := [a] + s;
    if a !in s && NoDup(s) {
      forall i, j | 0 <= i < j < |t| ensures t[i] != t[j] {
        if i > 0 {
          assert t[i] == s[i - 1] && t[j] == s[j - 1];
        } else {
          assert t[j] == s[j - 1];
        }
      }
    }
    if NoDup(t) {
      forall i, j | 0 <= i < j < |s| ensures s[i] != s[j] {
        assert t[i + 1] == s[i] && t[j + 1] == s[j];
      }
    }
    if a in s {
      var k :| 0 <= k < |s| && s[k] == a;
      assert t[0] == t[k + 1];
    }
  }

  lemma {:induction false} NoDupSnoc(s: seq<int>, a: int)
    ensures NoDup(s + [a]) <==> a !in s && NoDup(s)
  {
    var t := s + [a];
    assert forall i :: 0 <= i < |s| ==> t[i] == s[i];
    if a in s {
      var k :| 0 <= k < |s| && s[k] == a;
      assert t[k] == t[|s|];
    }
  }

  /** The selection without any occurrence of `x`, the other hours kept in order. */
  function Without(s: seq<int>, x: int): (r: seq<int>)
    ensures forall y :: y in r <==> y in s && y != x
    ensures x !in s ==> r == s
    ensures |r| <= |s|
  {
    if s == [] then [] else (if s[0] == x then [] else [s[0]]) + Without(s[1..], x)
  }

  /** Removing an hour from a selection without repeats leaves no repeats. */
  lemma {:induction false} WithoutNoDup(s: seq<int>, x: int)
    requires NoDup(s)
    ensures NoDup(Without(s, x))
  {
    if s != [] {
      NoDupCons(s[0], s[1..]);
      assert s == [s[0]] + s[1..];
      WithoutNoDup(s[1..], x);
      if s[0] != x {
        NoDupCons(s[0], Without(s[1..], x));
      }
    }
  }

  /** Filtering a concatenation filters each part. */
  lemma {:induction false} WithoutConcat(a: seq<int>, b: seq<int>, x: int)
    ensures Without(a + b, x) == Without(a, x) + Without(b, x)
  {
    if a != [] {
      assert (a + b)[1..] == a[1..] + b;
      WithoutConcat(a[1..], b, x);
    } else {
      assert a + b == b;
    }
  }

  /** In a selection without repeats, the hour at position `i` occurs neither before nor after it. */
  lemma {:induction false} NoDupSplit(s: seq<int>, i: int)
    requires NoDup(s) && 0 <= i < |s|
    ensures s == s[..i] + ([s[i]] + s[i + 1..])
    ensures s[i] !in s[..i] && s[i] !in s[i + 1..]
  {
    forall k | 0 <= k < i ensures s[..i][k] != s[i] {
      assert s[..i][k] == s[k];
    }
    var after := s[i + 1..];
    forall k | 0 <= k < |after| ensures after[k] != s[i] {
      assert after[k] == s[i + 1 + k];
    }
  }

  /** Filtering out an hour that occurs once, between `before` and `after`, leaves the two parts. */
  lemma {:induction false} WithoutSingle(before: seq<int>, x: int, after: seq<int>)
    requires x !in before && x !in after
    ensures Without(before + ([x] + after), x) == before + after
  {
    WithoutConcat(before, [x] + after, x);
    WithoutConcat([x], after, x);
    WithoutOnly(x);
  }

  lemma WithoutOnly(x: int)
    ensures Without([x], x) == []
  {
  }

  /** In a selection without repeats, removing the hour at position `i` removes exactly that
      position: every other hour stays, in the same order. */
  lemma {:induction false} WithoutAt(s: seq<int>, i: int)
    requires NoDup(s) && 0 <= i < |s|
    ensures Without(s, s[i]) == s[..i] + s[i + 1..]
  {
    NoDupSplit(s, i);
    WithoutSingle(s[..i], s[i], s[i + 1..]);
  }

  /** Appending an absent hour and removing it again gives back the selection. */
  lemma {:induction false} WithoutAppended(s: seq<int>, x: int)
    requires x !in s
    ensures Without(s + [x], x) == s
  {
    if s == [] {
      assert [x][1..] == [];
    } else {
      assert (s + [x])[1..] == s[1..] + [x];
      WithoutAppended(s[1..], x);
      assert s == [s[0]] + s[1..];
    }
  }

  /** A click on an unbooked hour: removed when selected, otherwise appended at the end. */
  function Toggle(s: seq<int>, h: int): (r: seq<int>)
    ensures h in r <==> h !in s
    ensures forall y :: y != h ==> (y in r <==> y in s)
  {
    if h in s then Without(s, h) else s + [h]
  }

  /** Toggling keeps a selection free of repeats. */
  lemma {:induction false} ToggleNoDup(s: seq<int>, h: int)
    requires NoDup(s)
    ensures NoDup(Toggle(s, h))
  {
    if h in s {
      WithoutNoDup(s, h);
    } else {
      NoDupSnoc(s, h);
    }
  }

  /** Toggling a selected hour removes just that hour; toggling an absent one appends it. */
  lemma {:induction false} ToggleChangesOnlyH(s: seq<int>, h: int)
    requires NoDup(s)
    ensures h !in s ==> Toggle(s, h) == s + [h]
    ensures forall i :: 0 <= i < |s| && s[i] == h ==> Toggle(s, h) == s[..i] + s[i + 1..]
  {
    forall i | 0 <= i < |s| && s[i] == h ensures Toggle(s, h) == s[..i] + s[i + 1..] {
      WithoutAt(s, i);
    }
  }

  /** Clicking an absent hour twice restores the selection exactly. */
  lemma {:induction false} ToggleTwiceAbsent(s: seq<int>, h: int)
    requires h !in s
    ensures Toggle(Toggle(s, h), h) == s
  {
    WithoutAppended(s, h);
  }

  /** Clicking a selected hour twice moves it to the end of the selection. */
  lemma {:induction false} ToggleTwicePresent(s: seq<int>, i: int)
    requires NoDup(s) && 0 <= i < |s|
    ensures Toggle(Toggle(s, s[i]), s[i]) == s[..i] + s[i + 1..] + [s[i]]
  {
    WithoutAt(s, i);
  }

  predicate SortedAsc(s: seq<int>) {
    forall i, j :: 0 <= i < j < |s| ==> s[i] <= s[j]
  }

  /** Insertion of `x` into an ascending sequence. */
  function Insert(x: int, s: seq<int>): (r: seq<int>)
    requires SortedAsc(s)
    ensures SortedAsc(r)
    ensures multiset(r) == multiset(s) + multiset{x}
    ensures |r| == |s| + 1
  {
    if s == [] || x <= s[0] then
      [x] + s
    else
      var t := Insert(x, s[1..]);
      assert s == [s[0]] + s[1..];
      InsertBelow(s[0], t, x, s[1..]);
      [s[0]] + t
  }

  /** A bound below every element of `rest` and below `x` stays below everything an insertion
      of `x` into `rest` can produce. */
  lemma {:induction false} InsertBelow(lo: int, t: seq<int>, x: int, rest: seq<int>)
    requires lo <= x && forall y :: y in rest ==> lo <= y
    requires multiset(t) == multiset(rest) + multiset{x}
    requires SortedAsc(t)
    ensures SortedAsc([lo] + t)
  {
    forall j | 0 <= j < |t| ensures lo <= t[j] {
      assert t[j] in multiset(t);
      if t[j] != x {
        assert t[j] in multiset(rest);
        assert t[j] in rest;
      }
    }
    var u := [lo] + t;
    forall i, j | 0 <= i < j < |u| ensures u[i] <= u[j] {
      assert u[j] == t[j - 1];
      if i > 0 {
        assert u[i] == t[i - 1];
      }
    }
  }

  /** Inserting an absent hour into a list without repeats leaves no repeats. */
  lemma {:induction false} InsertNoDup(x: int, s: seq<int>)
    requires SortedAsc(s) && NoDup(s) && x !in s
    ensures NoDup(Insert(x, s))
  {
    var r := Insert(x, s);
    if !NoDup(r) {
      var i, j :| 0 <= i < j < |r| && r[i] == r[j];
      assert multiset(r)[r[i]] >= 2 by {
        assert r == r[..j] + [r[j]] + r[j + 1..];
        assert r[i] in r[..j];
      }
      MultisetNoDup(s, r[i]);
      assert false;
    }
  }

  /** In a list without repeats every hour occurs at most once. */
  lemma {:induction false} MultisetNoDup(s: seq<int>, y: int)
    requires NoDup(s)
    ensures multiset(s)[y] <= 1
  {
    if s != [] {
      assert s == [s[0]] + s[1..];
      NoDupCons(s[0], s[1..]);
      MultisetNoDup(s[1..], y);
    }
  }

  /** The selection in ascending numeric order: the comparator `(a, b) => a - b`. */
  function SortAsc(s: seq<int>): (r: seq<int>)
    ensures SortedAsc(r)
    ensures multiset(r) == multiset(s)
    ensures |r| == |s|
  {
    if s == [] then []
    else
      assert s == [s[0]] + s[1..];
      Insert(s[0], SortAsc(s[1..]))
  }

  /** Sorting keeps a selection free of repeats. */
  lemma {:induction false} SortAscNoDup(s: seq<int>)
    requires NoDup(s)
    ensures NoDup(SortAsc(s))
  {
    if s != [] {
      assert s == [s[0]] + s[1..];
      NoDupCons(s[0], s[1..]);
      SortAscNoDup(s[1..]);
      assert s[0] !in multiset(SortAsc(s[1..]));
      InsertNoDup(s[0], SortAsc(s[1..]));
    }
  }

  /** The smallest hour of a non-empty selection. */
  function Least(s: seq<int>): (m: int)
    requires s != []
    ensures m in s && forall y :: y in s ==> m <= y
  {
    if |s| == 1 then s[0]
    else
      var m := Least(s[1..]);
      assert s == [s[0]] + s[1..];
      if s[0] <= m then s[0] else m
  }

  /** The largest hour of a non-empty selection. */
  function Greatest(s: seq<int>): (m: int)
    requires s != []
    ensures m in s && forall y :: y in s ==> y <= m
  {
    if |s| == 1 then s[0]
    else
      var m := Greatest(s[1..]);
      assert s == [s[0]] + s[1..];
      if s[0] >= m then s[0] else m
  }

  /** After sorting, the first hour is the least and the last hour the greatest. */
  lemma {:induction false} SortAscEnds(s: seq<int>)
    requires s != []
    ensures |SortAsc(s)| == |s|
    ensures SortAsc(s)[0] == Least(s)
    ensures SortAsc(s)[|s| - 1] == Greatest(s)
  {
    SortedEnds(SortAsc(s), s);
  }

  lemma {:induction false} SortedEnds(r: seq<int>, s: seq<int>)
    requires s != [] && |r| == |s|
    requires SortedAsc(r) && multiset(r) == multiset(s)
    ensures r[0] == Least(s) && r[|r| - 1] == Greatest(s)
  {
    var lo, hi := Least(s), Greatest(s);
    assert r[0] in multiset(s) && r[|r| - 1] in multiset(s);
    assert r[0] in s && r[|r| - 1] in s;
    assert lo in multiset(r) && hi in multiset(r);
    var a :| 0 <= a < |r| && r[a] == lo;
    var b :| 0 <= b < |r| && r[b] == hi;
    assert r[0] <= r[a] && r[b] <= r[|r| - 1];
  }

  /** Removing an hour that occurs once takes exactly one copy of it out of the multiset. */
  lemma {:induction false} MultisetWithout(s: seq<int>, x: int)
    requires NoDup(s) && x in s
    ensures multiset(Without(s, x)) == multiset(s) - multiset{x}
  {
    var i :| 0 <= i < |s| && s[i] == x;
    NoDupSplit(s, i);
    WithoutAt(s, i);
    MultisetSplit(s[..i], x, s[i + 1..]);
  }

  lemma {:induction false} MultisetSplit(a: seq<int>, x: int, b: seq<int>)
    ensures multiset(a + b) == multiset(a + ([x] + b)) - multiset{x}
  {
  }

  /** The first hour of a non-empty ascending list is its least hour. */
  lemma {:induction false} SortedHeadLeast(a: seq<int>, y: int)
    requires SortedAsc(a) && y in multiset(a)
    ensures a[0] <= y
  {
    var j :| 0 <= j < |a| && a[j] == y;
    assert a[0] <= a[j];
  }

  /** Two non-empty ascending lists holding the same hours start with the same hour, and their
      tails hold the same hours. */
  lemma {:induction false} SortedSameHead(a: seq<int>, b: seq<int>)
    requires a != [] && b != []
    requires SortedAsc(a) && SortedAsc(b) && multiset(a) == multiset(b)
    ensures a[0] == b[0] && multiset(a[1..]) == multiset(b[1..])
  {
    assert a[0] in multiset(a) && b[0] in multiset(b);
    SortedHeadLeast(a, b[0]);
    SortedHeadLeast(b, a[0]);
    MultisetTail(a);
    MultisetTail(b);
  }

  /** Dropping the head of a list drops one copy of it from the multiset. */
  lemma {:induction false} MultisetTail(a: seq<int>)
    requires a != []
    ensures multiset(a[1..]) == multiset(a) - multiset{a[0]}
  {
    assert a == [a[0]] + a[1..];
  }

  lemma {:induction false} SortedTail(a: seq<int>)
    requires SortedAsc(a) && a != []
    ensures SortedAsc(a[1..])
  {
    forall i, j | 0 <= i < j < |a| - 1 ensures a[1..][i] <= a[1..][j] {
      assert a[1..][i] == a[i + 1] && a[1..][j] == a[j + 1];
    }
  }

  lemma {:induction false} SameHeadTail(a: seq<int>, b: seq<int>)
    requires a != [] && b != [] && a[0] == b[0] && a[1..] == b[1..]
    ensures a == b
  {
    assert a == [a[0]] + a[1..] && b == [b[0]] + b[1..];
  }

  /** Two ascending lists holding the same hours are equal: the sort's result is determined
      by the hours alone, not by the order they were clicked in. */
  lemma {:induction false} SortedUnique(a: seq<int>, b: seq<int>)
    requires SortedAsc(a) && SortedAsc(b) && multiset(a) == multiset(b)
    ensures a == b
  {
    if a == [] {
      assert |b| == |multiset(b)| == 0;
    } else {
      assert |b| == |multiset(b)| == |a|;
      SortedSameHead(a, b);
      SortedTail(a);
      SortedTail(b);
      SortedUnique(a[1..], b[1..]);
      SameHeadTail(a, b);
    }
  }

  /** The multiset of a toggled selection without repeats: one copy of the hour taken out
      when it was selected, one put in otherwise. */
  lemma {:induction false} MultisetToggle(s: seq<int>, h: int)
    requires NoDup(s)
    ensures h in s ==> multiset(Toggle(s, h)) == multiset(s) - multiset{h}
    ensures h !in s ==> multiset(Toggle(s, h)) == multiset(s) + multiset{h}
  {
    if h in s {
      MultisetWithout(s, h);
    }
  }

  /** Toggling the same hour twice on multisets: out then in, or in then out, gives back the
      multiset of `s` when the hour's selected status follows the toggles. */
  lemma {:induction false} MultisetToggleTwice(s: seq<int>, r: seq<int>, h: int)
    requires NoDup(s) && NoDup(r)
    requires multiset(r) == multiset(Toggle(s, h))
    ensures multiset(Toggle(r, h)) == multiset(s)
  {
    MultisetToggle(s, h);
    MultisetToggle(r, h);
    if h in s {
      assert h !in Toggle(s, h);
      assert h !in multiset(r);
    } else {
      assert h in Toggle(s, h);
      assert h in multiset(r);
    }
  }

  /**
   * In the running component each click is followed by a render, which sorts the selection.
   * Starting from an ascending selection without repeats, clicking any unbooked hour twice,
   * with the render's sort after each click, gives back the selection exactly.
   */
  lemma {:induction false} RenderedClickTwice(s: seq<int>, h: int)
    requires SortedAsc(s) && NoDup(s)
    ensures SortAsc(Toggle(SortAsc(Toggle(s, h)), h)) == s
  {
    var r1 := SortAsc(Toggle(s, h));
    ToggleNoDup(s, h);
    SortAscNoDup(Toggle(s, h));
    MultisetToggleTwice(s, r1, h);
    SortedUnique(SortAsc(Toggle(r1, h)), s);
  }
}
