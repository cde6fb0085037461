/**
  Sequences of distinct siblings: who stands before and after whom, and how removing and inserting
  one changes that.
*/
module SiblingLists {
  import opened Wrappers

  ghost predicate Distinct<N>(s: seq<N>) {
    s == [] || (s[0] !in s[1..] && Distinct(s[1..]))
  }

  ghost function First<N>(s: seq<N>): Option<N> {
    if s == [] then None else Some(s[0])
  }

  ghost function Last<N>(s: seq<N>): Option<N> {
    if s == [] then None else Some(s[|s| - 1])
  }

  ghost function After<N>(s: seq<N>, x: N): Option<N> {
    if s == [] then None else if s[0] == x then First(s[1..]) else After(s[1..], x)
  }

  /** Who stands before `x`, when `left` stands before the whole sequence. */
  ghost function BeforeFrom<N>(left: Option<N>, s: seq<N>, x: N): Option<N>
    decreases s
  {
    if s == [] then None else if s[0] == x then left else BeforeFrom(Some(s[0]), s[1..], x)
  }

  ghost function Before<N>(s: seq<N>, x: N): Option<N> {
    BeforeFrom(None, s, x)
  }

  ghost function Without<N>(s: seq<N>, x: N): seq<N> {
    if s == [] then [] else if s[0] == x then s[1..] else [s[0]] + Without(s[1..], x)
  }

  ghost function WithAfter<N>(s: seq<N>, a: N, x: N): seq<N> {
    if s == [] then [x] else if s[0] == a then [a, x] + s[1..] else [s[0]] + WithAfter(s[1..], a, x)
  }

  // ----- removing -----

  lemma {:induction false} WithoutMembers<N>(s: seq<N>, x: N)
    requires Distinct(s)
    ensures Distinct(Without(s, x))
    ensures forall y :: y in Without(s, x) <==> y in s && y != x
    ensures |Without(s, x)| == if x in s then |s| - 1 else |s|
  {
    if s != [] && s[0] != x {
      WithoutMembers(s[1..], x);
    }
  }

  lemma {:induction false} WithoutStranger<N>(s: seq<N>, x: N)
    requires x !in s
    ensures Without(s, x) == s
  {
    if s != [] {
      WithoutStranger(s[1..], x);
    }
  }

  lemma {:induction false} WithoutFirst<N>(s: seq<N>, x: N)
    requires Distinct(s) && x in s
    ensures First(Without(s, x)) == if First(s) == Some(x) then After(s, x) else First(s)
  {
  }

  lemma {:induction false} WithoutLast<N>(left: Option<N>, s: seq<N>, x: N)
    requires Distinct(s) && x in s
    ensures |s| > 1 ==> Last(Without(s, x)) == if Last(s) == Some(x) then BeforeFrom(left, s, x) else Last(s)
    ensures |s| == 1 ==> Last(s) == Some(x) && Without(s, x) == [] && BeforeFrom(left, s, x) == left
    decreases s
  {
    if s[0] != x {
      var t := Without(s[1..], x);
      WithoutLast(Some(s[0]), s[1..], x);
      assert Without(s, x) == [s[0]] + t;
      assert Last(s) == Last(s[1..]);
      assert Last([s[0]] + t) == if t == [] then Some(s[0]) else Last(t);
    }
  }

  lemma {:induction false} WithoutAfter<N>(s: seq<N>, x: N, y: N)
    requires Distinct(s) && x in s && y in s && x != y
    ensures After(Without(s, x), y) == if After(s, y) == Some(x) then After(s, x) else After(s, y)
  {
    if s[0] == x {
      AfterMember(s[1..], y);
    } else if s[0] == y {
      WithoutFirst(s[1..], x);
    } else {
      WithoutAfter(s[1..], x, y);
    }
  }

  lemma {:induction false} AfterMember<N>(s: seq<N>, y: N)
    ensures After(s, y).Some? ==> After(s, y).value in s
    ensures Distinct(s) ==> After(s, y) != Some(y)
    ensures y !in s ==> After(s, y) == None
    ensures s != [] && Distinct(s) ==> After(s, y) != Some(s[0])
  {
    if s != [] {
      AfterMember(s[1..], y);
    }
  }

  lemma {:induction false} BeforeMember<N>(left: Option<N>, s: seq<N>, y: N)
    ensures BeforeFrom(left, s, y) == left || (BeforeFrom(left, s, y).Some? && BeforeFrom(left, s, y).value in s)
            || BeforeFrom(left, s, y) == None
    ensures y !in s ==> BeforeFrom(left, s, y) == None
    ensures Distinct(s) && left != Some(y) ==> BeforeFrom(left, s, y) != Some(y)
    decreases s
  {
    if s != [] {
      BeforeMember(Some(s[0]), s[1..], y);
    }
  }

  lemma {:induction false} WithoutBefore<N>(left: Option<N>, s: seq<N>, x: N, y: N)
    requires Distinct(s) && x in s && y in s && x != y && left != Some(x)
    ensures BeforeFrom(left, Without(s, x), y) ==
            if BeforeFrom(left, s, y) == Some(x) then BeforeFrom(left, s, x) else BeforeFrom(left, s, y)
    decreases s
  {
    if s[0] == x {
      if s[1] != y {
        NotLeft(left, Some(x), s[1..], y);
        NotFrom(x, s[1..], y);
      }
    } else if s[0] != y {
      WithoutBefore(Some(s[0]), s[1..], x, y);
    }
  }

  /** What stands to the left matters for the first only. */
  lemma NotLeft<N>(left: Option<N>, left': Option<N>, s: seq<N>, y: N)
    requires s != [] && s[0] != y
    ensures BeforeFrom(left, s, y) == BeforeFrom(left', s, y)
  {
  }

  lemma {:induction false} NotFrom<N>(x: N, s: seq<N>, y: N)
    requires s != [] && s[0] != y && x !in s
    ensures BeforeFrom(Some(x), s, y) != Some(x)
  {
    if s[1..] != [] && s[1] != y {
      NotLeft(Some(s[0]), Some(x), s[1..], y);
      NotFrom(x, s[1..], y);
    }
  }

  /** `y` stands after `x` when `x` stands before `y`. */
  lemma {:induction false} AfterIsBefore<N>(left: Option<N>, s: seq<N>, x: N, y: N)
    requires Distinct(s) && x in s && y in s && left != Some(x)
    ensures After(s, x) == Some(y) <==> BeforeFrom(left, s, y) == Some(x)
    decreases s
  {
    if s[0] == x {
      if s[1..] != [] && s[1] != y && y != x {
        NotFrom(x, s[1..], y);
      }
    } else if s[0] == y {
      AfterMember(s[1..], x);
    } else {
      AfterIsBefore(Some(s[0]), s[1..], x, y);
    }
  }

  lemma {:induction false} LastHasNoAfter<N>(s: seq<N>, x: N)
    requires Distinct(s) && x in s
    ensures After(s, x) == None <==> Last(s) == Some(x)
  {
    if s[0] == x {
      if |s| > 1 {
        assert s[|s| - 1] in s[1..];
      }
    } else {
      LastHasNoAfter(s[1..], x);
    }
  }

  lemma {:induction false} FirstHasNoBefore<N>(s: seq<N>, x: N)
    requires Distinct(s) && x in s
    ensures Before(s, x) == None <==> First(s) == Some(x)
  {
    if s[0] != x {
      HasBefore(s[0], s[1..], x);
    }
  }

  lemma {:induction false} HasBefore<N>(left: N, s: seq<N>, x: N)
    requires x in s
    ensures BeforeFrom(Some(left), s, x).Some?
  {
    if s[0] != x {
      HasBefore(s[0], s[1..], x);
    }
  }

  // ----- inserting -----

  lemma {:induction false} AppendedMembers<N>(s: seq<N>, x: N)
    requires Distinct(s) && x !in s
    ensures Distinct(s + [x])
    ensures After(s + [x], x) == None
    ensures forall y :: y in s ==> After(s + [x], y) == if Last(s) == Some(y) then Some(x) else After(s, y)
  {
    if s != [] {
      assert (s + [x])[1..] == s[1..] + [x];
      AppendedMembers(s[1..], x);
      if |s| > 1 {
        assert s[|s| - 1] in s[1..];
      }
    }
  }

  lemma {:induction false} AppendedBefore<N>(left: Option<N>, s: seq<N>, x: N)
    requires x !in s
    ensures BeforeFrom(left, s + [x], x) == if s == [] then left else Last(s)
    ensures forall y :: y in s ==> BeforeFrom(left, s + [x], y) == BeforeFrom(left, s, y)
    decreases s
  {
    if s != [] {
      assert (s + [x])[1..] == s[1..] + [x];
      AppendedBefore(Some(s[0]), s[1..], x);
    }
  }

  lemma PrependedMembers<N>(s: seq<N>, x: N)
    requires Distinct(s) && x !in s
    ensures Distinct([x] + s)
    ensures After([x] + s, x) == First(s) && Before([x] + s, x) == None
    ensures forall y :: y in s ==> After([x] + s, y) == After(s, y)
    ensures forall y :: y in s ==> Before([x] + s, y) == if First(s) == Some(y) then Some(x) else Before(s, y)
  {
    assert ([x] + s)[1..] == s;
    forall y | y in s
      ensures Before([x] + s, y) == if First(s) == Some(y) then Some(x) else Before(s, y)
    {
      assert Before([x] + s, y) == BeforeFrom(Some(x), s, y);
      if s[0] != y {
        NotLeft(None, Some(x), s, y);
      }
    }
  }

  lemma {:induction false} InsertedMembers<N>(s: seq<N>, a: N, x: N)
    requires Distinct(s) && a in s && x !in s
    ensures Distinct(WithAfter(s, a, x))
    ensures forall y :: y in WithAfter(s, a, x) <==> y in s || y == x
    ensures First(WithAfter(s, a, x)) == First(s)
  {
    var t := WithAfter(s, a, x);
    if s[0] == a {
      assert t[1..] == [x] + s[1..] && t[1..][1..] == s[1..];
    } else {
      InsertedMembers(s[1..], a, x);
      assert t[1..] == WithAfter(s[1..], a, x);
    }
  }

  lemma {:induction false} InsertedLast<N>(s: seq<N>, a: N, x: N)
    requires Distinct(s) && a in s
    ensures After(s, a).Some? ==> Last(WithAfter(s, a, x)) == Last(s)
  {
    if s[0] != a {
      var t := WithAfter(s[1..], a, x);
      InsertedLast(s[1..], a, x);
      assert WithAfter(s, a, x) == [s[0]] + t;
    }
  }

  lemma {:induction false} InsertedAfter<N>(s: seq<N>, a: N, x: N, y: N)
    requires Distinct(s) && a in s && x !in s && (y in s || y == x)
    ensures After(WithAfter(s, a, x), y) == if y == a then Some(x) else if y == x then After(s, a) else After(s, y)
  {
    var t := WithAfter(s, a, x);
    if s[0] == a {
      assert t[1..] == [x] + s[1..] && t[1..][1..] == s[1..];
    } else {
      assert t[1..] == WithAfter(s[1..], a, x);
      InsertedMembers(s[1..], a, x);
      if s[0] != y {
        InsertedAfter(s[1..], a, x, y);
      }
    }
  }

  lemma {:induction false} InsertedBefore<N>(left: Option<N>, s: seq<N>, a: N, x: N, y: N)
    requires Distinct(s) && a in s && x !in s && (y in s || y == x) && left != Some(a)
    ensures BeforeFrom(left, WithAfter(s, a, x), y) ==
            if y == x then Some(a) else if After(s, a) == Some(y) then Some(x) else BeforeFrom(left, s, y)
    decreases s
  {
    var t := WithAfter(s, a, x);
    AfterMember(s, a);
    if s[0] == a {
      assert t[1..] == [x] + s[1..] && t[1..][1..] == s[1..];
      if y != a {
        assert BeforeFrom(left, t, y) == BeforeFrom(Some(a), t[1..], y);
        assert y != x ==> BeforeFrom(Some(a), t[1..], y) == BeforeFrom(Some(x), s[1..], y);
        if y != x && s[1] != y {
          NotLeft(Some(a), Some(x), s[1..], y);
        }
      }
    } else {
      assert t[1..] == WithAfter(s[1..], a, x);
      if s[0] != y {
        InsertedBefore(Some(s[0]), s[1..], a, x, y);
      }
    }
  }

  lemma {:induction false} WithAfterLast<N>(s: seq<N>, a: N, x: N)
    requires Distinct(s) && Last(s) == Some(a)
    ensures WithAfter(s, a, x) == s + [x]
  {
    if |s| > 1 {
      assert s[|s| - 1] in s[1..];
      WithAfterLast(s[1..], a, x);
    }
  }
}
