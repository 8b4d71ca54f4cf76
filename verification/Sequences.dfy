/** Sequences without duplicates: removal, replacement and sorted insertion, used to state what the linked structures
    contain. */
module Sequences {

  ghost predicate Unique<T(!new)>(s: seq<T>) {
    forall i, j :: 0 <= i < j < |s| ==> s[i] != s[j]
  }

  /** `s` without its first occurrence of `x`. */
  function Without<T(==)>(s: seq<T>, x: T): seq<T> {
    if s == [] then [] else if s[0] == x then s[1..] else [s[0]] + Without(s[1..], x)
  }

  lemma {:induction false} WithoutSplit<T>(a: seq<T>, x: T, b: seq<T>)
    requires x !in a
    ensures Without(a + [x] + b, x) == a + b
  {
    var s := a + [x] + b;
    if a == [] {
      assert s[0] == x && s[1..] == b;
      assert a + b == b;
    } else {
      assert s[0] == a[0] && s[1..] == a[1..] + [x] + b;
      WithoutSplit(a[1..], x, b);
      assert [a[0]] + (a[1..] + b) == a + b;
    }
  }

  /** The index of an element, by its occurrence. */
  ghost function IndexOf<T>(s: seq<T>, x: T): (i: nat)
    requires x in s
    ensures i < |s| && s[i] == x && x !in s[..i]
  {
    if s[0] == x then 0 else
    assert s == [s[0]] + s[1..];
    assert s[..1 + IndexOf(s[1..], x)] == [s[0]] + s[1..][..IndexOf(s[1..], x)];
    1 + IndexOf(s[1..], x)
  }

  lemma SplitAt<T(!new)>(s: seq<T>, i: nat)
    requires Unique(s) && i < |s|
    ensures s == s[..i] + [s[i]] + s[i + 1..] && s[i] !in s[..i]
  {
  }

  lemma WithoutAt<T(!new)>(s: seq<T>, i: nat)
    requires Unique(s) && i < |s|
    ensures Without(s, s[i]) == s[..i] + s[i + 1..]
  {
    hide Without, Unique;
    SplitAt(s, i);
    WithoutSplit(s[..i], s[i], s[i + 1..]);
  }

  lemma WithoutUnique<T(!new)>(s: seq<T>, x: T)
    requires Unique(s)
    ensures Unique(Without(s, x))
    ensures forall y :: y in Without(s, x) <==> y in s && y != x
    ensures x in s ==> |Without(s, x)| == |s| - 1
    ensures x !in s ==> Without(s, x) == s
  {
    if x in s {
      var i := IndexOf(s, x);
      WithoutAt(s, i);
      var r := s[..i] + s[i + 1..];
      forall y | y in s && y != x ensures y in r {
        var j :| 0 <= j < |s| && s[j] == y;
        assert if j < i then r[j] == y else r[j - 1] == y;
      }
    } else {
      WithoutAbsent(s, x);
    }
  }

  lemma {:induction false} WithoutAbsent<T>(s: seq<T>, x: T)
    requires x !in s
    ensures Without(s, x) == s
  {
    if s != [] {
      WithoutAbsent(s[1..], x);
    }
  }

  function InsertAt<T>(s: seq<T>, i: nat, x: T): seq<T>
    requires i <= |s|
  {
    s[..i] + [x] + s[i..]
  }

  lemma InsertAtUnique<T(!new)>(s: seq<T>, i: nat, x: T)
    requires i <= |s| && Unique(s) && x !in s
    ensures Unique(InsertAt(s, i, x))
    ensures forall y :: y in InsertAt(s, i, x) <==> y in s || y == x
  {
    var r := InsertAt(s, i, x);
    forall y | y in s || y == x ensures y in r {
      if y == x {
        assert r[i] == y;
      } else {
        var j :| 0 <= j < |s| && s[j] == y;
        assert if j < i then r[j] == y else r[j + 1] == y;
      }
    }
  }

  type Keys<!T> = map<T, int>

  function KeyOf<T>(key: Keys<T>, x: T): int {
    if x in key then key[x] else 0
  }

  ghost predicate SortedBy<T>(s: seq<T>, key: Keys<T>) {
    forall i, j :: 0 <= i < j < |s| ==> KeyOf(key, s[i]) <= KeyOf(key, s[j])
  }

  /** The number of leading elements whose key is at most `k`. */
  ghost function UpperBound<T>(s: seq<T>, key: Keys<T>, k: int): (n: nat)
    ensures n <= |s|
    ensures forall i :: 0 <= i < n ==> KeyOf(key, s[i]) <= k
    ensures n < |s| ==> KeyOf(key, s[n]) > k
  {
    if s == [] || KeyOf(key, s[0]) > k then 0 else 1 + UpperBound(s[1..], key, k)
  }

  lemma UpperBoundIs<T>(a: seq<T>, b: seq<T>, key: Keys<T>, k: int)
    requires forall i :: 0 <= i < |a| ==> KeyOf(key, a[i]) <= k
    requires b != [] ==> KeyOf(key, b[0]) > k
    ensures UpperBound(a + b, key, k) == |a|
  {
    var s, n := a + b, UpperBound(a + b, key, k);
    assert forall i :: 0 <= i < |a| ==> s[i] == a[i];
    assert |a| < |s| ==> s[|a|] == b[0];
  }

  /** Insertion at the upper bound keeps a sequence sorted. */
  lemma UpperBoundSorted<T>(s: seq<T>, key: Keys<T>, x: T)
    requires SortedBy(s, key)
    ensures SortedBy(InsertAt(s, UpperBound(s, key, KeyOf(key, x)), x), key)
  {
  }

  lemma WithoutSorted<T(!new)>(s: seq<T>, key: Keys<T>, x: T)
    requires SortedBy(s, key) && Unique(s)
    ensures SortedBy(Without(s, x), key)
  {
    if x in s {
      WithoutAt(s, IndexOf(s, x));
    } else {
      WithoutAbsent(s, x);
    }
  }

  /** `s` with every `x` renamed to `y`. */
  ghost function Rename<T>(s: seq<T>, x: T, y: T): (r: seq<T>)
    ensures |r| == |s|
    ensures forall i :: 0 <= i < |s| ==> r[i] == if s[i] == x then y else s[i]
  {
    seq(|s|, i requires 0 <= i < |s| => if s[i] == x then y else s[i])
  }

  // ----- filtering lists

  /** The elements of `keep`, in the order of `s`. */
  ghost function Only<T>(s: seq<T>, keep: set<T>): seq<T> {
    if s == [] then [] else if s[0] in keep then [s[0]] + Only(s[1..], keep) else Only(s[1..], keep)
  }

  ghost function Elements<T>(s: seq<T>): set<T> {
    set x | x in s
  }

  lemma {:induction false} OnlyElements<T(!new)>(s: seq<T>, keep: set<T>)
    ensures forall x :: x in Only(s, keep) <==> x in s && x in keep
  {
    if s != [] {
      OnlyElements(s[1..], keep);
      assert forall x :: x in s <==> x == s[0] || x in s[1..];
    }
  }

  lemma {:induction false} OnlyAll<T(!new)>(s: seq<T>, keep: set<T>)
    requires forall x :: x in s ==> x in keep
    ensures Only(s, keep) == s
  {
    if s != [] { OnlyAll(s[1..], keep); }
  }

  lemma {:induction false} OnlyWithout<T(!new)>(s: seq<T>, keep: set<T>, x: T)
    requires Unique(s)
    ensures Without(Only(s, keep), x) == Only(s, keep - {x})
  {
    if s != [] {
      var r := Only(s[1..], keep);
      OnlyElements(s[1..], keep);
      OnlyWithout(s[1..], keep, x);
      if s[0] == x {
        assert x !in r;
        WithoutAbsent(r, x);
        if x in keep {
          assert ([x] + r)[1..] == r;
        }
      } else if s[0] in keep {
        assert ([s[0]] + r)[1..] == r;
      }
    }
  }

  lemma {:induction false} OnlyTwice<T(!new)>(s: seq<T>, a: set<T>, b: set<T>)
    ensures Only(Only(s, a), b) == Only(s, a * b)
  {
    if s != [] {
      OnlyTwice(s[1..], a, b);
      if s[0] in a {
        assert ([s[0]] + Only(s[1..], a))[1..] == Only(s[1..], a);
      }
    }
  }

  lemma {:induction false} OnlyFrame<T(!new)>(s: seq<T>, keep: set<T>, keep': set<T>)
    requires forall x :: x in s ==> (x in keep <==> x in keep')
    ensures Only(s, keep') == Only(s, keep)
  {
    if s != [] { OnlyFrame(s[1..], keep, keep'); }
  }

  lemma {:induction false} OnlyUnique<T(!new)>(s: seq<T>, keep: set<T>)
    requires Unique(s)
    ensures Unique(Only(s, keep))
  {
    if s != [] {
      OnlyUnique(s[1..], keep);
      OnlyElements(s[1..], keep);
    }
  }

  /** The elements of `keep`, from the end of `s` to its start. */
  ghost function LastFirst<T>(s: seq<T>, keep: set<T>): seq<T> {
    if s == [] then [] else LastFirst(s[1..], keep) + if s[0] in keep then [s[0]] else []
  }

  lemma {:induction false} LastFirstElements<T(!new)>(s: seq<T>, keep: set<T>)
    requires Unique(s)
    ensures forall x :: x in LastFirst(s, keep) <==> x in s && x in keep
    ensures Unique(LastFirst(s, keep))
  {
    if s != [] {
      LastFirstElements(s[1..], keep);
      assert forall x :: x in s <==> x == s[0] || x in s[1..];
    }
  }

  /** What comes earlier in it stands further back in the sequence. */
  lemma {:induction false} LastFirstOrder<T(!new)>(s: seq<T>, keep: set<T>)
    requires Unique(s)
    ensures forall x :: x in LastFirst(s, keep) ==> x in s
    ensures forall j, k :: 0 <= j < k < |LastFirst(s, keep)| ==>
              IndexOf(s, LastFirst(s, keep)[k]) < IndexOf(s, LastFirst(s, keep)[j])
  {
    LastFirstElements(s, keep);
    if s != [] {
      var t, r := s[1..], LastFirst(s[1..], keep);
      LastFirstOrder(t, keep);
      forall j | 0 <= j < |r| ensures IndexOf(s, r[j]) == 1 + IndexOf(t, r[j]) {
        assert r[j] in r && r[j] in t;
      }
    }
  }

  /** A tail of the sequence yields a prefix. */
  lemma {:induction false} LastFirstPrefix<T>(s: seq<T>, keep: set<T>, i: nat)
    requires i <= |s|
    ensures LastFirst(s[i..], keep) <= LastFirst(s, keep)
  {
    if i > 0 {
      LastFirstPrefix(s[1..], keep, i - 1);
      assert s[1..][i - 1..] == s[i..];
    }
  }

  /** With each of its elements a prefix has all those of `keep` further back. */
  lemma PrefixLast<T(!new)>(s: seq<T>, keep: set<T>, taken: seq<T>)
    requires Unique(s) && taken <= LastFirst(s, keep)
    ensures forall x :: x in taken ==>
              x in s && x in keep && forall i :: IndexOf(s, x) < i < |s| && s[i] in keep ==> s[i] in taken
  {
    hide LastFirst;
    var r := LastFirst(s, keep);
    LastFirstElements(s, keep);
    LastFirstOrder(s, keep);
    forall x | x in taken ensures x in r {
      var k :| 0 <= k < |taken| && taken[k] == x;
      assert r[k] == x;
    }
    forall x, i | x in taken && IndexOf(s, x) < i < |s| && s[i] in keep ensures s[i] in taken {
      var k :| 0 <= k < |taken| && taken[k] == x;
      var j :| 0 <= j < |r| && r[j] == s[i];
      assert r[k] == x && IndexOf(s, s[i]) == i;
      if j < |taken| { assert taken[j] == s[i]; }
    }
  }

  lemma LastFirstStep<T>(s: seq<T>, keep: set<T>, i: nat)
    requires i < |s|
    ensures LastFirst(s[i..], keep) == LastFirst(s[i + 1..], keep) + if s[i] in keep then [s[i]] else []
  {
    assert s[i..][1..] == s[i + 1..];
  }

  lemma {:induction false} LastFirstFrame<T(!new)>(s: seq<T>, keep: set<T>, keep': set<T>)
    requires forall x :: x in s ==> (x in keep <==> x in keep')
    ensures LastFirst(s, keep') == LastFirst(s, keep)
  {
    if s != [] { LastFirstFrame(s[1..], keep, keep'); }
  }

  lemma {:induction false} LastFirstOnly<T(!new)>(s: seq<T>, a: set<T>, keep: set<T>)
    ensures LastFirst(Only(s, a), keep) == LastFirst(s, a * keep)
  {
    if s != [] {
      LastFirstOnly(s[1..], a, keep);
      if s[0] in a {
        assert ([s[0]] + Only(s[1..], a))[1..] == Only(s[1..], a);
      }
    }
  }

  /** The first of them is the last one of the sequence. */
  lemma {:induction false} LastFirstHead<T(!new)>(s: seq<T>, keep: set<T>, pos: int)
    requires -1 <= pos < |s| && (pos >= 0 ==> s[pos] in keep)
    requires forall i :: pos < i < |s| ==> s[i] !in keep
    ensures pos >= 0 ==> LastFirst(s, keep) != [] && LastFirst(s, keep)[0] == s[pos]
    ensures pos < 0 ==> LastFirst(s, keep) == []
  {
    if s != [] {
      LastFirstHead(s[1..], keep, if pos > 0 then pos - 1 else -1);
    }
  }

  lemma {:induction false} WithoutAppend<T(!new)>(a: seq<T>, t: seq<T>, v: T)
    requires v !in t
    ensures Without(a + t, v) == Without(a, v) + t
  {
    if a == [] {
      assert a + t == t;
      WithoutAbsent(t, v);
    } else {
      assert (a + t)[1..] == a[1..] + t;
      WithoutAppend(a[1..], t, v);
      if a[0] != v {
        assert [a[0]] + (Without(a[1..], v) + t) == [a[0]] + Without(a[1..], v) + t;
      }
    }
  }

  /** Dropping one element leaves the order of the others. */
  lemma {:induction false} LastFirstWithout<T(!new)>(s: seq<T>, keep: set<T>, v: T)
    requires Unique(s)
    ensures LastFirst(Without(s, v), keep) == Without(LastFirst(s, keep), v)
  {
    if s != [] {
      var a, t := LastFirst(s[1..], keep), if s[0] in keep then [s[0]] else [];
      LastFirstElements(s[1..], keep);
      LastFirstWithout(s[1..], keep, v);
      if s[0] == v {
        WithoutAbsent(a, v);
        if t == [v] {
          WithoutSplit(a, v, []);
          assert a + [v] + [] == a + t && a + [] == a;
        } else {
          assert a + t == a;
        }
      } else {
        WithoutAppend(a, t, v);
        assert Without(s, v)[1..] == Without(s[1..], v);
      }
    }
  }
}
