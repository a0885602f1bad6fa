/** Lists without repetition, as the kernel's list heads and chains are. */
module Lists {

  ghost predicate NoDup<T>(s: seq<T>) {
    forall i, j | 0 <= i < j < |s| :: s[i] != s[j]
  }

  /** The list without the first occurrence of `x`. */
  function Without<T(==)>(s: seq<T>, x: T): seq<T> {
    if s == [] then [] else if s[0] == x then s[1..] else [s[0]] + Without(s[1..], x)
  }

  lemma {:induction false} WithoutOk<T(!new)>(s: seq<T>, x: T)
    requires NoDup(s)
    ensures NoDup(Without(s, x)) && (forall y :: y in Without(s, x) <==> y in s && y != x)
    ensures |Without(s, x)| == if x in s then |s| - 1 else |s|
  {
    if s != [] {
      var r := s[1..];
      assert forall y :: y in s <==> y == s[0] || y in r;
      assert s[0] !in r;
      if s[0] != x {
        WithoutOk(r, x);
      }
    }
  }

  /** Walking past elements other than `x`. */
  lemma {:induction false} WithoutAt<T>(s: seq<T>, x: T, i: nat)
    requires i <= |s| && x !in s[..i]
    ensures Without(s, x) == s[..i] + Without(s[i..], x)
    ensures i < |s| && s[i] == x ==> Without(s, x) == s[..i] + s[i + 1..]
    decreases i
  {
    if i == 0 {
      assert s[0..] == s;
    } else {
      assert s[0] == s[..i][0] && s[..i] == [s[0]] + s[1..][..i - 1];
      WithoutAt(s[1..], x, i - 1);
      assert s[1..][i - 1..] == s[i..];
      if i < |s| && s[i] == x {
        assert s[1..][i - 1] == x;
        assert s[1..][i..] == s[i + 1..];
      }
    }
  }

  lemma {:induction false} AppendOk<T(!new)>(s: seq<T>, x: T)
    requires NoDup(s) && x !in s
    ensures NoDup(s + [x]) && NoDup([x] + s)
    ensures forall y :: (y in s + [x] <==> y in s || y == x) && (y in [x] + s <==> y in s || y == x)
  {
  }

  /** A list without repetition is as long as the set of its elements is large. */
  lemma {:induction false} SizeOf<T>(s: seq<T>, t: set<T>)
    requires NoDup(s) && forall x :: x in s <==> x in t
    ensures |s| == |t|
    decreases |s|
  {
    if s == [] {
      assert t == {};
    } else {
      assert s == [s[0]] + s[1..] && s[0] !in s[1..];
      SizeOf(s[1..], t - {s[0]});
    }
  }
}
