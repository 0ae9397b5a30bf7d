/** Lists without repetition, as the kernel's queues and the allocator's bins keep them. */
module Lists {

  predicate NoDup(s: seq<int>) {
    s == [] || (s[0] !in s[1..] && NoDup(s[1..]))
  }

  lemma {:induction false} NoDupAppend(s: seq<int>, t: seq<int>)
    ensures NoDup(s + t) <==> NoDup(s) && NoDup(t) && forall x | x in s :: x !in t
  {
    if s == [] {
      assert s + t == t;
    } else {
      assert (s + t)[1..] == s[1..] + t && (s + t)[0] == s[0];
      assert s == [s[0]] + s[1..];
      NoDupAppend(s[1..], t);
      assert forall x :: x in s <==> x == s[0] || x in s[1..];
    }
  }

  /** `s` without its first `a`: what unlinking one node leaves. */
  function Without(s: seq<int>, a: int): seq<int> {
    if s == [] then [] else if s[0] == a then s[1..] else [s[0]] + Without(s[1..], a)
  }

  lemma {:induction false} WithoutOk(s: seq<int>, a: int)
    requires NoDup(s)
    ensures forall x :: x in Without(s, a) <==> x in s && x != a
    ensures NoDup(Without(s, a))
    ensures a in s ==> |Without(s, a)| == |s| - 1
    ensures a !in s ==> Without(s, a) == s
  {
    if s != [] {
      assert s == [s[0]] + s[1..];
      WithoutOk(s[1..], a);
      if s[0] == a {
        assert a !in s[1..];
      } else {
        assert ([s[0]] + Without(s[1..], a))[1..] == Without(s[1..], a);
      }
    }
  }

  lemma {:induction false} WithoutAt(s: seq<int>, i: nat)
    requires NoDup(s) && i < |s|
    ensures Without(s, s[i]) == s[..i] + s[i + 1..]
  {
    if i == 0 {
      assert s[..0] + s[1..] == s[1..];
    } else {
      assert s[i] == s[1..][i - 1];
      WithoutAt(s[1..], i - 1);
      assert s[..i] == [s[0]] + s[1..][..i - 1] && s[i + 1..] == s[1..][i..];
    }
  }

  /** The same by places. */
  ghost predicate Distinct(s: seq<int>) {
    forall i, j | 0 <= i < j < |s| :: s[i] != s[j]
  }

  lemma {:induction false} NoDupAt(s: seq<int>, i: nat, j: nat)
    requires NoDup(s) && i < j < |s|
    ensures s[i] != s[j]
  {
    if i > 0 {
      NoDupAt(s[1..], i - 1, j - 1);
    }
  }

  lemma NoDupIsDistinct(s: seq<int>)
    requires NoDup(s)
    ensures Distinct(s)
  {
    forall i, j | 0 <= i < j < |s| ensures s[i] != s[j] {
      NoDupAt(s, i, j);
    }
  }

  lemma {:induction false} DistinctNoDup(s: seq<int>)
    requires Distinct(s)
    ensures NoDup(s)
  {
    if s != [] {
      DistinctNoDup(s[1..]);
    }
  }
}
