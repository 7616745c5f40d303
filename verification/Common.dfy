// What several of the modules use.
module Common {

  type byte = x: int | 0 <= x < 256

  datatype Option<T> = None | Some(value: T)

  // list_del: the list without the first occurrence of `x`.
  function Without(l: seq<int>, x: int): seq<int> {
    if l == [] then [] else if l[0] == x then l[1..] else [l[0]] + Without(l[1..], x)
  }

  lemma {:induction false} WithoutBag(l: seq<int>, x: int)
    ensures multiset(Without(l, x)) == multiset(l) - multiset{x}
  {
    if l == [] {
    } else {
      assert multiset(l) == multiset{l[0]} + multiset(l[1..]) by {
        assert l == [l[0]] + l[1..];
      }
      if l[0] != x {
        WithoutBag(l[1..], x);
      }
    }
  }

  lemma {:induction false} WithoutMembers(l: seq<int>, x: int)
    ensures forall y :: y != x ==> (y in Without(l, x) <==> y in l)
    ensures forall y :: y in Without(l, x) ==> y in l
  {
    if l != [] {
      WithoutMembers(l[1..], x);
      assert l == [l[0]] + l[1..];
    }
  }

  lemma {:induction false} WithoutNone(l: seq<int>, x: int)
    requires x !in l
    ensures Without(l, x) == l
  {
    if l != [] {
      WithoutNone(l[1..], x);
    }
  }
}
