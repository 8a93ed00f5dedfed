/**
  The explicit free list, as the sequence of free-block offsets that follow
  the sentinel in list order. The sentinel itself is not in the sequence.
 */
module FreeList {

  /** No offset occurs twice. */
  ghost predicate NoDup(l: seq<int>)
  {
    forall i, j :: 0 <= i < j < |l| ==> l[i] != l[j]
  }

  /**
    add_2list: the block is linked in directly after the sentinel, so it
    becomes the first member and the others keep their order behind it.
   */
  function Push(l: seq<int>, b: int): (r: seq<int>)
    ensures |r| == |l| + 1 && r[0] == b && r[1..] == l
  {
    [b] + l
  }

  /**
    remove_from_list: unlinks the first occurrence of `b`, splicing its
    predecessor to its successor. On a list that does not hold `b`
    (undefined behaviour in the source) the list is left as it is.
   */
  function Remove(l: seq<int>, b: int): (r: seq<int>)
    ensures |l| - 1 <= |r| <= |l|
  {
    if |l| == 0 then l
    else if l[0] == b then l[1..]
    else [l[0]] + Remove(l[1..], b)
  }

  /** Remove takes out one occurrence of `b` and nothing else. */
  lemma {:induction false} RemoveMultiset(l: seq<int>, b: int)
    ensures multiset(Remove(l, b)) == multiset(l) - multiset{b}
    decreases |l|
  {
    if |l| > 0 {
      assert l == [l[0]] + l[1..];
      if l[0] != b {
        RemoveMultiset(l[1..], b);
      }
    }
  }

  /** The members after a push are `b` and the old members; a fresh block keeps the list free of duplicates. */
  lemma PushFront(l: seq<int>, b: int)
    ensures forall x :: x in Push(l, b) <==> x == b || x in l
    ensures b !in l && NoDup(l) ==> NoDup(Push(l, b))
  {
  }

  /** Remove shortens the list by one exactly when `b` is a member, and otherwise leaves it as it is. */
  lemma {:induction false} RemoveLength(l: seq<int>, b: int)
    ensures b !in l ==> Remove(l, b) == l
    ensures |Remove(l, b)| == if b in l then |l| - 1 else |l|
    decreases |l|
  {
    if |l| > 0 && l[0] != b {
      RemoveLength(l[1..], b);
      assert b in l <==> b in l[1..];
    }
  }

  /** The position of the first occurrence of `b`. */
  function IndexOf(l: seq<int>, b: int): (i: nat)
    requires b in l
    ensures i < |l| && l[i] == b && b !in l[..i]
  {
    if l[0] == b then 0 else 1 + IndexOf(l[1..], b)
  }

  /**
    Removing a member keeps the relative order of all the other members:
    the result is the list with the first occurrence of `b` cut out.
   */
  lemma {:induction false} RemoveKeepsOrder(l: seq<int>, b: int)
    requires b in l
    ensures Remove(l, b) == l[..IndexOf(l, b)] + l[IndexOf(l, b) + 1..]
    decreases |l|
  {
    if l[0] != b {
      var t := l[1..];
      RemoveKeepsOrder(t, b);
      var i := IndexOf(t, b);
      assert IndexOf(l, b) == i + 1;
      assert l[..i + 1] == [l[0]] + t[..i];
      assert l[i + 2..] == t[i + 1..];
    }
  }

  /** On a list without duplicates, Remove takes out exactly `b` and keeps every other member. */
  lemma {:induction false} RemoveNoDup(l: seq<int>, b: int)
    requires NoDup(l)
    ensures NoDup(Remove(l, b)) && b !in Remove(l, b)
    ensures forall x :: x in Remove(l, b) <==> x in l && x != b
    decreases |l|
  {
    if |l| > 0 {
      assert NoDup(l[1..]) by {
        forall i, j | 0 <= i < j < |l| - 1 ensures l[1..][i] != l[1..][j] {
          assert l[1..][i] == l[i + 1] && l[1..][j] == l[j + 1];
        }
      }
      assert l[0] !in l[1..];
      if l[0] != b {
        RemoveNoDup(l[1..], b);
        var r := Remove(l, b);
        assert r == [l[0]] + Remove(l[1..], b);
        forall i, j | 0 <= i < j < |r| ensures r[i] != r[j] {
          if i == 0 {
            assert r[j] in Remove(l[1..], b);
          } else {
            assert r[i] == Remove(l[1..], b)[i - 1] && r[j] == Remove(l[1..], b)[j - 1];
          }
        }
      }
    }
  }

  /** Removing two blocks from a duplicate-free list leaves exactly the other members, still without duplicates. */
  lemma RemoveTwoNoDup(l: seq<int>, p: int, n: int)
    requires NoDup(l)
    ensures NoDup(Remove(Remove(l, p), n))
    ensures forall x :: x in Remove(Remove(l, p), n) <==> x in l && x != p && x != n
  {
    RemoveNoDup(l, p);
    RemoveNoDup(Remove(l, p), n);
  }

  /** Push then Remove of a block that was not a member gives back the list unchanged. */
  lemma RemovePush(l: seq<int>, b: int)
    requires b !in l
    ensures Remove(Push(l, b), b) == l
  {
  }
}
