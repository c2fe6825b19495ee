/** Sequence and string helpers with the facts the rest of the model needs. */
module Seqs {

  /** Every element except occurrences of `x`, in order (Redis `LREM key 0 x`). */
  function RemoveAll<T(==)>(s: seq<T>, x: T): (r: seq<T>)
    ensures multiset(r) == multiset(s)[x := 0]
    ensures x !in r
    ensures forall y | y in s && y != x :: y in r
    ensures forall y | y in r :: y in s
  {
    if |s| == 0 then []
    else
      assert s == [s[0]] + s[1..];
      (if s[0] == x then [] else [s[0]]) + RemoveAll(s[1..], x)
  }

  /** Removal keeps the relative order: it distributes over concatenation. */
  lemma {:induction false} RemoveAllAppend<T>(a: seq<T>, b: seq<T>, x: T)
    ensures RemoveAll(a + b, x) == RemoveAll(a, x) + RemoveAll(b, x)
  {
    if |a| == 0 {
      assert a + b == b;
    } else {
      assert (a + b)[1..] == a[1..] + b;
      RemoveAllAppend(a[1..], b, x);
    }
  }

  /** Removing an element that occurs once, at index `i`, deletes exactly that index. */
  lemma {:induction false} RemoveAllUnique<T>(s: seq<T>, i: nat, x: T)
    requires i < |s| && s[i] == x
    requires forall j | 0 <= j < |s| && j != i :: s[j] != x
    ensures RemoveAll(s, x) == s[..i] + s[i+1..]
  {
    var pre, post := s[..i], s[i+1..];
    assert s == (pre + [x]) + post;
    assert x !in pre by {
      forall y | y in pre ensures y != x {
        var j :| 0 <= j < |pre| && pre[j] == y;
        assert s[j] == y;
      }
    }
    assert x !in post by {
      forall y | y in post ensures y != x {
        var j :| 0 <= j < |post| && post[j] == y;
        assert s[i + 1 + j] == y;
      }
    }
    calc {
      RemoveAll(s, x);
    == { RemoveAllAppend(pre + [x], post, x); }
      RemoveAll(pre + [x], x) + RemoveAll(post, x);
    == { RemoveAllAppend(pre, [x], x); }
      RemoveAll(pre, x) + RemoveAll([x], x) + RemoveAll(post, x);
    == { RemoveAllAbsent(pre, x); RemoveAllAbsent(post, x); assert RemoveAll([x], x) == []; }
      pre + [] + post;
    == { assert pre + [] == pre; }
      pre + post;
    }
  }

  lemma {:induction false} RemoveAllAbsent<T>(s: seq<T>, x: T)
    requires x !in s
    ensures RemoveAll(s, x) == s
  {
    if |s| > 0 {
      RemoveAllAbsent(s[1..], x);
    }
  }

  /** The elements satisfying `p`, in their original order. */
  function Keep<T>(s: seq<T>, p: T -> bool): (r: seq<T>)
    ensures |r| <= |s|
  {
    if |s| == 0 then []
    else if p(s[0]) then [s[0]] + Keep(s[1..], p)
    else Keep(s[1..], p)
  }

  /** An element is kept exactly when it occurs in the input and satisfies `p`. */
  lemma {:induction false} KeepMembers<T>(s: seq<T>, p: T -> bool)
    ensures forall x :: x in Keep(s, p) <==> x in s && p(x)
  {
    if |s| > 0 {
      KeepMembers(s[1..], p);
      assert s == [s[0]] + s[1..];
    }
  }

  /** Keeping distributes over concatenation: the kept elements stay in input order. */
  lemma {:induction false} KeepAppend<T>(a: seq<T>, b: seq<T>, p: T -> bool)
    ensures Keep(a + b, p) == Keep(a, p) + Keep(b, p)
  {
    if |a| == 0 {
      assert a + b == b;
    } else {
      assert (a + b)[1..] == a[1..] + b;
      KeepAppend(a[1..], b, p);
    }
  }

  /** `parts.join(sep)`. */
  function Join(sep: string, parts: seq<string>): string {
    if |parts| == 0 then ""
    else if |parts| == 1 then parts[0]
    else parts[0] + sep + Join(sep, parts[1..])
  }

  /** The concatenation of all parts, with nothing between them. */
  function Concat(parts: seq<string>): string {
    if |parts| == 0 then "" else parts[0] + Concat(parts[1..])
  }

  /** Every part followed by `sep`: what a loop of `acc += part + sep` builds. */
  function Terminated(sep: string, parts: seq<string>): string {
    if |parts| == 0 then "" else parts[0] + sep + Terminated(sep, parts[1..])
  }

  /** Building `part + sep` for every part and dropping the final separator yields the
      parts joined by the separator. */
  lemma {:induction false} TerminatedIsJoin(sep: string, parts: seq<string>)
    requires |parts| > 0
    ensures Terminated(sep, parts) == Join(sep, parts) + sep
  {
    if |parts| > 1 {
      TerminatedIsJoin(sep, parts[1..]);
    } else {
      assert Terminated(sep, parts[1..]) == "";
    }
  }
}
