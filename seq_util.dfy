/**
 * The array primitives the tab manager applies to its id lists:
 * `indexOf`, removal of one element by `splice(idx, 1)`, `push` of an id
 * only when it is absent, and a test for repeated elements.
 */
module SeqUtil {

  /** `s.indexOf(x)`: the first position of `x` in `s`, or -1. */
  function IndexOf<T(==)>(s: seq<T>, x: T): (r: int)
    ensures -1 <= r < |s|
    ensures r == -1 <==> x !in s
    ensures 0 <= r ==> s[r] == x && x !in s[..r]
  {
    if s == [] then -1
    else if s[0] == x then 0
    else
      var k := IndexOf(s[1..], x);
      assert s[1..][..if k < 0 then 0 else k] == s[1..if k < 0 then 1 else k + 1];
      if k == -1 then -1 else k + 1
  }

  /**
   * `const idx = s.indexOf(x); if (idx !== -1) s.splice(idx, 1);`:
   * the first occurrence of `x` is dropped, everything else keeps its order.
   */
  function RemoveFirst<T(==)>(s: seq<T>, x: T): (r: seq<T>)
    ensures x !in s ==> r == s
    ensures x in s ==> |r| == |s| - 1
  {
    var i := IndexOf(s, x);
    if i == -1 then s
    else
      assert s == s[..i] + [s[i]] + s[i + 1..];
      s[..i] + s[i + 1..]
  }

  /** `if (s.indexOf(x) === -1) s.push(x)`. */
  function PushAbsent<T(==,!new)>(s: seq<T>, x: T): (r: seq<T>)
    ensures x in r
    ensures forall y :: y in r <==> y in s || y == x
    ensures NoDup(s) ==> NoDup(r)
  {
    if x in s then s else s + [x]
  }

  /** No element occurs twice. */
  predicate NoDup<T(==)>(s: seq<T>)
  {
    forall i, j :: 0 <= i < j < |s| ==> s[i] != s[j]
  }

  /** A concatenation is repeat-free exactly when both parts are and they share no element. */
  lemma NoDupConcat<T>(a: seq<T>, b: seq<T>)
    ensures NoDup(a + b) <==> NoDup(a) && NoDup(b) && forall x :: x in a ==> x !in b
  {
    var s := a + b;
    if NoDup(a) && NoDup(b) && forall x :: x in a ==> x !in b {
      forall i, j | 0 <= i < j < |s| ensures s[i] != s[j] {
        if j < |a| {
          assert s[i] == a[i] && s[j] == a[j];
        } else if i >= |a| {
          assert s[i] == b[i - |a|] && s[j] == b[j - |a|];
        } else {
          assert s[i] == a[i] && s[j] == b[j - |a|] && s[i] in a;
        }
      }
    }
    if NoDup(s) {
      forall i, j | 0 <= i < j < |a| ensures a[i] != a[j] {
        assert a[i] == s[i] && a[j] == s[j];
      }
      forall i, j | 0 <= i < j < |b| ensures b[i] != b[j] {
        assert b[i] == s[i + |a|] && b[j] == s[j + |a|];
      }
      forall i, j | 0 <= i < |a| && 0 <= j < |b| ensures a[i] != b[j] {
        assert a[i] == s[i] && b[j] == s[j + |a|];
      }
    }
  }

  /** A position holding `x` with no `x` before it is the one `indexOf` finds. */
  lemma IndexOfIs<T>(s: seq<T>, x: T, j: int)
    requires 0 <= j < |s| && s[j] == x && x !in s[..j]
    ensures IndexOf(s, x) == j
  {
  }

  /** Dropping position `i` shifts every later element down by one. */
  lemma DropAt<T>(s: seq<T>, i: int)
    requires 0 <= i < |s|
    ensures |s[..i] + s[i + 1..]| == |s| - 1
    ensures forall k :: 0 <= k < i ==> (s[..i] + s[i + 1..])[k] == s[k]
    ensures forall k :: i < k < |s| ==> (s[..i] + s[i + 1..])[k - 1] == s[k]
  {
  }

  /** Dropping a position keeps a repeat-free list repeat-free. */
  lemma DropAtNoDup<T>(s: seq<T>, i: int)
    requires NoDup(s) && 0 <= i < |s|
    ensures NoDup(s[..i] + s[i + 1..])
  {
    var r := s[..i] + s[i + 1..];
    DropAt(s, i);
    forall a, b | 0 <= a < b < |r| ensures r[a] != r[b] {
      var a' := if a < i then a else a + 1;
      var b' := if b < i then b else b + 1;
      assert r[a] == s[a'] && r[b] == s[b'] && a' < b';
    }
  }

  /** Without repeats, the dropped element occurs nowhere else. */
  lemma DropAtLoses<T>(s: seq<T>, i: int)
    requires NoDup(s) && 0 <= i < |s|
    ensures s[i] !in s[..i] + s[i + 1..]
  {
    var r := s[..i] + s[i + 1..];
    DropAt(s, i);
    forall k | 0 <= k < |r| ensures r[k] != s[i] {
      var k' := if k < i then k else k + 1;
      assert r[k] == s[k'] && k' != i;
    }
  }

  /** Dropping a position keeps every other value. */
  lemma DropAtKeeps<T>(s: seq<T>, i: int)
    requires 0 <= i < |s|
    ensures forall y :: y != s[i] ==> (y in s[..i] + s[i + 1..] <==> y in s)
  {
    var r := s[..i] + s[i + 1..];
    DropAt(s, i);
    forall y | y != s[i] && y in s ensures y in r {
      var k :| 0 <= k < |s| && s[k] == y;
      var k' := if k < i then k else k - 1;
      assert r[k'] == y;
    }
  }

  /** Without repeats, removing the first occurrence removes the element. */
  lemma RemoveFirstNoDup<T(!new)>(s: seq<T>, x: T)
    requires NoDup(s)
    ensures NoDup(RemoveFirst(s, x))
    ensures x !in RemoveFirst(s, x)
    ensures forall y :: y != x ==> (y in RemoveFirst(s, x) <==> y in s)
  {
    var i := IndexOf(s, x);
    if i != -1 {
      assert RemoveFirst(s, x) == s[..i] + s[i + 1..] && s[i] == x;
      DropAtNoDup(s, i);
      DropAtLoses(s, i);
      DropAtKeeps(s, i);
    }
  }

  /** Removing an element absent from the tail only touches the head. */
  lemma RemoveFirstAppended<T(!new)>(s: seq<T>, t: seq<T>, x: T)
    requires NoDup(s) && x !in t
    ensures x !in RemoveFirst(s + t, x)
  {
    if x in s {
      var i := IndexOf(s, x);
      assert (s + t)[..i] == s[..i] && (s + t)[i] == x;
      IndexOfIs(s + t, x, i);
      assert (s + t)[..i] + (s + t)[i + 1..] == (s[..i] + s[i + 1..]) + t;
      RemoveFirstNoDup(s, x);
      assert RemoveFirst(s, x) == s[..i] + s[i + 1..];
    } else {
      assert x !in s + t;
    }
  }
}
