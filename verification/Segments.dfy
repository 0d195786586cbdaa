/** Cutting a sequence at a separator, and putting the parts together again. */
module Segments {

  function IndexOf<T(==)>(s: seq<T>, c: T): (i: nat)
    ensures i <= |s| && (i < |s| ==> s[i] == c) && c !in s[..i]
  {
    if s == [] || s[0] == c then 0
    else
      assert s == [s[0]] + s[1..];
      1 + IndexOf(s[1..], c)
  }

  function Split<T(==)>(s: seq<T>, c: T): (parts: seq<seq<T>>)
    ensures parts != []
    decreases |s|
  {
    var i := IndexOf(s, c);
    if i == |s| then [s] else [s[..i]] + Split(s[i + 1..], c)
  }

  function Join<T>(parts: seq<seq<T>>, c: T): seq<T>
    requires parts != []
  {
    if |parts| == 1 then parts[0] else parts[0] + [c] + Join(parts[1..], c)
  }

  lemma Regroup<T>(a: seq<T>, b: seq<T>, c: seq<T>)
    ensures (a + b) + c == a + (b + c)
  {
  }

  lemma JoinStep<T>(parts: seq<seq<T>>, c: T)
    requires |parts| > 1
    ensures Join(parts, c) == parts[0] + ([c] + Join(parts[1..], c))
  {
    var rest := Join(parts[1..], c);
    assert Join(parts, c) == parts[0] + [c] + rest;
    hide Join;
    Regroup(parts[0], [c], rest);
  }

  lemma {:induction false} JoinSplit<T>(s: seq<T>, c: T)
    ensures Join(Split(s, c), c) == s
    ensures forall part | part in Split(s, c) :: c !in part
    decreases |s|
  {
    var i := IndexOf(s, c);
    if i < |s| {
      JoinSplit(s[i + 1..], c);
      var parts := Split(s, c);
      assert parts == [s[..i]] + Split(s[i + 1..], c);
      assert parts[1..] == Split(s[i + 1..], c);
      assert s == s[..i] + [c] + s[i + 1..];
    } else {
      assert s[..i] == s;
    }
  }

  lemma {:induction false} IndexOfFirst<T>(a: seq<T>, c: T, rest: seq<T>)
    requires c !in a
    ensures IndexOf(a + [c] + rest, c) == |a|
  {
    if a == [] {
    } else {
      assert (a + [c] + rest)[1..] == a[1..] + [c] + rest;
      IndexOfFirst(a[1..], c, rest);
    }
  }

  lemma SplitFront<T>(a: seq<T>, c: T, rest: seq<T>)
    requires c !in a
    ensures Split(a + [c] + rest, c) == [a] + Split(rest, c)
  {
    hide IndexOf;
    IndexOfFirst(a, c, rest);
    var s := a + [c] + rest;
    assert s[..|a|] == a;
    assert s[|a| + 1..] == rest;
  }

  lemma {:induction false} SplitJoin<T>(parts: seq<seq<T>>, c: T)
    requires parts != [] && forall part | part in parts :: c !in part
    ensures Split(Join(parts, c), c) == parts
  {
    if |parts| == 1 {
      assert parts[0] in parts;
      IndexOfMissing(parts[0], c);
      assert parts == [parts[0]];
    } else {
      hide Split, IndexOf;
      var a, later := parts[0], parts[1..];
      assert forall part | part in later :: part in parts;
      SplitJoin(later, c);
      SplitFront(a, c, Join(later, c));
      assert [a] + later == parts;
    }
  }

  lemma {:induction false} JoinBoth<T>(p: seq<seq<T>>, q: seq<seq<T>>, c: T)
    requires p != [] && q != []
    ensures Join(p + q, c) == Join(p, c) + [c] + Join(q, c)
  {
    if |p| == 1 {
      assert (p + q)[1..] == q;
    } else {
      JoinBoth(p[1..], q, c);
      assert (p + q)[1..] == p[1..] + q;
    }
  }

  lemma SplitBoth<T>(a: seq<T>, c: T, b: seq<T>)
    ensures Split(a + [c] + b, c) == Split(a, c) + Split(b, c)
  {
    hide Split, Join;
    JoinSplit(a, c);
    JoinSplit(b, c);
    JoinBoth(Split(a, c), Split(b, c), c);
    SplitJoin(Split(a, c) + Split(b, c), c);
  }

  lemma {:induction false} IndexOfBeyond<T>(a: seq<T>, c: T, more: seq<T>)
    requires c !in a
    ensures IndexOf(a + more, c) == |a| + IndexOf(more, c)
  {
    if a != [] {
      assert (a + more)[1..] == a[1..] + more;
      IndexOfBeyond(a[1..], c, more);
    } else {
      assert a + more == more;
    }
  }

  lemma {:induction false} IndexOfMissing<T>(s: seq<T>, c: T)
    requires c !in s
    ensures IndexOf(s, c) == |s|
  {
    if s == [] {
    } else {
      IndexOfMissing(s[1..], c);
    }
  }

  /** Every element is the separator or inside one of the parts. */
  lemma {:induction false} SplitCharacters<T>(s: seq<T>, c: T)
    ensures forall x | x in s :: x == c || exists l :: l in Split(s, c) && x in l
    decreases |s|
  {
    var i := IndexOf(s, c);
    if i < |s| {
      var front, rest := s[..i], s[i + 1..];
      SplitCharacters(rest, c);
      assert s == front + [c] + rest;
      var parts := Split(s, c);
      assert parts == [front] + Split(rest, c);
      hide Split;
      assert front in parts && forall l | l in Split(rest, c) :: l in parts;
    } else {
      assert s in Split(s, c);
    }
  }

  function Last<T>(parts: seq<T>): T
    requires parts != []
  {
    parts[|parts| - 1]
  }

  predicate EndsWith<T(==)>(s: seq<T>, suffix: seq<T>) {
    |suffix| <= |s| && s[|s| - |suffix|..] == suffix
  }

  lemma EndsWithLonger<T>(front: seq<T>, s: seq<T>, suffix: seq<T>)
    requires EndsWith(s, suffix)
    ensures EndsWith(front + s, suffix)
  {
  }

  lemma {:induction false} JoinEnds<T>(parts: seq<seq<T>>, c: T)
    requires parts != []
    ensures parts[0] <= Join(parts, c) && EndsWith(Join(parts, c), Last(parts))
  {
    if |parts| > 1 {
      JoinEnds(parts[1..], c);
      EndsWithLonger(parts[0] + [c], Join(parts[1..], c), Last(parts[1..]));
    }
  }

  /** The first part begins the sequence and the last one ends it. */
  lemma SplitEnds<T>(s: seq<T>, c: T)
    ensures Split(s, c)[0] <= s && EndsWith(s, Last(Split(s, c)))
  {
    hide Split, EndsWith, Join;
    JoinSplit(s, c);
    JoinEnds(Split(s, c), c);
  }

  /** This part lies between two separators, or between one and an end, at these positions. */
  ghost predicate PartAt<T>(s: seq<T>, c: T, part: seq<T>, i: nat, j: nat) {
    && i <= j <= |s| && s[i..j] == part && c !in part
    && (i == 0 || s[i - 1] == c) && (j == |s| || s[j] == c)
  }

  /** The parts of a sequence are what lies between its separators. */
  lemma {:induction false} SplitExact<T>(s: seq<T>, c: T, part: seq<T>)
    ensures part in Split(s, c) <==> exists i: nat, j: nat :: PartAt(s, c, part, i, j)
    decreases |s|
  {
    var k := IndexOf(s, c);
    assert c !in s[..k];
    if k == |s| {
      assert s[..k] == s;
      WholePart(s, c, part);
    } else {
      var rest := s[k + 1..];
      SplitExact(rest, c, part);
      assert Split(s, c) == [s[..k]] + Split(rest, c);
      hide Split, IndexOf;
      PartsShift(s, c, part, k, rest);
    }
  }

  lemma WholePart<T>(s: seq<T>, c: T, part: seq<T>)
    requires c !in s
    ensures part == s <==> exists i: nat, j: nat :: PartAt(s, c, part, i, j)
  {
    assert s[0..|s|] == s;
    assert part == s ==> PartAt(s, c, part, 0, |s|);
    assert forall k | 0 <= k < |s| :: s[k] != c;
  }

  lemma PartsShift<T>(s: seq<T>, c: T, part: seq<T>, k: nat, rest: seq<T>)
    requires k < |s| && s[k] == c && c !in s[..k] && rest == s[k + 1..]
    ensures (exists i: nat, j: nat :: PartAt(s, c, part, i, j)) <==>
              part == s[..k] || exists i: nat, j: nat :: PartAt(rest, c, part, i, j)
  {
    assert s[0..k] == s[..k];
    assert part == s[..k] ==> PartAt(s, c, part, 0, k);
    forall i: nat, j: nat | PartAt(rest, c, part, i, j) ensures PartAt(s, c, part, k + 1 + i, k + 1 + j) {
      assert rest[i..j] == s[k + 1 + i..k + 1 + j];
    }
    forall i: nat, j: nat | PartAt(s, c, part, i, j)
      ensures part == s[..k] || (i > k && PartAt(rest, c, part, i - k - 1, j - k - 1))
    {
      PartBefore(s, c, part, i, j, k);
      if i > k {
        assert rest[i - k - 1..j - k - 1] == s[i..j];
      }
    }
  }

  lemma PartBefore<T>(s: seq<T>, c: T, part: seq<T>, i: nat, j: nat, k: nat)
    requires PartAt(s, c, part, i, j) && k < |s| && s[k] == c && c !in s[..k]
    ensures i > k || (i == 0 && j == k)
  {
    forall x | 0 <= x < k ensures s[x] != c {
      assert s[x] in s[..k];
    }
    forall x | i <= x < j ensures s[x] != c {
      assert s[i..j][x - i] == s[x];
    }
  }
}
