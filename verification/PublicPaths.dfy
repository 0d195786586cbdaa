/** The keys and paths of public objects, character by character. */
module PublicPaths {
  import opened Wrappers
  import opened Utf16
  import opened UriComponent
  import opened Segments
  import opened PublicObjects

  predicate SlashOf(u: int) {
    u == SLASH || u == BACKSLASH
  }

  /** From i to j stands a "." or "..", between slashes of either kind or at an end. */
  predicate DotSegment(t: Text, i: nat, j: nat) {
    && i < j <= |t| && j <= i + 2 && (forall k | i <= k < j :: t[k] == DOT)
    && (i == 0 || SlashOf(t[i - 1])) && (j == |t| || SlashOf(t[j]))
  }

  ghost predicate HasDots(t: Text) {
    exists i: nat, j: nat :: DotSegment(t, i, j)
  }

  /** A slash at either end, or two in a row, or nothing at all. */
  ghost predicate HasGap(t: Text) {
    t == [] || t[0] == SLASH || t[|t| - 1] == SLASH || exists i :: 0 < i < |t| && t[i - 1] == SLASH && t[i] == SLASH
  }

  // ----- segments by position -----

  lemma DotsPart(t: Text, i: nat, j: nat)
    requires BACKSLASH !in t
    ensures (PartAt(t, SLASH, [DOT], i, j) || PartAt(t, SLASH, [DOT, DOT], i, j)) <==> DotSegment(t, i, j)
  {
    if DotSegment(t, i, j) {
      assert t[i..j] == if j == i + 1 then [DOT] else [DOT, DOT];
    }
    if PartAt(t, SLASH, [DOT], i, j) || PartAt(t, SLASH, [DOT, DOT], i, j) {
      assert forall k | i <= k < j :: t[k] == t[i..j][k - i];
    }
    assert forall k | 0 <= k < |t| :: t[k] != BACKSLASH;
  }

  /** Among the segments is a "." or "..". */
  lemma DotsExact(t: Text)
    requires BACKSLASH !in t
    ensures (exists part :: part in Split(t, SLASH) && IsDots(part)) <==> HasDots(t)
  {
    hide Split;
    SplitExact(t, SLASH, [DOT]);
    SplitExact(t, SLASH, [DOT, DOT]);
    forall i: nat, j: nat
      ensures (PartAt(t, SLASH, [DOT], i, j) || PartAt(t, SLASH, [DOT, DOT], i, j)) <==> DotSegment(t, i, j)
    {
      DotsPart(t, i, j);
    }
    hide PartAt, DotSegment;
    assert IsDots([DOT]) && IsDots([DOT, DOT]);
    assert [DOT] in Split(t, SLASH) || [DOT, DOT] in Split(t, SLASH) <==> HasDots(t);
  }

  /** Among the segments is an empty one. */
  lemma GapExact(t: Text)
    ensures [] in Split(t, SLASH) <==> HasGap(t)
  {
    hide Split;
    SplitExact<Unit>(t, SLASH, []);
    var empty: Text := [];
    assert t == [] ==> PartAt(t, SLASH, empty, 0, 0);
    assert t != [] && t[0] == SLASH ==> PartAt(t, SLASH, empty, 0, 0);
    assert t != [] && t[|t| - 1] == SLASH ==> PartAt(t, SLASH, empty, |t|, |t|);
    assert forall i | 0 < i < |t| && t[i - 1] == SLASH && t[i] == SLASH :: PartAt(t, SLASH, empty, i, i);
    forall i: nat, j: nat | PartAt(t, SLASH, empty, i, j) ensures HasGap(t) {
      assert |t[i..j]| == 0 && i == j;
    }
  }

  lemma UnsafeExact(t: Text)
    requires BACKSLASH !in t
    ensures (exists segment :: segment in Split(t, SLASH) && Unsafe(segment)) <==> HasDots(t) || HasGap(t)
  {
    DotsExact(t);
    GapExact(t);
    hide Split, HasDots, HasGap;
  }

  // ----- keys -----

  lemma PairedAround(a: Text, b: Text)
    ensures Paired(a + [SLASH] + b) <==> Paired(a) && Paired(b)
  {
    var s, n := a + [SLASH] + b, |a|;
    assert s[n] == SLASH;
    forall i | 0 <= i < n ensures LoneAt(s, i) <==> LoneAt(a, i) {
      assert s[i] == a[i];
    }
    forall i | 0 <= i < |b| ensures LoneAt(s, n + 1 + i) <==> LoneAt(b, i) {
      assert s[n + 1 + i] == b[i];
    }
    if Paired(s) {
      forall i | 0 <= i < |b| ensures !LoneAt(b, i) {
        assert !LoneAt(s, n + 1 + i);
      }
    }
    if Paired(a) && Paired(b) {
      forall i | 0 <= i < |s| ensures !LoneAt(s, i) {
        if i > n {
          assert !LoneAt(b, i - n - 1);
        }
      }
    }
  }

  lemma {:induction false} PairedSegments(t: Text)
    ensures Paired(t) <==> forall segment | segment in Split(t, SLASH) :: Paired(segment)
    decreases |t|
  {
    var k := IndexOf(t, SLASH);
    if k == |t| {
    } else {
      var front, rest := t[..k], t[k + 1..];
      PairedSegments(rest);
      assert t == front + [SLASH] + rest;
      assert Split(t, SLASH) == [front] + Split(rest, SLASH);
      hide Split, Paired;
      PairedAround(front, rest);
      var later := Split(rest, SLASH);
      assert forall segment :: segment in [front] + later <==> segment == front || segment in later;
    }
  }

  /** A key that may be published, in plain terms. */
  ghost predicate GoodKey(key: Text) {
    BACKSLASH !in key && NUL !in key && Paired(key) && !HasDots(key) && !HasGap(key)
  }

  /** Published are exactly the good keys of at most 1024 octets. */
  lemma KeyExact(origin: Text, key: Text)
    ensures ObjectKey(key) <==> GoodKey(key)
    ensures PublicObjectUrl(origin, key).Success? <==> GoodKey(key) && |Utf8(key)| <= 1024
  {
    hide Split, Paired, HasDots, HasGap, PublicObjectUrl, Utf8;
    PublishedExactly(origin, key);
    if BACKSLASH !in key {
      UnsafeExact(key);
      PairedSegments(key);
    }
  }

  // ----- requested paths -----

  /** A requested path is let through exactly when what it decodes to, with its slashes straightened, is like a key. */
  lemma SafePathExact(requested: Text, key: Text)
    ensures SafePath(requested) == Some(key) <==>
              && DecodeUriComponent(requested).Some? && key == Slashed(DecodeUriComponent(requested).value)
              && NUL !in key && !HasDots(key) && !HasGap(key)
  {
    hide DecodeUriComponent, Split, Join, HasDots, HasGap;
    if DecodeUriComponent(requested).Some? {
      var slashed := Slashed(DecodeUriComponent(requested).value);
      assert BACKSLASH !in slashed;
      UnsafeExact(slashed);
      JoinSplit(slashed, SLASH);
      SlashFirst(slashed);
    }
  }

  lemma SlashFirst(t: Text)
    ensures t == [] || t[0] == SLASH ==> HasGap(t)
  {
  }

  /** Dot segments are looked for between slashes of either kind. */
  lemma NoTraversalExact(t: Text)
    ensures NoTraversal(t) <==> NUL !in t && !HasDots(t)
  {
    var slashed := Slashed(t);
    assert BACKSLASH !in slashed;
    DotsExact(slashed);
    hide Split;
    forall i: nat, j: nat ensures DotSegment(slashed, i, j) <==> DotSegment(t, i, j) {
      DotsSlashed(t, i, j);
    }
    hide DotSegment;
  }

  lemma DotsSlashed(t: Text, i: nat, j: nat)
    ensures DotSegment(Slashed(t), i, j) <==> DotSegment(t, i, j)
  {
    var slashed := Slashed(t);
    assert forall k | 0 <= k < |t| :: (slashed[k] == DOT <==> t[k] == DOT) && (SlashOf(slashed[k]) <==> SlashOf(t[k]));
  }

  /**
   * With a raw URL a path is let through exactly when it would be without, and what the raw path gives when it is
   * decoded three times has no NUL and no dot segment.
   */
  lemma RawUrlExact(requested: Text, path: Text, query: Text)
    requires QUERY !in path && (query == [] || query[0] == QUERY) && path + query != []
    ensures var decoded := DecodeTimes(path, 3);
            SafeRelative(requested, Some(path + query)) ==
            if decoded.Some? && NUL !in decoded.value && !HasDots(decoded.value) then SafePath(requested) else None
  {
    BeforeQueryOf(path, query);
    hide DecodeTimes, SafePath, HasDots, BeforeQuery, NoTraversal;
    if DecodeTimes(path, 3).Some? {
      NoTraversalExact(DecodeTimes(path, 3).value);
    }
  }

  lemma DecodeThrice(t: Text)
    ensures DecodeTimes(t, 3) ==
            match DecodeUriComponent(t)
            case None => None
            case Some(once) =>
              match DecodeUriComponent(once)
              case None => None
              case Some(twice) => DecodeUriComponent(twice)
  {
    hide DecodeUriComponent;
  }
}
