/**
 * The two storage operations a prefix deletion relies on, talking to a bucket that other
 * parties change at any moment and to a service whose answers are arbitrary.
 *
 * Keys are UTF-8 byte strings, one character per byte, so Less is the service's own order.
 */
module ObjectStorage {
  import opened Wrappers
  import opened StringOrder

  type Key = string

  const MAX_S3_KEYS := 1000

  datatype StorageError =
    | InvalidPageSize | MissingKey | OutsidePrefix | NotPastCursor | NotAscending | EmptyTruncatedPage
    | InvalidBatchSize | RepeatedKey | ProtocolAmbiguity | RequestFailed

  datatype ListResponse = ListResponse(contents: seq<Option<Key>>, isTruncated: bool)

  datatype KeyPage = KeyPage(keys: seq<Key>, isTruncated: bool)

  datatype ErrorItem = ErrorItem(key: Option<Key>, code: string)

  datatype DeleteResponse = DeleteResponse(deleted: seq<Option<Key>>, errors: seq<ErrorItem>)

  datatype DeleteOutcome = DeleteOutcome(deleted: seq<Key>, failures: seq<Key>)

  ghost function Elements(keys: seq<Key>): set<Key> {
    set k | k in keys
  }

  // ----- reading a listing -----

  ghost predicate PastCursor(key: Key, startAfter: Option<Key>) {
    startAfter.Some? ==> Less(startAfter.value, key)
  }

  ghost predicate ValidKeys(keys: seq<Key>, prefix: string, startAfter: Option<Key>) {
    && (forall k | k in keys :: prefix <= k && PastCursor(k, startAfter))
    && Ascending(keys)
  }

  ghost predicate ValidPage(page: KeyPage, prefix: string, startAfter: Option<Key>) {
    ValidKeys(page.keys, prefix, startAfter) && (page.isTruncated ==> page.keys != [])
  }

  /** The listing response spells out this page. */
  ghost predicate Spells(response: ListResponse, page: KeyPage) {
    && page.isTruncated == response.isTruncated
    && |page.keys| == |response.contents|
    && forall i | 0 <= i < |page.keys| :: response.contents[i] == Some(page.keys[i])
  }

  /** A response is accepted exactly when it spells out a valid page, and then as that page. */
  method ReadKeyPage(response: ListResponse, prefix: string, startAfter: Option<Key>)
    returns (r: Result<KeyPage, StorageError>)
    ensures r.Success? ==> Spells(response, r.value) && ValidPage(r.value, prefix, startAfter)
    ensures r.Failure? ==> !exists page :: Spells(response, page) && ValidPage(page, prefix, startAfter)
  {
    var keys: seq<Key> := [];
    var previous: Option<Key> := None;
    for i := 0 to |response.contents|
      invariant |keys| == i
      invariant forall j | 0 <= j < i :: response.contents[j] == Some(keys[j])
      invariant ValidKeys(keys, prefix, startAfter)
      invariant previous == if i == 0 then None else Some(keys[i - 1])
    {
      var item := response.contents[i];
      if item.None? {
        return Failure(MissingKey);
      }
      var key := item.value;
      if !(prefix <= key) {
        assert forall page | Spells(response, page) :: page.keys[i] == key && key in page.keys;
        return Failure(OutsidePrefix);
      }
      if startAfter.Some? && !Less(startAfter.value, key) {
        assert forall page | Spells(response, page) :: page.keys[i] == key && key in page.keys;
        return Failure(NotPastCursor);
      }
      if previous.Some? && !Less(previous.value, key) {
        forall page | Spells(response, page)
          ensures !ValidPage(page, prefix, startAfter)
        {
          assert page.keys[i - 1] == previous.value && page.keys[i] == key;
        }
        return Failure(NotAscending);
      }
      AscendingAppend(keys, [key]);
      keys := keys + [key];
      previous := Some(key);
    }
    if response.isTruncated && keys == [] {
      return Failure(EmptyTruncatedPage);
    }
    return Success(KeyPage(keys, response.isTruncated));
  }

  // ----- accounting for a bulk delete -----

  /** Every key the service answered for, in the order it answered. */
  ghost function Answered(response: DeleteResponse): seq<Option<Key>> {
    response.deleted + ErrorKeys(response.errors)
  }

  ghost function ErrorKeys(errors: seq<ErrorItem>): (keys: seq<Option<Key>>)
    ensures |keys| == |errors|
  {
    seq(|errors|, i requires 0 <= i < |errors| => errors[i].key)
  }

  ghost predicate Distinct<T>(s: seq<T>) {
    forall i, j | 0 <= i < j < |s| :: s[i] != s[j]
  }

  /** The answer names each requested key exactly once and no other. */
  ghost predicate NamesEachOnce(response: DeleteResponse, keys: seq<Key>) {
    && Distinct(Answered(response))
    && (forall k | k in Answered(response) :: k.Some? && k.value in keys)
    && (forall k | k in keys :: Some(k) in Answered(response))
  }

  /** Each requested key is reported as deleted or as failed, once, and no other key is. */
  ghost predicate Splits(outcome: DeleteOutcome, keys: seq<Key>) {
    && multiset(outcome.deleted) + multiset(outcome.failures) == multiset(keys)
    && Distinct(outcome.deleted + outcome.failures)
  }

  lemma {:induction false} DistinctSize<T>(s: seq<T>)
    ensures |set x | x in s| <= |s|
    ensures Distinct(s) <==> |set x | x in s| == |s|
  {
    if s == [] {
      assert (set x | x in s) == {};
    } else {
      var front, last := s[..|s| - 1], s[|s| - 1];
      DistinctSize(front);
      assert s == front + [last];
      assert (set x | x in s) == (set x | x in front) + {last};
      if last in front {
        assert (set x | x in s) == (set x | x in front);
      }
      assert forall i, j | 0 <= i < j < |front| :: front[i] == s[i] && front[j] == s[j];
      assert Distinct(s) <==> Distinct(front) && last !in front;
    }
  }

  lemma {:induction false} DistinctMultiset<T>(s: seq<T>, t: seq<T>)
    requires Distinct(s) && Distinct(t)
    requires forall x :: x in s <==> x in t
    ensures multiset(s) == multiset(t)
  {
    forall x
      ensures multiset(s)[x] == multiset(t)[x]
    {
      DistinctOnce(s, x);
      DistinctOnce(t, x);
    }
  }

  lemma {:induction false} DistinctOnce<T>(s: seq<T>, x: T)
    requires Distinct(s)
    ensures multiset(s)[x] == if x in s then 1 else 0
  {
    if s == [] {
    } else {
      assert s == [s[0]] + s[1..];
      DistinctOnce(s[1..], x);
    }
  }

  lemma SubsetOfSameSize<T>(a: set<T>, b: set<T>)
    requires a <= b
    ensures |a| <= |b|
    ensures |a| == |b| <==> a == b
  {
    assert b == a + (b - a);
    assert |b| == |a| + |b - a|;
  }

  lemma {:induction false} MultisetDistinct<T>(s: seq<T>, t: seq<T>)
    requires Distinct(t) && multiset(s) == multiset(t)
    ensures Distinct(s)
  {
    forall i, j | 0 <= i < j < |s|
      ensures s[i] != s[j]
    {
      DistinctOnce(t, s[j]);
      assert s == s[..j] + s[j..];
      assert multiset(s)[s[j]] == multiset(s[..j])[s[j]] + multiset(s[j..])[s[j]];
      assert s[j] == s[j..][0] && s[j] in s[j..];
      assert s[j] !in s[..j];
      assert s[i] == s[..j][i];
    }
  }

  /** The names read so far are the first answers. */
  ghost predicate ReadSoFar(names: seq<Key>, answered: seq<Option<Key>>, keys: seq<Key>) {
    && |names| <= |answered|
    && (forall j | 0 <= j < |names| :: answered[j] == Some(names[j]))
    && Distinct(names)
    && forall k | k in names :: k in keys
  }

  /** One unnamed, unrequested or repeated answer spoils the response. */
  lemma SpoiledAnswer(response: DeleteResponse, keys: seq<Key>, names: seq<Key>)
    requires ReadSoFar(names, Answered(response), keys) && |names| < |Answered(response)|
    requires var next := Answered(response)[|names|];
             next.None? || next.value !in keys || next.value in names
    ensures !NamesEachOnce(response, keys)
  {
    var answered := Answered(response);
    assert answered[|names|] in answered;
    if answered[|names|].Some? && answered[|names|].value in names {
      var j :| 0 <= j < |names| && names[j] == answered[|names|].value;
      assert answered[j] == answered[|names|];
    }
  }

  /** A fresh requested name extends what was read. */
  lemma FreshAnswer(answered: seq<Option<Key>>, keys: seq<Key>, names: seq<Key>, key: Key)
    requires ReadSoFar(names, answered, keys) && |names| < |answered|
    requires answered[|names|] == Some(key) && key in keys && key !in names
    ensures ReadSoFar(names + [key], answered, keys)
    ensures Elements(names + [key]) == Elements(names) + {key}
  {
  }

  /** Once every answer is a fresh requested key, counting them decides. */
  lemma CountingDecides(response: DeleteResponse, keys: seq<Key>, names: seq<Key>)
    requires Distinct(keys)
    requires ReadSoFar(names, Answered(response), keys) && |names| == |Answered(response)|
    ensures |names| == |keys| <==> NamesEachOnce(response, keys)
    ensures |names| == |keys| ==> multiset(names) == multiset(keys)
  {
    var answered := Answered(response);
    assert forall k :: k in names <==> Some(k) in answered by {
      forall k | Some(k) in answered ensures k in names {
        var j :| 0 <= j < |answered| && answered[j] == Some(k);
        assert names[j] == k;
      }
      forall k | k in names ensures Some(k) in answered {
        var j :| 0 <= j < |names| && names[j] == k;
        assert answered[j] == Some(k);
      }
    }
    DistinctSize(names);
    DistinctSize(keys);
    SubsetOfSameSize(Elements(names), Elements(keys));
    if |names| == |keys| {
      assert forall k :: (k in names <==> k in Elements(names)) && (k in keys <==> k in Elements(keys));
      DistinctMultiset(names, keys);
    }
    assert (forall k | k in keys :: k in names) <==> Elements(keys) <= Elements(names);
    assert forall k | k in answered :: k.Some? && k.value in keys;
  }

  lemma AllAccounted(response: DeleteResponse, keys: seq<Key>, names: seq<Key>, accounted: set<Key>,
                     deleted: seq<Key>, failures: seq<Key>)
    requires Distinct(keys)
    requires ReadSoFar(names, Answered(response), keys) && |names| == |Answered(response)|
    requires accounted == Elements(names) && multiset(deleted) + multiset(failures) == multiset(names)
    ensures |accounted| == |keys| <==> NamesEachOnce(response, keys)
    ensures |accounted| == |keys| ==> Splits(DeleteOutcome(deleted, failures), keys)
  {
    CountingDecides(response, keys, names);
    DistinctSize(names);
    MultisetDistinct(deleted + failures, names);
  }

  /** An absent key counts as deleted. */
  predicate AlreadyGone(item: ErrorItem) {
    item.code == "NoSuchKey"
  }

  /** The keys reported as errors other than an absent key, in the order reported. */
  ghost function FailedKeys(errors: seq<ErrorItem>): seq<Key> {
    if errors == [] then []
    else
      var last := errors[|errors| - 1];
      FailedKeys(errors[..|errors| - 1])
      + if last.key.Some? && !AlreadyGone(last) then [last.key.value] else []
  }

  /** Some error item names this key, with a code other than that of an absent key. */
  ghost predicate ReportedAs(errors: seq<ErrorItem>, key: Key) {
    exists item :: item in errors && item.key == Some(key) && item.code != "NoSuchKey"
  }

  lemma {:induction false} FailedKeysExact(errors: seq<ErrorItem>)
    ensures forall k :: k in FailedKeys(errors) <==> ReportedAs(errors, k)
  {
    if errors == [] {
    } else {
      var front, last := errors[..|errors| - 1], errors[|errors| - 1];
      FailedKeysExact(front);
      assert forall item :: item in errors <==> item in front || item == last;
      assert last in errors;
    }
  }

  lemma NoErrors(errors: seq<ErrorItem>)
    ensures FailedKeys(errors[..0]) == []
  {
  }

  lemma NextError(errors: seq<ErrorItem>, i: nat)
    requires i < |errors| && errors[i].key.Some?
    ensures FailedKeys(errors[..i + 1]) ==
            FailedKeys(errors[..i]) + if !AlreadyGone(errors[i]) then [errors[i].key.value] else []
  {
    assert errors[..i + 1][..i] == errors[..i];
  }

  /** Account for one answered key: it must be named, requested, and not accounted for yet. */
  method Account(keys: seq<Key>, accounted: set<Key>, item: Option<Key>,
                 ghost response: DeleteResponse, ghost names: seq<Key>)
    returns (key: Option<Key>)
    requires ReadSoFar(names, Answered(response), keys) && accounted == Elements(names)
    requires |names| < |Answered(response)| && Answered(response)[|names|] == item
    ensures key.Some? ==> key == item
    ensures key.Some? ==> ReadSoFar(names + [key.value], Answered(response), keys)
    ensures key.Some? ==> accounted + {key.value} == Elements(names + [key.value])
    ensures key.None? ==> !NamesEachOnce(response, keys)
  {
    if item.None? || item.value !in keys || item.value in accounted {
      SpoiledAnswer(response, keys, names);
      return None;
    }
    FreshAnswer(Answered(response), keys, names, item.value);
    return item;
  }

  /** The first pass of the accounting, over the keys reported as deleted. */
  method AccountDeleted(keys: seq<Key>, response: DeleteResponse) returns (deleted: Option<seq<Key>>)
    ensures deleted.None? ==> !NamesEachOnce(response, keys)
    ensures deleted.Some? ==>
              ReadSoFar(deleted.value, Answered(response), keys) && |deleted.value| == |response.deleted|
  {
    var accounted: set<Key>, names: seq<Key> := {}, [];
    for i := 0 to |response.deleted|
      invariant |names| == i
      invariant ReadSoFar(names, Answered(response), keys) && accounted == Elements(names)
    {
      var key := Account(keys, accounted, response.deleted[i], response, names);
      if key.None? {
        return None;
      }
      accounted, names := accounted + {key.value}, names + [key.value];
    }
    return Some(names);
  }

  lemma Counted(deleted: seq<Key>, failures: seq<Key>, names: seq<Key>, key: Key)
    requires multiset(deleted) + multiset(failures) == multiset(names)
    ensures multiset(deleted + [key]) + multiset(failures) == multiset(names + [key])
    ensures multiset(deleted) + multiset(failures + [key]) == multiset(names + [key])
  {
  }

  /** The second pass, over the keys reported as errors. */
  method AccountErrors(keys: seq<Key>, response: DeleteResponse, first: seq<Key>)
    returns (outcome: Option<DeleteOutcome>, accounted: set<Key>, ghost names: seq<Key>)
    requires ReadSoFar(first, Answered(response), keys) && |first| == |response.deleted|
    ensures outcome.None? ==> !NamesEachOnce(response, keys)
    ensures outcome.Some? ==>
              && ReadSoFar(names, Answered(response), keys) && |names| == |Answered(response)|
              && accounted == Elements(names)
              && multiset(outcome.value.deleted) + multiset(outcome.value.failures) == multiset(names)
              && outcome.value.failures == FailedKeys(response.errors)
  {
    var deleted: seq<Key>, failures: seq<Key> := first, [];
    accounted, names := (set k | k in first), first;
    assert accounted == Elements(names);
    hide ReadSoFar, Elements, NamesEachOnce, FailedKeys, AlreadyGone;
    assert FailedKeys(response.errors[..0]) == [] by { NoErrors(response.errors); }
    for i := 0 to |response.errors|
      invariant |names| == |response.deleted| + i
      invariant ReadSoFar(names, Answered(response), keys) && accounted == Elements(names)
      invariant multiset(deleted) + multiset(failures) == multiset(names)
      invariant failures == FailedKeys(response.errors[..i])
    {
      var item := response.errors[i];
      var key := Account(keys, accounted, item.key, response, names);
      if key.None? {
        outcome := None;
        return;
      }
      Counted(deleted, failures, names, key.value);
      accounted, names := accounted + {key.value}, names + [key.value];
      if AlreadyGone(item) {
        deleted := deleted + [key.value];
      } else {
        failures := failures + [key.value];
      }
      NextError(response.errors, i);
    }
    assert response.errors[..|response.errors|] == response.errors;
    outcome := Some(DeleteOutcome(deleted, failures));
  }

  /**
   * A bulk-delete answer is accepted exactly when it names each requested key once. The accepted
   * outcome splits the batch, and the failures are the reported errors other than absent keys.
   */
  method ReadDeleteResponse(keys: seq<Key>, response: DeleteResponse)
    returns (r: Result<DeleteOutcome, StorageError>)
    requires Distinct(keys)
    ensures r.Success? <==> NamesEachOnce(response, keys)
    ensures r.Success? ==> Splits(r.value, keys) && r.value.failures == FailedKeys(response.errors)
    ensures r.Success? ==> forall k :: k in r.value.failures <==> ReportedAs(response.errors, k)
  {
    FailedKeysExact(response.errors);
    hide FailedKeys, ReportedAs;
    var first := AccountDeleted(keys, response);
    if first.None? {
      return Failure(ProtocolAmbiguity);
    }
    var outcome, accounted, names := AccountErrors(keys, response, first.value);
    if outcome.None? {
      return Failure(ProtocolAmbiguity);
    }
    AllAccounted(response, keys, names, accounted, outcome.value.deleted, outcome.value.failures);
    if |accounted| != |keys| {
      return Failure(ProtocolAmbiguity);
    }
    return Success(outcome.value);
  }
}
