/** Public URLs of stored objects, and the way back from a requested path to the object's key. */
module PublicObjects {
  import opened Wrappers
  import opened Utf16
  import opened UriComponent
  import opened Segments

  const MAX_OBJECT_KEY_UTF8_BYTES: nat := 1024

  datatype KeyError = EmptyOrAbsolute | TooLong | UnsafeSegment | LoneSurrogate

  // ----- from key to URL -----

  /** ! ' ( ) * */
  predicate SegmentMark(u: int) {
    u in {0x21, 0x27, 0x28, 0x29, 0x2A}
  }

  function EncodePathSegment(segment: Text): Option<Text> {
    match EncodeUriComponent(segment)
    case None => None
    case Some(t) => Some(EscapeAgain(t, SegmentMark))
  }

  function EncodeAll(segments: seq<Text>): (r: Option<seq<Text>>)
    ensures r.Some? ==> |r.value| == |segments|
  {
    if segments == [] then Some([])
    else
      match (EncodePathSegment(segments[0]), EncodeAll(segments[1..]))
      case (Some(t), Some(rest)) => Some([t] + rest)
      case _ => None
  }

  predicate Unsafe(segment: Text) {
    segment == [] || IsDots(segment)
  }

  /** `origin` is the configured origin, normalised. */
  function PublicObjectUrl(origin: Text, key: Text): Result<Text, KeyError> {
    if key == [] || key[0] == SLASH || BACKSLASH in key || NUL in key then Failure(EmptyOrAbsolute)
    else if |Utf8(key)| > MAX_OBJECT_KEY_UTF8_BYTES then Failure(TooLong)
    else if exists segment :: segment in Split(key, SLASH) && Unsafe(segment) then Failure(UnsafeSegment)
    else
      match EncodeAll(Split(key, SLASH))
      case None => Failure(LoneSurrogate)
      case Some(encoded) => Success(origin + [SLASH] + Join(encoded, SLASH))
  }

  /** What a key must be, without the order of the checks. */
  predicate ObjectKey(key: Text) {
    && BACKSLASH !in key && NUL !in key
    && (forall segment | segment in Split(key, SLASH) :: !Unsafe(segment) && Paired(segment))
  }

  /** The path under which a key is published. */
  function PathOf(key: Text): Text {
    Join(Escapes(Split(key, SLASH)), SLASH)
  }

  function Escapes(segments: seq<Text>): (r: seq<Text>)
    ensures |r| == |segments|
  {
    if segments == [] then [] else [Escape(segments[0], Unreserved)] + Escapes(segments[1..])
  }

  lemma SegmentEncoded(segment: Text)
    ensures EncodePathSegment(segment) == if Paired(segment) then Some(Escape(segment, Unreserved)) else None
  {
    if Paired(segment) {
      TwoPasses(segment, UriKept, SegmentMark, Unreserved);
    }
  }

  lemma {:induction false} AllEncoded(segments: seq<Text>)
    ensures EncodeAll(segments) ==
            if forall segment | segment in segments :: Paired(segment) then Some(Escapes(segments)) else None
  {
    if segments == [] {
    } else {
      hide Paired, EncodePathSegment;
      SegmentEncoded(segments[0]);
      AllEncoded(segments[1..]);
      assert segments == [segments[0]] + segments[1..];
    }
  }

  lemma {:induction false} SplitOfEmptyHead(key: Text)
    ensures key == [] || key[0] == SLASH ==> [] in Split(key, SLASH)
  {
    if key == [] || key[0] == SLASH {
      assert Split(key, SLASH)[0] == [];
    }
  }

  /** A key is published exactly when it is an object key of bounded length, and then at its own path. */
  lemma PublishedExactly(origin: Text, key: Text)
    ensures PublicObjectUrl(origin, key).Success? <==> ObjectKey(key) && |Utf8(key)| <= MAX_OBJECT_KEY_UTF8_BYTES
    ensures PublicObjectUrl(origin, key).Success? ==>
              PublicObjectUrl(origin, key).value == origin + [SLASH] + PathOf(key)
  {
    hide Split, Paired, Utf8, EncodeAll, Join;
    SplitOfEmptyHead(key);
    AllEncoded(Split(key, SLASH));
  }

  // ----- from path to key -----

  function Slashed(t: Text): (r: Text)
    ensures |r| == |t|
    ensures forall i | 0 <= i < |t| :: r[i] == if t[i] == BACKSLASH then SLASH else t[i]
  {
    seq(|t|, i requires 0 <= i < |t| => if t[i] == BACKSLASH then SLASH else t[i])
  }

  lemma NothingToSlash(t: Text)
    requires BACKSLASH !in t
    ensures Slashed(t) == t
  {
  }

  function SafePath(requested: Text): Option<Text> {
    match DecodeUriComponent(requested)
    case None => None
    case Some(decoded) =>
      var slashed := Slashed(decoded);
      var segments := Split(slashed, SLASH);
      if slashed == [] || slashed[0] == SLASH || NUL in slashed ||
         exists segment :: segment in segments && Unsafe(segment)
        then None else Some(Join(segments, SLASH))
  }

  function BeforeQuery(url: Text): Text {
    url[..IndexOf(url, QUERY)]
  }

  function DecodeTimes(t: Text, n: nat): Option<Text>
    decreases n
  {
    if n == 0 then Some(t)
    else
      match DecodeUriComponent(t)
      case None => None
      case Some(next) => DecodeTimes(next, n - 1)
  }

  predicate NoTraversal(decoded: Text) {
    NUL !in decoded && forall segment | segment in Split(Slashed(decoded), SLASH) :: !IsDots(segment)
  }

  predicate RawAllowed(raw: Text) {
    match DecodeTimes(BeforeQuery(raw), 3)
    case None => false
    case Some(decoded) => NoTraversal(decoded)
  }

  function SafeRelative(requested: Text, raw: Option<Text>): Option<Text> {
    if raw.Some? && raw.value != [] && !RawAllowed(raw.value) then None else SafePath(requested)
  }

  lemma {:induction false} SettledText(t: Text, n: nat)
    requires DecodeUriComponent(t) == Some(t)
    ensures DecodeTimes(t, n) == Some(t)
  {
    if n == 0 {
    } else {
      SettledText(t, n - 1);
    }
  }

  /** The loop may stop early, at text that decodes to itself, without deciding differently. */
  method SafePublicRelativePath(requested: Text, raw: Option<Text>) returns (r: Option<Text>)
    ensures r == SafeRelative(requested, raw)
  {
    hide SafePath, NoTraversal, DecodeUriComponent, BeforeQuery;
    if raw.Some? && raw.value != [] {
      var decoded := BeforeQuery(raw.value);
      ghost var goal := DecodeTimes(decoded, 3);
      var pass := 0;
      while pass < 3
        invariant 0 <= pass <= 3 && DecodeTimes(decoded, 3 - pass) == goal
                  && goal == DecodeTimes(BeforeQuery(raw.value), 3)
      {
        var next := DecodeUriComponent(decoded);
        if next.None? {
          return None;
        }
        if next.value == decoded {
          SettledText(decoded, 3 - pass);
          break;
        }
        decoded := next.value;
        pass := pass + 1;
      }
      assert goal == Some(decoded);
      if !NoTraversal(decoded) {
        return None;
      }
    }
    r := SafePath(requested);
  }

  // ----- the two together -----

  lemma JoinedEscapes(segments: seq<Text>)
    requires |segments| > 1
    ensures Join(Escapes(segments), SLASH) ==
              Escape(segments[0], Unreserved) + ([SLASH] + Join(Escapes(segments[1..]), SLASH))
    ensures Join(segments, SLASH) == segments[0] + ([SLASH] + Join(segments[1..], SLASH))
  {
    hide Escape, Join;
    JoinStep(segments, SLASH);
    assert Escapes(segments)[0] == Escape(segments[0], Unreserved) && Escapes(segments)[1..] == Escapes(segments[1..]);
    JoinStep(Escapes(segments), SLASH);
  }

  /** One segment and its slash in front of a tail that decodes with `later` in front. */
  lemma SegmentDecodes(segment: Text, tail: Text, later: Text, rest: Option<Text>)
    requires Paired(segment) && DecodeUriComponent(tail) == Prepend(later, rest)
    ensures DecodeUriComponent(Escape(segment, Unreserved) + ([SLASH] + tail)) ==
              Prepend(segment + ([SLASH] + later), rest)
  {
    hide Paired, Escape, DecodeUriComponent, Prepend;
    DecodeEscaped(segment, [SLASH] + tail, Unreserved);
    DecodePlain([SLASH], tail);
    PrependTwice([SLASH], later, rest);
    PrependTwice(segment, [SLASH] + later, rest);
  }

  lemma LaterPaired(segments: seq<Text>)
    requires |segments| > 1 && forall segment | segment in segments :: Paired(segment)
    ensures forall segment | segment in segments[1..] :: Paired(segment)
  {
    hide Paired;
  }

  lemma {:induction false} PathDecodes(segments: seq<Text>, rest: Text)
    requires segments != [] && forall segment | segment in segments :: Paired(segment)
    ensures DecodeUriComponent(Join(Escapes(segments), SLASH) + rest) ==
              Prepend(Join(segments, SLASH), DecodeUriComponent(rest))
  {
    hide Paired, Escape, DecodeUriComponent, Prepend;
    if |segments| == 1 {
      DecodeEscaped(segments[0], rest, Unreserved);
    } else {
      hide Join, Escapes;
      JoinedEscapes(segments);
      LaterPaired(segments);
      PathDecodes(segments[1..], rest);
      var tail := Join(Escapes(segments[1..]), SLASH);
      SegmentDecodes(segments[0], tail + rest, Join(segments[1..], SLASH), DecodeUriComponent(rest));
      RegroupTail(Escape(segments[0], Unreserved), [SLASH], tail, rest);
    }
  }

  lemma RegroupTail(a: Text, b: Text, c: Text, d: Text)
    ensures (a + (b + c)) + d == a + (b + (c + d))
  {
  }

  lemma KeyPathDecodes(key: Text, rest: Text)
    requires ObjectKey(key)
    ensures DecodeUriComponent(PathOf(key) + rest) == Prepend(key, DecodeUriComponent(rest))
  {
    hide Split, Join, Paired, DecodeUriComponent;
    PathDecodes(Split(key, SLASH), rest);
    JoinSplit(key, SLASH);
  }

  lemma DecodeNothing(t: Text)
    ensures Prepend(t, DecodeUriComponent([])) == Some(t)
  {
    assert t + [] == t;
  }

  /** Requesting the path under which a key is published gives back the key. */
  lemma PathRoundTrip(key: Text)
    requires ObjectKey(key)
    ensures SafePath(PathOf(key)) == Some(key)
  {
    hide Split, Join, Paired, DecodeUriComponent, PathOf;
    KeyPathDecodes(key, []);
    assert PathOf(key) + [] == PathOf(key);
    DecodeNothing(key);
    NothingToSlash(key);
    SplitOfEmptyHead(key);
    JoinSplit(key, SLASH);
  }

  /** So no two keys share a URL. */
  lemma UrlsDistinct(origin: Text, a: Text, b: Text)
    requires PublicObjectUrl(origin, a).Success? && PublicObjectUrl(origin, a) == PublicObjectUrl(origin, b)
    ensures a == b
  {
    hide PublicObjectUrl, ObjectKey, SafePath, PathOf;
    PublishedExactly(origin, a);
    PublishedExactly(origin, b);
    var front := origin + [SLASH];
    assert (front + PathOf(a))[|front|..] == PathOf(a) && (front + PathOf(b))[|front|..] == PathOf(b);
    PathRoundTrip(a);
    PathRoundTrip(b);
  }

  predicate PathKept(u: int) {
    Unreserved(u) || u == SLASH
  }

  lemma {:induction false} JoinEscaped(segments: seq<Text>)
    requires segments != []
    ensures Escaped(Join(Escapes(segments), SLASH), PathKept)
  {
    hide Escape;
    EscapeEscapes(segments[0], Unreserved);
    var first := Escape(segments[0], Unreserved);
    KeepMore(first, Unreserved, PathKept);
    if |segments| > 1 {
      JoinEscaped(segments[1..]);
      JoinedEscapes(segments);
      hide Join, Escapes;
      var rest := Join(Escapes(segments[1..]), SLASH);
      assert ([SLASH] + rest)[1..] == rest;
      EscapedConcat(first, [SLASH] + rest, PathKept);
    }
  }

  /** A published path consists of unreserved characters, escapes and slashes. */
  lemma PathCharacters(key: Text)
    ensures Escaped(PathOf(key), PathKept)
  {
    JoinEscaped(Split(key, SLASH));
  }

  lemma {:induction false} EscapedUnits(t: Text, kept: Kept, u: Unit)
    requires Escaped(t, kept) && u in t
    ensures (u < 0x80 && kept(u)) || u == PERCENT || UpperHex(u)
    decreases |t|
  {
    if t[0] < 0x80 && kept(t[0]) && Escaped(t[1..], kept) {
      assert t == [t[0]] + t[1..];
      if u != t[0] {
        EscapedUnits(t[1..], kept, u);
      }
    } else {
      assert t == [t[0], t[1], t[2]] + t[3..];
      if u in t[3..] {
        EscapedUnits(t[3..], kept, u);
      }
    }
  }

  /** A proxy that rewrites empty or dot segments before decoding finds none to rewrite. */
  lemma NothingToNormalise(key: Text)
    requires ObjectKey(key)
    ensures Split(PathOf(key), SLASH) == Escapes(Split(key, SLASH))
    ensures forall segment | segment in Split(PathOf(key), SLASH) :: !Unsafe(segment)
  {
    hide Split, Join, Escape, Paired, Escaped;
    var segments := Split(key, SLASH);
    forall i | 0 <= i < |segments|
      ensures Escapes(segments)[i] == Escape(segments[i], Unreserved)
      ensures SLASH !in Escapes(segments)[i] && !Unsafe(Escapes(segments)[i])
    {
      EscapesAt(segments, i);
      SafeStaysSafe(segments[i]);
    }
    SplitJoin(Escapes(segments), SLASH);
  }

  lemma {:induction false} EscapesAt(segments: seq<Text>, i: nat)
    requires i < |segments|
    ensures Escapes(segments)[i] == Escape(segments[i], Unreserved)
  {
    if i == 0 {
    } else {
      EscapesAt(segments[1..], i - 1);
    }
  }

  lemma SafeStaysSafe(segment: Text)
    requires Paired(segment) && !Unsafe(segment)
    ensures SLASH !in Escape(segment, Unreserved) && !Unsafe(Escape(segment, Unreserved))
  {
    hide Paired, Escape, Escaped, DecodeUriComponent;
    var t := Escape(segment, Unreserved);
    EscapeEscapes(segment, Unreserved);
    if SLASH in t {
      EscapedUnits(t, Unreserved, SLASH);
    }
    RoundTrip(segment, Unreserved);
    if Unsafe(t) {
      UnsafeDecodesToItself(t);
    }
  }

  lemma UnsafeDecodesToItself(segment: Text)
    requires Unsafe(segment)
    ensures DecodeUriComponent(segment) == Some(segment)
  {
    hide DecodeUriComponent;
    DecodePlain(segment, []);
    assert segment + [] == segment;
    DecodeNothing(segment);
  }

  /** Whatever is let through has the shape of a key: no dot segments, backslashes, NULs or leading slash. */
  lemma SafePathsAreKeys(requested: Text)
    requires SafePath(requested).Some?
    ensures var key := SafePath(requested).value;
            && key != [] && key[0] != SLASH && BACKSLASH !in key && NUL !in key
            && forall segment | segment in Split(key, SLASH) :: !Unsafe(segment)
  {
    hide Split, Join, DecodeUriComponent;
    var decoded := DecodeUriComponent(requested).value;
    JoinSplit(Slashed(decoded), SLASH);
  }

  // ----- with the raw URL at hand -----

  lemma BeforeQueryOf(path: Text, query: Text)
    requires QUERY !in path && (query == [] || query[0] == QUERY)
    ensures BeforeQuery(path + query) == path
  {
    if query == [] {
      assert path + query == path;
      IndexOfMissing(path, QUERY);
    } else {
      assert query == [QUERY] + query[1..];
      assert path + query == path + [QUERY] + query[1..];
      IndexOfFirst(path, QUERY, query[1..]);
    }
  }

  /**
   * The raw URL of a published path is decoded twice more than the path: the key comes back exactly when what is
   * left after that has no dot segments and no NUL.
   */
  lemma OwnRawUrl(prefix: Text, key: Text, query: Text)
    requires ObjectKey(key) && PERCENT !in prefix && QUERY !in prefix && (query == [] || query[0] == QUERY)
    requires prefix != []
    ensures SafeRelative(PathOf(key), Some(prefix + PathOf(key) + query)) ==
            match DecodeTimes(prefix + key, 2)
            case None => None
            case Some(decoded) => if NoTraversal(decoded) then Some(key) else None
  {
    hide DecodeUriComponent, SafePath, ObjectKey, NoTraversal, PathOf, BeforeQuery;
    var path := PathOf(key);
    PathRoundTrip(key);
    PathCharacters(key);
    if QUERY in path {
      EscapedUnits(path, PathKept, QUERY);
    }
    BeforeQueryOf(prefix + path, query);
    DecodePlain(prefix, path);
    KeyPathDecodes(key, []);
    assert path + [] == path;
    DecodeNothing(key);
    assert DecodeUriComponent(prefix + path) == Some(prefix + key);
    assert DecodeTimes(prefix + path, 3) == DecodeTimes(prefix + key, 2);
  }

  /** A key without percent signs always comes back, raw URL or not. */
  lemma PlainKeyComesBack(mount: Text, key: Text, query: Text)
    requires ObjectKey(key) && PERCENT !in key && (query == [] || query[0] == QUERY)
    requires PERCENT !in mount && QUERY !in mount && NoTraversal(mount)
    ensures SafeRelative(PathOf(key), Some(mount + [SLASH] + PathOf(key) + query)) == Some(key)
  {
    hide DecodeUriComponent, SafePath, PathOf, Split;
    var whole := mount + [SLASH] + key;
    OwnRawUrl(mount + [SLASH], key, query);
    DecodePlain(whole, []);
    assert whole + [] == whole;
    DecodeNothing(whole);
    SettledText(whole, 2);
    assert Slashed(whole) == Slashed(mount) + [SLASH] + Slashed(key);
    NothingToSlash(key);
    SplitBoth(Slashed(mount), SLASH, key);
  }

  /** But a key with a percent sign may be refused once the raw URL is looked at: the key "%" is one. */
  lemma PercentKeyRefused()
    ensures ObjectKey([PERCENT]) && |Utf8([PERCENT])| <= MAX_OBJECT_KEY_UTF8_BYTES
    ensures SafeRelative(PathOf([PERCENT]), None) == Some([PERCENT])
    ensures SafeRelative(PathOf([PERCENT]), Some([SLASH] + PathOf([PERCENT]))) == None
  {
    var key: Text := [PERCENT];
    assert key[1..] == [];
    assert Utf8(key) == Octets(PERCENT) + Utf8([]);
    assert Split(key, SLASH) == [key];
    assert ObjectKey(key);
    PathRoundTrip(key);
    OwnRawUrl([SLASH], key, []);
    assert [SLASH] + PathOf(key) + [] == [SLASH] + PathOf(key);
    DecodePlain([SLASH], key);
    assert DecodeUriComponent(key) == None;
  }
}
