/** Request-target parsing (httpd/http_uri_parser.cpp, httpd/http_uri.h). */
module UriParser {
  import opened Sequences
  import opened PercentCoding
  import PathNormalize

  type Params = seq<(Bytes, Bytes)>

  class HttpUri {
    var target: Bytes
    var rawPath: Bytes
    var decodedPath: Bytes
    var rawQuery: Bytes
    var queryParams: Params

    constructor ()
      ensures IsClear()
    {
      target, rawPath, decodedPath, rawQuery, queryParams := [], [], [], [], [];
    }

    predicate IsClear()
      reads this
    {
      target == [] && rawPath == [] && decodedPath == [] && rawQuery == [] && queryParams == []
    }

    method Clear()
      modifies this
      ensures IsClear()
    {
      target, rawPath, decodedPath, rawQuery, queryParams := [], [], [], [], [];
    }
  }

  // ---------------------------------------------------------------- what is parsed

  /** The place of the first c, or the length. */
  function Find(s: Bytes, c: Byte): (i: nat)
    ensures i <= |s| && c !in s[..i] && (i < |s| ==> s[i] == c)
  {
    if s == [] || s[0] == c then 0 else 1 + Find(s[1..], c)
  }

  function RawPath(target: Bytes): Bytes {
    target[..Find(target, QUESTION)]
  }

  function RawQuery(target: Bytes): Bytes {
    var i := Find(target, QUESTION);
    if i == |target| then [] else target[i + 1..]
  }

  function DecodeAll(segments: seq<Bytes>, flags: Flags): (decoded: seq<Bytes>)
    ensures |decoded| == |segments|
  {
    seq(|segments|, i requires 0 <= i < |segments| => Decode(segments[i], flags).text)
  }

  /** The path, decoded segment by segment. */
  function DecodedPath(raw: Bytes): Bytes {
    Join(DecodeAll(Split(raw, SLASH), PATH_FLAGS), SLASH)
  }

  function Pair(token: Bytes): (Bytes, Bytes) {
    var i := Find(token, EQUALS);
    if i == |token| then (DecodeOrEmpty(token, QUERY_FLAGS), [])
    else (DecodeOrEmpty(token[..i], QUERY_FLAGS), DecodeOrEmpty(token[i + 1..], QUERY_FLAGS))
  }

  function Pairs(tokens: seq<Bytes>): (pairs: Params)
    ensures |pairs| == |tokens|
  {
    seq(|tokens|, i requires 0 <= i < |tokens| => Pair(tokens[i]))
  }

  function QueryPairs(raw: Bytes): Params {
    Pairs(Tokens(raw, AMPERSAND))
  }

  // ---------------------------------------------------------------- the code

  /** `find` of one character. */
  method FindByte(s: Bytes, c: Byte) returns (i: nat)
    ensures i == Find(s, c)
  {
    i := 0;
    assert s[0..] == s;
    while i < |s| && s[i] != c
      invariant i <= |s| && i + Find(s[i..], c) == Find(s, c)
    {
      assert s[i..][1..] == s[i + 1..];
      i := i + 1;
    }
  }

  /** Parsing never fails, and fills every field. */
  method Parse(target: Bytes, uri: HttpUri) returns (ok: bool)
    modifies uri
    ensures ok
    ensures uri.target == target && uri.rawPath == RawPath(target) && uri.rawQuery == RawQuery(target)
    ensures uri.decodedPath == DecodedPath(RawPath(target))
    ensures uri.queryParams == QueryPairs(RawQuery(target))
    ensures 0x3F !in target ==> uri.rawPath == target && uri.rawQuery == [] && uri.queryParams == []
  {
    uri.Clear();
    uri.target := target;
    EmptyParses();
    RawPathOf(target, []);
    if target == [] {
      return true;
    }
    var qpos := FindByte(target, QUESTION);
    if qpos == |target| {
      uri.rawPath := target;
    } else {
      uri.rawPath := target[..qpos];
      uri.rawQuery := target[qpos + 1..];
    }
    assert uri.rawPath == RawPath(target);
    if uri.rawPath != [] {
      var parsed := ParsePath(uri);
      if !parsed {
        return false;
      }
    }
    if uri.rawQuery != [] {
      var parsed := ParseQuery(uri);
      if !parsed {
        return false;
      }
    }
    return true;
  }

  lemma EmptyParses()
    ensures DecodedPath([]) == [] && QueryPairs([]) == []
  {
    assert Split([], SLASH) == [[]];
    assert DecodeAll([[]], PATH_FLAGS) == [[]];
    TokensOfEmpty(AMPERSAND);
  }

  method ParsePath(uri: HttpUri) returns (ok: bool)
    modifies uri`decodedPath
    ensures ok && uri.decodedPath == DecodedPath(uri.rawPath)
  {
    var segments := Split(uri.rawPath, SLASH);
    ghost var raw := segments;
    for i := 0 to |segments|
      invariant |segments| == |raw|
      invariant segments[i..] == raw[i..]
      invariant segments[..i] == DecodeAll(raw, PATH_FLAGS)[..i]
    {
      var decoded, text := DecodePercent(Some(segments[i]), [], PATH_FLAGS);
      assert segments[i] == segments[i..][0] == raw[i];
      segments := segments[i := text];
      assert segments[i + 1..] == raw[i..][1..];
    }
    assert segments == DecodeAll(raw, PATH_FLAGS);
    uri.decodedPath := Join(segments, SLASH);
    return true;
  }

  method ParseQuery(uri: HttpUri) returns (ok: bool)
    modifies uri`queryParams
    ensures ok && uri.queryParams == old(uri.queryParams) + QueryPairs(uri.rawQuery)
  {
    var tokens := Tokens(uri.rawQuery, AMPERSAND);
    for i := 0 to |tokens|
      invariant uri.queryParams == old(uri.queryParams) + Pairs(tokens)[..i]
    {
      var token := tokens[i];
      var key, value;
      var epos := FindByte(token, EQUALS);
      if epos == |token| {
        key := DecodeQuery(token);
        value := [];
      } else {
        key := DecodeQuery(token[..epos]);
        value := DecodeQuery(token[epos + 1..]);
      }
      uri.queryParams := uri.queryParams + [(key, value)];
    }
    return true;
  }

  // ---------------------------------------------------------------- paths

  predicate AllDecode(segments: seq<Bytes>, flags: Flags) {
    forall i :: 0 <= i < |segments| ==> Decode(segments[i], flags).ok
  }

  /** Decoding joined segments: well-formed exactly when all of them are, and then it is
      joining the decoded segments. */
  lemma {:induction false} DecodeOfJoin(segments: seq<Bytes>, flags: Flags)
    requires segments != []
    ensures var whole := Decode(Join(segments, SLASH), flags);
            whole.ok == AllDecode(segments, flags) &&
            (whole.ok ==> whole.text == Join(DecodeAll(segments, flags), SLASH))
    decreases |segments|
  {
    var all := DecodeAll(segments, flags);
    if |segments| > 1 {
      var rest := segments[1..];
      DecodeOfJoin(rest, flags);
      DecodeAcross(segments[0], SLASH, Join(rest, SLASH), flags);
      assert all[1..] == DecodeAll(rest, flags);
      if AllDecode(rest, flags) && Decode(segments[0], flags).ok {
        forall i | 0 <= i < |segments| ensures Decode(segments[i], flags).ok {
          assert i > 0 ==> segments[i] == rest[i - 1];
        }
      }
    }
  }

  /** A path decodes in one pass exactly when each of its segments does, and then to the same
      text. */
  lemma SegmentwiseIsOnePass(raw: Bytes)
    ensures var whole := Decode(raw, PATH_FLAGS);
            whole.ok == AllDecode(Split(raw, SLASH), PATH_FLAGS) &&
            (whole.ok ==> DecodedPath(raw) == whole.text)
  {
    JoinSplit(raw, SLASH);
    DecodeOfJoin(Split(raw, SLASH), PATH_FLAGS);
  }

  /** Each segment contributes its decoding: of all of it when it is well-formed, of what
      stands before its first bad escape when it is not. */
  lemma SegmentsContribute(raw: Bytes, i: nat)
    requires i < |Split(raw, SLASH)|
    ensures var segment, text := Split(raw, SLASH)[i], DecodeAll(Split(raw, SLASH), PATH_FLAGS)[i];
            (IsEncoding(segment, text, PATH_FLAGS) || IsCutShort(segment, text, PATH_FLAGS))
  {
    var segment := Split(raw, SLASH)[i];
    DecodeIsExact(segment, Decode(segment, PATH_FLAGS).text, PATH_FLAGS);
  }

  /** A slash cuts a path anywhere, malformed segments on either side or not. */
  lemma SlashCuts(a: Bytes, b: Bytes)
    ensures DecodedPath(a + [0x2F] + b) == DecodedPath(a) + [0x2F] + DecodedPath(b)
  {
    var before, after := Split(a, SLASH), Split(b, SLASH);
    SplitAtSeparator(a, SLASH, b);
    assert DecodeAll(before + after, PATH_FLAGS) == DecodeAll(before, PATH_FLAGS) + DecodeAll(after, PATH_FLAGS);
    JoinOfAppend(DecodeAll(before, PATH_FLAGS), DecodeAll(after, PATH_FLAGS), SLASH);
  }

  lemma {:induction false} JoinOfAppend(a: seq<Bytes>, b: seq<Bytes>, sep: Byte)
    requires a != [] && b != []
    ensures Join(a + b, sep) == Join(a, sep) + [sep] + Join(b, sep)
  {
    assert (a + b)[1..] == a[1..] + b;
    if |a| > 1 {
      JoinOfAppend(a[1..], b, sep);
    }
  }

  /** Paths round-trip: decoding undoes percent encoding that escapes the percent sign, whether
      slashes, plus signs and spaces are escaped too or kept. */
  lemma PathRoundTrip(path: Bytes, keep: set<Byte>)
    requires 0x25 !in keep
    ensures DecodedPath(Encode(path, keep)) == path
  {
    DecodeOfEncode(path, keep, PATH_FLAGS);
    SegmentwiseIsOnePass(Encode(path, keep));
  }

  /** A bad escape costs the rest of its own segment and nothing else. */
  lemma MalformedSegment(before: Bytes, name: Bytes, bad: Bytes, after: Bytes, keep: set<Byte>)
    requires 0x25 !in keep && BadEscape(bad) && 0x2F !in bad
    ensures DecodedPath(Encode(before, keep) + [0x2F] + (Encode(name, keep - {0x2F}) + bad) + [0x2F] +
                        Encode(after, keep)) ==
            before + [0x2F] + name + [0x2F] + after
  {
    var segment := Encode(name, keep - {0x2F}) + bad;
    SlashCuts(Encode(before, keep) + [0x2F] + segment, Encode(after, keep));
    SlashCuts(Encode(before, keep), segment);
    PathRoundTrip(before, keep);
    PathRoundTrip(after, keep);
    CutSegment(name, bad, keep - {0x2F});
  }

  lemma CutSegment(name: Bytes, bad: Bytes, keep: set<Byte>)
    requires 0x25 !in keep && 0x2F !in keep && BadEscape(bad) && 0x2F !in bad
    ensures DecodedPath(Encode(name, keep) + bad) == name
  {
    var head := Encode(name, keep);
    DecodeOfEncode(name, keep, PATH_FLAGS);
    DecodeIsExact(head, name, PATH_FLAGS);
    BadEscapeStops(head, bad, name, PATH_FLAGS);
    EncodeAvoids(name, keep, SLASH);
    SplitWithoutSeparator(head + bad, SLASH);
    assert DecodeAll([head + bad], PATH_FLAGS) == [name];
  }

  // ---------------------------------------------------------------- queries

  lemma {:induction false} FirstAt(before: Bytes, c: Byte, after: Bytes)
    requires c !in before
    ensures Find(before + [c] + after, c) == |before|
  {
    if before != [] {
      FirstAt(before[1..], c, after);
      assert (before + [c] + after)[1..] == before[1..] + [c] + after;
    }
  }

  lemma {:induction false} FindMissing(s: Bytes, c: Byte)
    requires c !in s
    ensures Find(s, c) == |s|
  {
    if s != [] {
      FindMissing(s[1..], c);
    }
  }

  /** A target is cut at its first question mark; without one, it is all path and no query. */
  lemma RawPathOf(path: Bytes, query: Bytes)
    ensures 0x3F !in path ==> RawPath(path) == path && RawQuery(path) == []
    ensures 0x3F !in path ==>
              RawPath(path + [0x3F] + query) == path && RawQuery(path + [0x3F] + query) == query
  {
    if 0x3F in path {
      return;
    }
    var target := path + [QUESTION] + query;
    FirstAt(path, QUESTION, query);
    assert target[..|path|] == path && target[|path| + 1..] == query;
    FindMissing(path, QUESTION);
  }

  /** What a key or a value is read as: the text it encodes, or nothing when it is malformed. */
  ghost predicate ReadsAs(src: Bytes, text: Bytes) {
    IsEncoding(src, text, QUERY_FLAGS) || (text == [] && IsMalformed(src, QUERY_FLAGS))
  }

  ghost predicate SpellsBoth(key: Bytes, value: Bytes, pair: (Bytes, Bytes)) {
    0x3D !in key && ReadsAs(key, pair.0) && ReadsAs(value, pair.1)
  }

  /** What a pair can be written as: a key up to the first equals sign and a value behind it, or
      a key alone, with the empty value. */
  ghost predicate SpellsPair(token: Bytes, pair: (Bytes, Bytes)) {
    (exists key, value :: token == key + [0x3D] + value && SpellsBoth(key, value, pair)) ||
    (0x3D !in token && ReadsAs(token, pair.0) && pair.1 == [])
  }

  lemma ReadExactly(src: Bytes, text: Bytes)
    ensures ReadsAs(src, text) <==> text == DecodeOrEmpty(src, QUERY_FLAGS)
  {
    var d := Decode(src, QUERY_FLAGS);
    DecodeIsExact(src, text, QUERY_FLAGS);
    DecodeIsExact(src, d.text, QUERY_FLAGS);
    if IsMalformed(src, QUERY_FLAGS) {
      var cut :| IsCutShort(src, cut, QUERY_FLAGS);
      DecodeIsExact(src, cut, QUERY_FLAGS);
    }
  }

  lemma PairOfBoth(key: Bytes, value: Bytes)
    requires 0x3D !in key
    ensures Pair(key + [0x3D] + value) == (DecodeOrEmpty(key, QUERY_FLAGS), DecodeOrEmpty(value, QUERY_FLAGS))
  {
    var token := key + [0x3D] + value;
    FirstAt(key, EQUALS, value);
    assert token[..|key|] == key && token[|key| + 1..] == value;
  }

  /** A token is read as exactly the pair it spells. */
  lemma PairIsExact(token: Bytes, pair: (Bytes, Bytes))
    ensures Pair(token) == pair <==> SpellsPair(token, pair)
  {
    if 0x3D in token {
      var i := Find(token, EQUALS);
      assert token == token[..i] + [0x3D] + token[i + 1..];
      PairOfBoth(token[..i], token[i + 1..]);
      ReadExactly(token[..i], pair.0);
      ReadExactly(token[i + 1..], pair.1);
      assert Pair(token) == pair ==> SpellsBoth(token[..i], token[i + 1..], pair);
      forall key, value | token == key + [0x3D] + value && SpellsBoth(key, value, pair) ensures Pair(token) == pair {
        PairOfBoth(key, value);
        ReadExactly(key, pair.0);
        ReadExactly(value, pair.1);
      }
    } else {
      FindMissing(token, EQUALS);
      ReadExactly(token, pair.0);
    }
  }

  /** Query strings round-trip: whatever spells the pairs, joined by ampersands behind any path,
      is read back as the pairs, in order. */
  lemma QueryRoundTrip(path: Bytes, tokens: seq<Bytes>, pairs: Params)
    requires 0x3F !in path && |tokens| == |pairs|
    requires forall i :: 0 <= i < |pairs| ==> tokens[i] != [] && 0x26 !in tokens[i] && SpellsPair(tokens[i], pairs[i])
    ensures var target := path + [0x3F] + Join(tokens, 0x26);
            RawPath(target) == path && QueryPairs(RawQuery(target)) == pairs
  {
    RawPathOf(path, Join(tokens, AMPERSAND));
    forall i | 0 <= i < |tokens| ensures Pair(tokens[i]) == pairs[i] {
      PairIsExact(tokens[i], pairs[i]);
    }
    TokensOfJoin(tokens, AMPERSAND);
    assert Pairs(tokens) == pairs;
  }

  lemma PairsOfAppend(a: seq<Bytes>, b: seq<Bytes>)
    ensures Pairs(a + b) == Pairs(a) + Pairs(b)
  {
  }

  /** An ampersand cuts a query anywhere, and nothing stands for no pair: so leading, trailing and
      doubled ampersands add nothing. */
  lemma AmpersandCuts(a: Bytes, b: Bytes)
    ensures QueryPairs(a + [0x26] + b) == QueryPairs(a) + QueryPairs(b) && QueryPairs([]) == []
  {
    EmptyParses();
    SplitAtSeparator(a, AMPERSAND, b);
    NonEmptyOfAppend(Split(a, AMPERSAND), Split(b, AMPERSAND));
    PairsOfAppend(Tokens(a, AMPERSAND), Tokens(b, AMPERSAND));
  }

  lemma QueryOfToken(token: Bytes, pair: (Bytes, Bytes))
    requires token != [] && 0x26 !in token && SpellsPair(token, pair)
    ensures QueryPairs(token) == [pair]
  {
    SplitWithoutSeparator(token, AMPERSAND);
    NonEmptyOfOne(token);
    PairIsExact(token, pair);
  }

  lemma QueryOfBoth(key: Bytes, value: Bytes, pair: (Bytes, Bytes))
    requires 0x26 !in key && 0x26 !in value && SpellsBoth(key, value, pair)
    ensures QueryPairs(key + [0x3D] + value) == [pair]
  {
    QueryOfToken(key + [0x3D] + value, pair);
  }

  // ---------------------------------------------------------------- written queries

  lemma EncodeReads(text: Bytes, keep: set<Byte>)
    requires {0x25, 0x2B} !! keep
    ensures IsEncoding(Encode(text, keep), text, QUERY_FLAGS) && ReadsAs(Encode(text, keep), text)
  {
    assert 0x25 !in keep && 0x2B !in keep;
    DecodeOfEncode(text, keep, QUERY_FLAGS);
    DecodeIsExact(Encode(text, keep), text, QUERY_FLAGS);
  }

  lemma EncodeIsClean(text: Bytes, keep: set<Byte>)
    requires {0x26, 0x3D} !! keep
    ensures 0x26 !in Encode(text, keep) && 0x3D !in Encode(text, keep)
  {
    assert 0x26 !in keep && 0x3D !in keep;
    EncodeAvoids(text, keep, AMPERSAND);
    EncodeAvoids(text, keep, EQUALS);
  }

  /** Percent encoding with whatever bytes kept as they are besides the delimiters, the percent
      and the plus sign spells a pair, and a key alone. */
  lemma EncodedPairs(pair: (Bytes, Bytes), keep: set<Byte>)
    requires {0x25, 0x2B, 0x26, 0x3D} !! keep
    ensures var key, value := Encode(pair.0, keep), Encode(pair.1, keep);
            SpellsPair(key + [0x3D] + value, pair) && 0x26 !in key + [0x3D] + value &&
            (pair.1 == [] ==> SpellsPair(key, pair))
  {
    EncodeReads(pair.0, keep);
    EncodeReads(pair.1, keep);
    EncodeIsClean(pair.0, keep);
    EncodeIsClean(pair.1, keep);
    assert SpellsBoth(Encode(pair.0, keep), Encode(pair.1, keep), pair);
  }

  /** A plus sign stands for a space. */
  lemma PlusIsSpace(key: Bytes, a: Bytes, b: Bytes, keep: set<Byte>)
    requires {0x25, 0x2B, 0x26, 0x3D} !! keep
    ensures QueryPairs(Encode(key, keep) + [0x3D] + (Encode(a, keep) + [0x2B] + Encode(b, keep))) ==
            [(key, a + [0x20] + b)]
  {
    EncodeReads(key, keep);
    EncodeReads(a, keep);
    EncodeReads(b, keep);
    EncodeIsClean(key, keep);
    EncodeIsClean(a, keep);
    EncodeIsClean(b, keep);
    DecodeIsExact([0x2B], [0x20], QUERY_FLAGS);
    var value := Encode(a, keep) + [0x2B] + Encode(b, keep);
    EncodingsJoin(Encode(a, keep), a, [0x2B], [0x20], QUERY_FLAGS);
    EncodingsJoin(Encode(a, keep) + [0x2B], a + [0x20], Encode(b, keep), b, QUERY_FLAGS);
    QueryOfBoth(Encode(key, keep), value, (key, a + [0x20] + b));
  }

  /** A malformed key or value is read as empty, and the other one as it is. */
  lemma MalformedIsEmpty(key: Bytes, value: Bytes, bad: Bytes, keep: set<Byte>)
    requires {0x25, 0x2B, 0x26, 0x3D} !! keep && BadEscape(bad) && 0x26 !in bad && 0x3D !in bad
    ensures QueryPairs(Encode(key, keep) + [0x3D] + (Encode(value, keep) + bad)) == [(key, [])]
    ensures QueryPairs((Encode(key, keep) + bad) + [0x3D] + Encode(value, keep)) == [([], value)]
    ensures QueryPairs(Encode(key, keep) + bad) == [([], [])]
  {
    EncodeReads(key, keep);
    EncodeReads(value, keep);
    EncodeIsClean(key, keep);
    EncodeIsClean(value, keep);
    MalformedReads(Encode(key, keep), key, bad);
    MalformedReads(Encode(value, keep), value, bad);
    QueryOfMalformed(Encode(key, keep), key, Encode(value, keep), value, bad);
  }

  lemma QueryOfMalformed(k: Bytes, key: Bytes, v: Bytes, value: Bytes, bad: Bytes)
    requires 0x26 !in k && 0x3D !in k && 0x26 !in v && 0x26 !in bad && 0x3D !in bad && bad != []
    requires ReadsAs(k, key) && ReadsAs(v, value) && ReadsAs(k + bad, []) && ReadsAs(v + bad, [])
    ensures QueryPairs(k + [0x3D] + (v + bad)) == [(key, [])]
    ensures QueryPairs((k + bad) + [0x3D] + v) == [([], value)]
    ensures QueryPairs(k + bad) == [([], [])]
  {
    QueryOfBoth(k, v + bad, (key, []));
    QueryOfBoth(k + bad, v, ([], value));
    QueryOfToken(k + bad, ([], []));
  }

  lemma MalformedReads(src: Bytes, text: Bytes, bad: Bytes)
    requires IsEncoding(src, text, QUERY_FLAGS) && BadEscape(bad)
    ensures ReadsAs(src + bad, [])
  {
    BadEscapeStops(src, bad, text, QUERY_FLAGS);
    DecodeIsExact(src + bad, text, QUERY_FLAGS);
  }

  // ---------------------------------------------------------------- whole targets

  /** A pair in writing, or its key alone where that says the same. */
  ghost predicate Writes(token: Bytes, pair: (Bytes, Bytes), keep: set<Byte>) {
    token == Encode(pair.0, keep) + [0x3D] + Encode(pair.1, keep) ||
    (token == Encode(pair.0, keep) != [] && pair.1 == [])
  }

  /** Whole targets round-trip: any path and any list of parameters, percent-encoded and put
      together, come back as they were. */
  lemma TargetRoundTrip(path: Bytes, pathKeep: set<Byte>, pairs: Params, tokens: seq<Bytes>, keep: set<Byte>)
    requires {0x25, 0x3F} !! pathKeep && {0x25, 0x2B, 0x26, 0x3D} !! keep
    requires |tokens| == |pairs| && forall i :: 0 <= i < |pairs| ==> Writes(tokens[i], pairs[i], keep)
    ensures var target := Encode(path, pathKeep) + [0x3F] + Join(tokens, 0x26);
            DecodedPath(RawPath(target)) == path && QueryPairs(RawQuery(target)) == pairs
  {
    assert 0x25 !in pathKeep && 0x3F !in pathKeep;
    EncodeAvoids(path, pathKeep, QUESTION);
    PathRoundTrip(path, pathKeep);
    forall i | 0 <= i < |pairs| ensures tokens[i] != [] && 0x26 !in tokens[i] && SpellsPair(tokens[i], pairs[i]) {
      EncodedPairs(pairs[i], keep);
    }
    QueryRoundTrip(Encode(path, pathKeep), tokens, pairs);
  }

  // ---------------------------------------------------------------- decoded paths and normal form

  const SEPARATOR: char := '/'

  /** Bytes as the characters the path normaliser works on. */
  function AsChars(b: Bytes): (s: string)
    ensures |s| == |b|
  {
    seq(|b|, i requires 0 <= i < |b| => b[i] as char)
  }

  function AllChars(pieces: seq<Bytes>): (names: seq<string>)
    ensures |names| == |pieces|
  {
    seq(|pieces|, i requires 0 <= i < |pieces| => AsChars(pieces[i]))
  }

  lemma PrependChars(b: Byte, parts: seq<Bytes>)
    requires parts != []
    ensures Prepend(b as char, AllChars(parts), SEPARATOR) == AllChars(Prepend(b, parts, SLASH))
  {
    if b == SLASH {
      assert AllChars([[]] + parts) == [AsChars([])] + AllChars(parts);
    } else {
      assert AsChars([b] + parts[0]) == [b as char] + AsChars(parts[0]);
      assert AllChars([[b] + parts[0]] + parts[1..]) == [AsChars([b] + parts[0])] + AllChars(parts)[1..];
    }
  }

  lemma {:induction false} SplitOfChars(b: Bytes)
    ensures Split(AsChars(b), SEPARATOR) == AllChars(Split(b, SLASH))
  {
    if b == [] {
      assert AllChars([[]]) == [[]];
    } else {
      var rest := Split(b[1..], SLASH);
      calc {
        Split(AsChars(b), SEPARATOR);
        { assert AsChars(b)[1..] == AsChars(b[1..]) && AsChars(b)[0] == b[0] as char; }
        Prepend(b[0] as char, Split(AsChars(b[1..]), SEPARATOR), SEPARATOR);
        { SplitOfChars(b[1..]); }
        Prepend(b[0] as char, AllChars(rest), SEPARATOR);
        { PrependChars(b[0], rest); }
        AllChars(Prepend(b[0], rest, SLASH));
      }
    }
  }

  /** A path is in the normaliser's normal form. */
  predicate IsNormal(path: Bytes) {
    PathNormalize.NormalForm(AsChars(path), SEPARATOR)
  }

  /** The names a raw path spells once each of its segments is decoded: a decoded segment is
      cut again where it holds a slash. */
  function SpelledNames(segments: seq<Bytes>): (names: seq<Bytes>)
    ensures |names| >= |segments|
  {
    if segments == [] then []
    else Split(Decode(segments[0], PATH_FLAGS).text, SLASH) + SpelledNames(segments[1..])
  }

  /** Judged by its names: empty, the root, or a path in normal form, absolute when the first
      name is empty. */
  predicate NormalNames(names: seq<Bytes>)
    requires names != []
  {
    names == [[]] || names == [[], []] ||
    if names[0] == [] then PathNormalize.NormalSegments(AllChars(names[1..]), SEPARATOR, true)
    else PathNormalize.NormalSegments(AllChars(names), SEPARATOR, false)
  }

  lemma {:induction false} SplitOfDecoded(segments: seq<Bytes>)
    requires segments != []
    ensures Split(Join(DecodeAll(segments, PATH_FLAGS), SLASH), SLASH) == SpelledNames(segments)
  {
    var texts := DecodeAll(segments, PATH_FLAGS);
    if |segments| == 1 {
      assert SpelledNames(segments[1..]) == [];
    } else {
      SplitOfDecoded(segments[1..]);
      assert texts[1..] == DecodeAll(segments[1..], PATH_FLAGS);
      SplitAtSeparator(texts[0], SLASH, Join(texts[1..], SLASH));
    }
  }

  lemma NormalByNames(path: Bytes)
    ensures IsNormal(path) <==> NormalNames(Split(path, SLASH))
  {
    var names := Split(path, SLASH);
    JoinSplit(path, SLASH);
    if path != [] {
      SplitOfChars(path);
      if path[0] == SLASH {
        SplitOfChars(path[1..]);
        assert names == [[]] + Split(path[1..], SLASH);
        assert names[1..] == Split(path[1..], SLASH);
        assert AsChars(path)[1..] == AsChars(path[1..]);
        assert path[1..] == [] ==> path == [SLASH];
      }
    }
  }

  /** The parser does not normalise: the decoded path is in normal form exactly when the names
      spelled by the decoded segments of the raw path already are. */
  lemma DecodedPathIsNormalExactly(raw: Bytes)
    ensures IsNormal(DecodedPath(raw)) <==> NormalNames(SpelledNames(Split(raw, SLASH)))
  {
    SplitOfDecoded(Split(raw, SLASH));
    NormalByNames(DecodedPath(raw));
  }

  lemma {:induction false} DecodeOfPlain(src: Bytes)
    requires PERCENT !in src
    ensures Decode(src, PATH_FLAGS) == Decoded(true, src)
  {
    if src != [] {
      DecodeOfPlain(src[1..]);
      assert src == [src[0]] + src[1..];
    }
  }

  /** A raw path without escapes is its own decoding, so only its own normal form can come out. */
  lemma PlainPathStays(raw: Bytes)
    requires PERCENT !in raw
    ensures DecodedPath(raw) == raw
  {
    DecodeOfPlain(raw);
    SegmentwiseIsOnePass(raw);
  }

  const DOTTED: Bytes := [SLASH, 0x61, SLASH, 0x2E, 0x2E, SLASH, 0x62]

  lemma NamesOfDotted()
    ensures Split(DOTTED, SLASH) == [[], [0x61], [0x2E, 0x2E], [0x62]]
  {
    SplitWithoutSeparator([0x62], SLASH);
    SplitWithoutSeparator([0x2E, 0x2E], SLASH);
    SplitWithoutSeparator([0x61], SLASH);
    SplitAtSeparator([0x2E, 0x2E], SLASH, [0x62]);
    SplitAtSeparator([0x61], SLASH, [0x2E, 0x2E] + [SLASH] + [0x62]);
    SplitAtSeparator([], SLASH, [0x61] + [SLASH] + ([0x2E, 0x2E] + [SLASH] + [0x62]));
    assert DOTTED == [] + [SLASH] + ([0x61] + [SLASH] + ([0x2E, 0x2E] + [SLASH] + [0x62]));
  }

  /** `/a/../b` stays as it is. */
  lemma DotsAreKept()
    ensures DecodedPath(DOTTED) == DOTTED && !IsNormal(DOTTED)
  {
    PlainPathStays(DOTTED);
    NormalByNames(DOTTED);
    NamesOfDotted();
    var names := Split(DOTTED, SLASH);
    assert AllChars(names[1..])[1] == AsChars([0x2E, 0x2E]) == PathNormalize.DOTDOT;
    assert !PathNormalize.NormalAt(AllChars(names[1..]), 1, SEPARATOR, true);
  }
}
