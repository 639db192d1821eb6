/** Route selection (httpd/http_router.cpp): the longest registered prefix of the decoded path
    that ends on a segment boundary. */
module Router {
  import opened Sequences
  import opened PercentCoding
  import opened UriParser

  type Routes = map<Bytes, string>

  /** Paths that do not start with a slash are rejected. Otherwise a handler is asked for by
      name, by the empty name when no route matches. */
  datatype Choice = Rejected | Handler(name: string)

  /** A prefix of this length is the whole path, the root, or ends just before a slash. */
  predicate IsBoundary(path: Bytes, len: nat) {
    1 <= len <= |path| && (len == |path| || len == 1 || path[len] == SLASH)
  }

  /** The keys a path can match. */
  predicate IsCandidate(key: Bytes, path: Bytes) {
    key <= path && IsBoundary(path, |key|)
  }

  /** `key` is the longest registered candidate. */
  ghost predicate IsLongest(routes: Routes, path: Bytes, key: Bytes) {
    key in routes && IsCandidate(key, path) &&
    forall k :: k in routes && IsCandidate(k, path) ==> |k| <= |key|
  }

  ghost predicate HasMatch(routes: Routes, path: Bytes) {
    exists k :: k in routes && IsCandidate(k, path)
  }

  /** The longest registered candidate no longer than len. */
  function Match(routes: Routes, path: Bytes, len: nat): (m: Option<Bytes>)
    requires len <= |path|
    ensures m.Some? ==> m.value in routes && IsCandidate(m.value, path) && |m.value| <= len
    ensures forall k :: k in routes && IsCandidate(k, path) && |k| <= len ==> m.Some? && |k| <= |m.value|
  {
    if len == 0 then None
    else if IsBoundary(path, len) && path[..len] in routes then Some(path[..len])
    else
      assert forall k :: IsCandidate(k, path) && |k| == len ==> k == path[..len];
      Match(routes, path, len - 1)
  }

  function Choose(routes: Routes, path: Bytes): Choice {
    if path == [] || path[0] != SLASH then Rejected
    else
      var m := Match(routes, path, |path|);
      if m.Some? then Handler(routes[m.value]) else Handler("")
  }

  class HttpRouter {
    var routes: Routes

    constructor ()
      ensures routes == map[]
    {
      routes := map[];
    }

    method Add(path: Bytes, name: string)
      modifies this
      ensures routes == old(routes)[path := name]
    {
      routes := routes[path := name];
    }

    method FindHandler(path: Bytes) returns (choice: Choice)
      ensures choice == Choose(routes, path)
    {
      if path == [] || path[0] != SLASH {
        return Rejected;
      }
      var name := "";
      var len := |path|;
      while true
        invariant 1 <= len <= |path| && IsBoundary(path, len)
        invariant Match(routes, path, |path|) == Match(routes, path, len)
        invariant name == ""
        decreases len
      {
        var key := path[..len];
        if key in routes {
          name := routes[key];
          break;
        }
        if len == 1 {
          break;
        }
        var lastSlash := LastSlash(path, len - 1);
        var next := if lastSlash == 0 then 1 else lastSlash;
        SkipTo(routes, path, len, next);
        len := next;
      }
      return Handler(name);
    }

    /** The whole way from the target to the choice: a parse that fails would be a bad request,
        but none does. */
    method Dispatch(target: Bytes) returns (choice: Choice)
      ensures choice == Choose(routes, DecodedPath(RawPath(target)))
    {
      var uri := new HttpUri();
      var ok := Parse(target, uri);
      choice := FindHandler(uri.decodedPath);
    }
  }

  /** `rfind`: the last slash at or before `from`; the path starts with one. */
  method LastSlash(path: Bytes, from: nat) returns (i: nat)
    requires from < |path| && path[0] == SLASH
    ensures i <= from && path[i] == SLASH && forall j :: i < j <= from ==> path[j] != SLASH
  {
    i := from;
    while path[i] != SLASH
      invariant i <= from && forall j :: i < j <= from ==> path[j] != SLASH
      decreases i
    {
      i := i - 1;
    }
  }

  lemma {:induction false} NoMatchBetween(routes: Routes, path: Bytes, hi: nat, lo: nat)
    requires lo <= hi <= |path|
    requires forall j :: lo < j <= hi ==> !IsBoundary(path, j)
    ensures Match(routes, path, hi) == Match(routes, path, lo)
    decreases hi
  {
    if lo < hi {
      NoMatchBetween(routes, path, hi - 1, lo);
    }
  }

  /** No boundary lies between a prefix that did not match and the next one tried. */
  lemma SkipTo(routes: Routes, path: Bytes, len: nat, next: nat)
    requires 1 <= next < len <= |path| && path[..len] !in routes
    requires forall j :: next < j < len ==> path[j] != SLASH
    ensures Match(routes, path, len) == Match(routes, path, next)
  {
    NoMatchBetween(routes, path, len - 1, next);
  }

  // ---------------------------------------------------------------- main results

  lemma CandidatesOfALength(a: Bytes, b: Bytes, path: Bytes)
    requires IsCandidate(a, path) && IsCandidate(b, path) && |a| == |b|
    ensures a == b
  {
  }

  /** The choice is the name of the longest candidate, or the empty name if there is none. */
  lemma ChoiceIsLongestMatch(routes: Routes, path: Bytes)
    requires path != [] && path[0] == SLASH
    ensures HasMatch(routes, path) ==>
              exists key :: IsLongest(routes, path, key) && Choose(routes, path) == Handler(routes[key])
    ensures !HasMatch(routes, path) ==> Choose(routes, path) == Handler("")
    ensures forall key :: IsLongest(routes, path, key) ==> Choose(routes, path) == Handler(routes[key])
  {
    var m := Match(routes, path, |path|);
    if HasMatch(routes, path) {
      assert IsLongest(routes, path, m.value);
    }
    forall key | IsLongest(routes, path, key) ensures m == Some(key) {
      CandidatesOfALength(key, m.value, path);
    }
  }

  /** A path matches a registered key when it is that key, when the key is the root, or when the
      key ends just before a slash of the path; a key without a longer one like that is chosen. */
  lemma ChosenByPrefix(routes: Routes, path: Bytes, key: Bytes)
    requires key in routes && key != [] && key <= path && path[0] == 0x2F
    requires key == path || key == [0x2F] || path[|key|] == 0x2F
    requires forall k :: k in routes && k <= path && |k| > |key| ==> k != path && path[|k|] != 0x2F
    ensures Choose(routes, path) == Handler(routes[key])
  {
    assert IsLongest(routes, path, key);
    ChoiceIsLongestMatch(routes, path);
  }

  /** Only a path without a leading slash is rejected; one that matches no key asks for the empty
      name. */
  lemma NothingChosen(routes: Routes, path: Bytes)
    ensures Choose(routes, path) == Rejected <==> path == [] || path[0] != 0x2F
    ensures path != [] && path[0] == 0x2F &&
            (forall k :: k in routes && k != [] && k <= path ==> k != path && k != [0x2F] && path[|k|] != 0x2F) ==>
              Choose(routes, path) == Handler("")
  {
    if path != [] && path[0] == 0x2F {
      ChoiceIsLongestMatch(routes, path);
    }
  }

  /** One route answers for its key and everything below it, and for nothing else, not even for
      a longer name that starts alike; the root answers for every path. */
  lemma OneRoute(key: Bytes, name: string, rest: Bytes)
    requires key != [] && key[0] == 0x2F && key != [0x2F]
    ensures Choose(map[key := name], key + rest) == Handler(if rest == [] || rest[0] == 0x2F then name else "")
    ensures Choose(map[[0x2F] := name], key) == Handler(name)
  {
    var path := key + rest;
    assert key <= path && [0x2F] <= key;
    NothingChosen(map[key := name], path);
    if rest == [] || rest[0] == 0x2F {
      ChosenByPrefix(map[key := name], path, key);
    }
    ChosenByPrefix(map[[0x2F] := name], key, [0x2F]);
  }

  /** A new route takes over exactly the paths that have it as a candidate at least as long as
      the candidate they matched before; all other choices stay. */
  lemma AddedRouteTakesOver(routes: Routes, path: Bytes, key: Bytes, name: string)
    ensures var before, after := Match(routes, path, |path|), Match(routes[key := name], path, |path|);
            var takesOver := IsCandidate(key, path) && (before.Some? ==> |before.value| <= |key|);
            after == (if takesOver then Some(key) else before) &&
            Choose(routes[key := name], path) ==
              if path == [] || path[0] != SLASH then Rejected
              else if takesOver then Handler(name)
              else Choose(routes, path)
  {
    var before, after := Match(routes, path, |path|), Match(routes[key := name], path, |path|);
    if after.Some? && before.Some? && |after.value| == |before.value| {
      CandidatesOfALength(after.value, before.value, path);
    }
    if after.Some? && IsCandidate(key, path) && |after.value| == |key| {
      CandidatesOfALength(after.value, key, path);
    }
  }

  /** The query string has no part in the choice. */
  lemma QueryDoesNotMatter(routes: Routes, path: Bytes, query: Bytes)
    requires 0x3F !in path
    ensures Choose(routes, DecodedPath(RawPath(path + [0x3F] + query))) == Choose(routes, DecodedPath(RawPath(path)))
  {
    RawPathOf(path, query);
  }

  /** Nor has the way in which the path is percent-encoded, escaped slashes included. */
  lemma EncodingDoesNotMatter(routes: Routes, path: Bytes, keep: set<Byte>, query: Bytes)
    requires {0x25, 0x3F} !! keep
    ensures Choose(routes, DecodedPath(RawPath(Encode(path, keep) + [0x3F] + query))) == Choose(routes, path)
  {
    assert 0x25 !in keep && 0x3F !in keep;
    EncodeAvoids(path, keep, QUESTION);
    RawPathOf(Encode(path, keep), query);
    PathRoundTrip(path, keep);
  }
}
