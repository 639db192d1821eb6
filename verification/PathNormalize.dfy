/** Lexical path normalisation (foundation/path_normalize.h): a tokenizer, a stack
    machine for `.` and `..`, and a printer, proved against pathname resolution
    without symbolic links. */
module PathNormalize {
  import opened Sequences

  const DOT := "."
  const DOTDOT := ".."

  predicate IsAbsolute(path: string, sep: char) {
    path != [] && path[0] == sep
  }

  /** What the loop does to its stack of segments for one token. */
  function Reduce1(segments: seq<string>, token: string, absolute: bool): seq<string> {
    if token == DOT then segments
    else if token == DOTDOT then
      if segments != [] && segments[|segments| - 1] != DOTDOT then segments[..|segments| - 1]
      else if absolute then segments
      else segments + [token]
    else segments + [token]
  }

  function Reduce(segments: seq<string>, tokens: seq<string>, absolute: bool): seq<string>
    decreases |tokens|
  {
    if tokens == [] then segments
    else Reduce(Reduce1(segments, tokens[0], absolute), tokens[1..], absolute)
  }

  function Segments(path: string, sep: char): seq<string> {
    Reduce([], Tokens(path, sep), IsAbsolute(path, sep))
  }

  function Render(segments: seq<string>, sep: char, absolute: bool): string {
    (if absolute then [sep] else []) + Join(segments, sep)
  }

  function Normal(path: string, sep: char): string {
    Render(Segments(path, sep), sep, IsAbsolute(path, sep))
  }

  // ---------------------------------------------------------------- meaning

  /** A location is the list of names from the root. Entering `..` at the root stays there. */
  function Enter(location: seq<string>, name: string): seq<string> {
    if name == DOT then location
    else if name == DOTDOT then
      if location == [] then [] else location[..|location| - 1]
    else location + [name]
  }

  /** `.` stays, `..` goes up and stays at the root, any other name goes down. */
  lemma EnterByName(location: seq<string>, last: string, name: string)
    ensures Enter(location, ".") == location
    ensures Enter(location + [last], "..") == location && Enter([], "..") == []
    ensures name != "." && name != ".." ==> Enter(location, name) == location + [name]
  {
    assert (location + [last])[..|location|] == location;
  }

  function Walk(location: seq<string>, names: seq<string>): seq<string>
    decreases |names|
  {
    if names == [] then location else Walk(Enter(location, names[0]), names[1..])
  }

  /** Pathname resolution without symbolic links (section 4.13 of POSIX.1-2017). */
  function Resolve(cwd: seq<string>, path: string, sep: char): seq<string> {
    Walk(if IsAbsolute(path, sep) then [] else cwd, Tokens(path, sep))
  }

  predicate IsName(name: string, sep: char) {
    name != [] && sep !in name && name != DOT && name != DOTDOT
  }

  predicate IsLocation(location: seq<string>, sep: char) {
    forall i :: 0 <= i < |location| ==> IsName(location[i], sep)
  }

  // ---------------------------------------------------------------- normal form

  /** No empty or `.` segment; no `..` in absolute paths, only a leading run of them in
      relative ones. */
  predicate NormalSegments(segments: seq<string>, sep: char, absolute: bool) {
    forall i :: 0 <= i < |segments| ==> NormalAt(segments, i, sep, absolute)
  }

  predicate NormalAt(segments: seq<string>, i: nat, sep: char, absolute: bool)
    requires i < |segments|
  {
    IsName(segments[i], sep) ||
    (segments[i] == DOTDOT && sep !in DOTDOT && !absolute && (i == 0 || segments[i - 1] == DOTDOT))
  }

  predicate NormalForm(path: string, sep: char) {
    path == [] || path == [sep] ||
    if path[0] == sep then NormalSegments(Split(path[1..], sep), sep, true)
    else NormalSegments(Split(path, sep), sep, false)
  }

  // ---------------------------------------------------------------- the code

  method Normalize(path: string, sep: char) returns (normalized: string)
    ensures normalized == Normal(path, sep)
  {
    TokensOfEmpty(sep);
    if path == [] {
      return path;
    }
    var absolute := path[0] == sep;
    var segments: seq<string> := [];
    var pos := 0;
    assert path[0..] == path;
    while pos < |path|
      invariant pos <= |path|
      invariant Reduce(segments, Tokens(path[pos..], sep), absolute) == Segments(path, sep)
    {
      pos := SkipSeparators(path, pos, sep);
      if pos >= |path| {
        break;
      }
      var end := ScanToken(path, pos, sep);
      var token := path[pos..end];
      assert path[pos..] == token + path[end..];
      FirstToken(token, path[end..], sep);
      if token == DOT {
        pos := end;
        continue;
      }
      if token == DOTDOT {
        if segments != [] && segments[|segments| - 1] != DOTDOT {
          segments := segments[..|segments| - 1];
        } else if !absolute {
          segments := segments + [token];
        }
        pos := end;
        continue;
      }
      segments := segments + [token];
      pos := end;
    }
    normalized := Print(segments, sep, absolute);
  }

  /** The first inner loop: skip a run of separators. */
  method SkipSeparators(path: string, start: nat, sep: char) returns (pos: nat)
    requires start <= |path|
    ensures start <= pos <= |path| && (pos < |path| ==> path[pos] != sep)
    ensures Tokens(path[pos..], sep) == Tokens(path[start..], sep)
  {
    pos := start;
    while pos < |path| && path[pos] == sep
      invariant pos <= |path|
      invariant Tokens(path[pos..], sep) == Tokens(path[start..], sep)
    {
      assert path[pos..] == [sep] + path[pos + 1..];
      TokensAfterSeparator(sep, path[pos + 1..]);
      pos := pos + 1;
    }
  }

  /** The second inner loop: find where the token that starts at `pos` ends. */
  method ScanToken(path: string, pos: nat, sep: char) returns (end: nat)
    requires pos < |path| && path[pos] != sep
    ensures pos < end <= |path| && sep !in path[pos..end]
    ensures end == |path| || path[end] == sep
  {
    end := pos;
    while end < |path| && path[end] != sep
      invariant pos <= end <= |path|
      invariant sep !in path[pos..end]
    {
      end := end + 1;
    }
  }

  method Print(segments: seq<string>, sep: char, absolute: bool) returns (normalized: string)
    ensures normalized == Render(segments, sep, absolute)
  {
    normalized := [];
    if absolute {
      normalized := [sep];
    }
    ghost var prefix := normalized;
    for i := 0 to |segments|
      invariant normalized == prefix + Join(segments[..i], sep)
    {
      JoinSnoc(segments[..i], segments[i], sep);
      assert segments[..i + 1] == segments[..i] + [segments[i]];
      if i > 0 {
        normalized := normalized + [sep];
      }
      normalized := normalized + segments[i];
    }
    assert segments[..|segments|] == segments;
  }

  lemma {:induction false} JoinSnoc(parts: seq<string>, part: string, sep: char)
    ensures Join(parts + [part], sep) == Join(parts, sep) + (if parts == [] then [] else [sep]) + part
  {
    if |parts| == 1 {
      assert (parts + [part])[1..] == [part];
    } else if |parts| > 1 {
      JoinSnoc(parts[1..], part, sep);
      assert (parts + [part])[1..] == parts[1..] + [part];
    }
  }

  // ---------------------------------------------------------------- the stack machine

  lemma Reduce1KeepsNormal(segments: seq<string>, token: string, sep: char, absolute: bool)
    requires NormalSegments(segments, sep, absolute)
    requires token != [] && sep !in token
    ensures NormalSegments(Reduce1(segments, token, absolute), sep, absolute)
  {
    var next := Reduce1(segments, token, absolute);
    forall i | 0 <= i < |next| ensures NormalAt(next, i, sep, absolute) {
      if i < |segments| {
        assert NormalAt(segments, i, sep, absolute);
      }
    }
  }

  lemma {:induction false} ReduceKeepsNormal(segments: seq<string>, tokens: seq<string>, sep: char, absolute: bool)
    requires NormalSegments(segments, sep, absolute)
    requires AllClean(tokens, sep)
    ensures NormalSegments(Reduce(segments, tokens, absolute), sep, absolute)
    decreases |tokens|
  {
    if tokens != [] {
      Reduce1KeepsNormal(segments, tokens[0], sep, absolute);
      ReduceKeepsNormal(Reduce1(segments, tokens[0], absolute), tokens[1..], sep, absolute);
    }
  }

  lemma SegmentsAreNormal(path: string, sep: char)
    ensures NormalSegments(Segments(path, sep), sep, IsAbsolute(path, sep))
  {
    TokensAreClean(path, sep);
    ReduceKeepsNormal([], Tokens(path, sep), sep, IsAbsolute(path, sep));
  }

  lemma {:induction false} WalkSnoc(location: seq<string>, names: seq<string>, name: string)
    ensures Walk(location, names + [name]) == Enter(Walk(location, names), name)
    decreases |names|
  {
    if names == [] {
      assert names + [name] == [name];
    } else {
      var whole := names + [name];
      assert whole[0] == names[0] && whole[1..] == names[1..] + [name];
      calc {
        Walk(location, whole);
        Walk(Enter(location, names[0]), names[1..] + [name]);
        { WalkSnoc(Enter(location, names[0]), names[1..], name); }
        Enter(Walk(Enter(location, names[0]), names[1..]), name);
        Enter(Walk(location, names), name);
      }
    }
  }

  /** The stack stands for the location reached so far: one token moves both alike. */
  lemma Reduce1Walks(location: seq<string>, segments: seq<string>, token: string, sep: char, absolute: bool)
    requires NormalSegments(segments, sep, absolute)
    requires absolute ==> location == []
    ensures Walk(location, Reduce1(segments, token, absolute)) == Enter(Walk(location, segments), token)
  {
    WalkSnoc(location, segments, token);
    if segments != [] {
      var popped, last := segments[..|segments| - 1], segments[|segments| - 1];
      assert NormalAt(segments, |segments| - 1, sep, absolute);
      assert segments == popped + [last];
      WalkSnoc(location, popped, last);
    }
  }

  lemma {:induction false} ReduceWalks(location: seq<string>, segments: seq<string>, tokens: seq<string>,
                                       sep: char, absolute: bool)
    requires NormalSegments(segments, sep, absolute)
    requires absolute ==> location == []
    requires AllClean(tokens, sep)
    ensures Walk(location, Reduce(segments, tokens, absolute)) == Walk(Walk(location, segments), tokens)
    decreases |tokens|
  {
    if tokens != [] {
      Reduce1Walks(location, segments, tokens[0], sep, absolute);
      Reduce1KeepsNormal(segments, tokens[0], sep, absolute);
      ReduceWalks(location, Reduce1(segments, tokens[0], absolute), tokens[1..], sep, absolute);
    }
  }

  // ---------------------------------------------------------------- printing and reading back

  lemma NormalIsClean(segments: seq<string>, sep: char, absolute: bool)
    requires NormalSegments(segments, sep, absolute)
    ensures AllClean(segments, sep) && AllFree(segments, sep)
  {
    forall i | 0 <= i < |segments| ensures segments[i] != [] && sep !in segments[i] {
      assert NormalAt(segments, i, sep, absolute);
    }
  }

  lemma RenderReadsBack(segments: seq<string>, sep: char, absolute: bool)
    requires NormalSegments(segments, sep, absolute)
    ensures Tokens(Render(segments, sep, absolute), sep) == segments
    ensures IsAbsolute(Render(segments, sep, absolute), sep) == absolute
  {
    assert Render(segments, sep, false) == Join(segments, sep);
    NormalIsClean(segments, sep, absolute);
    TokensOfJoin(segments, sep);
    if absolute {
      TokensAfterSeparator(sep, Join(segments, sep));
    }
  }

  lemma {:induction false} ReduceFixesNormal(segments: seq<string>, more: seq<string>, sep: char, absolute: bool)
    requires NormalSegments(segments + more, sep, absolute)
    ensures Reduce(segments, more, absolute) == segments + more
    decreases |more|
  {
    if more == [] {
      assert segments + more == segments;
    } else {
      assert NormalAt(segments + more, |segments|, sep, absolute);
      assert (segments + more)[|segments|] == more[0];
      assert segments + [more[0]] + more[1..] == segments + more;
      if more[0] == DOTDOT && segments != [] {
        assert segments[|segments| - 1] == (segments + more)[|segments| - 1];
      }
      assert Reduce1(segments, more[0], absolute) == segments + [more[0]];
      ReduceFixesNormal(segments + [more[0]], more[1..], sep, absolute);
    }
  }

  // ---------------------------------------------------------------- main results

  lemma NormalKeepsAbsoluteness(path: string, sep: char)
    ensures IsAbsolute(Normal(path, sep), sep) == IsAbsolute(path, sep)
  {
    SegmentsAreNormal(path, sep);
    RenderReadsBack(Segments(path, sep), sep, IsAbsolute(path, sep));
  }

  lemma NormalPreservesMeaning(cwd: seq<string>, path: string, sep: char)
    ensures Resolve(cwd, Normal(path, sep), sep) == Resolve(cwd, path, sep)
  {
    var absolute := IsAbsolute(path, sep);
    SegmentsAreNormal(path, sep);
    RenderReadsBack(Segments(path, sep), sep, absolute);
    TokensAreClean(path, sep);
    ReduceWalks(if absolute then [] else cwd, [], Tokens(path, sep), sep, absolute);
  }

  lemma NormalIsInNormalForm(path: string, sep: char)
    ensures NormalForm(Normal(path, sep), sep)
  {
    var segments, absolute := Segments(path, sep), IsAbsolute(path, sep);
    SegmentsAreNormal(path, sep);
    RenderReadsBack(segments, sep, absolute);
    NormalIsClean(segments, sep, absolute);
    if segments == [] {
      assert Normal(path, sep) == if absolute then [sep] else [];
    } else {
      SplitJoin(segments, sep);
      if absolute {
        assert Normal(path, sep)[1..] == Join(segments, sep);
      } else {
        assert Normal(path, sep) == Join(segments, sep);
      }
    }
  }

  /** The fixed points of normalisation are exactly the paths in normal form. */
  lemma FixedExactlyInNormalForm(path: string, sep: char)
    ensures Normal(path, sep) == path <==> NormalForm(path, sep)
  {
    NormalIsInNormalForm(path, sep);
    TokensOfEmpty(sep);
    if NormalForm(path, sep) && path != [] {
      if path == [sep] {
        TokensAfterSeparator(sep, []);
        assert [sep] + [] == path;
      } else {
        var absolute := path[0] == sep;
        var body := if absolute then path[1..] else path;
        var segments := Split(body, sep);
        NormalIsClean(segments, sep, absolute);
        NonEmptyKeepsAll(segments);
        JoinSplit(body, sep);
        if absolute {
          assert path == [sep] + body;
          TokensAfterSeparator(sep, body);
        }
        assert [] + segments == segments;
        ReduceFixesNormal([], segments, sep, absolute);
        assert Normal(path, sep) == Render(segments, sep, absolute) == path;
      }
    }
  }

  lemma NormalIsIdempotent(path: string, sep: char)
    ensures Normal(Normal(path, sep), sep) == Normal(path, sep)
  {
    NormalIsInNormalForm(path, sep);
    FixedExactlyInNormalForm(Normal(path, sep), sep);
  }

  // ---------------------------------------------------------------- length

  /** Characters needed to print the segments, each followed by one separator. */
  function Width(segments: seq<string>): nat {
    if segments == [] then 0 else |segments[0]| + 1 + Width(segments[1..])
  }

  lemma {:induction false} WidthOfAppend(a: seq<string>, b: seq<string>)
    ensures Width(a + b) == Width(a) + Width(b)
  {
    if a == [] {
      assert a + b == b;
    } else {
      WidthOfAppend(a[1..], b);
      assert (a + b)[1..] == a[1..] + b;
    }
  }

  lemma {:induction false} WidthOfJoin(segments: seq<string>, sep: char)
    ensures |Join(segments, sep)| + 1 == Width(segments) + (if segments == [] then 1 else 0)
  {
    if segments != [] {
      WidthOfJoin(segments[1..], sep);
    }
  }

  lemma {:induction false} WidthOfNonEmpty(parts: seq<string>)
    ensures Width(NonEmpty(parts)) <= Width(parts)
  {
    if parts != [] {
      WidthOfNonEmpty(parts[1..]);
      WidthOfAppend(if parts[0] == [] then [] else [parts[0]], NonEmpty(parts[1..]));
    }
  }

  lemma WidthOfTokens(path: string, sep: char)
    ensures Width(Tokens(path, sep)) <= |path| + 1
    ensures IsAbsolute(path, sep) ==> Width(Tokens(path, sep)) <= |path|
  {
    if IsAbsolute(path, sep) {
      assert path == [sep] + path[1..];
      TokensAfterSeparator(sep, path[1..]);
      WidthOfTokens(path[1..], sep);
    }
    JoinSplit(path, sep);
    WidthOfJoin(Split(path, sep), sep);
    WidthOfNonEmpty(Split(path, sep));
  }

  lemma {:induction false} ReduceShrinks(segments: seq<string>, tokens: seq<string>, absolute: bool)
    ensures Width(Reduce(segments, tokens, absolute)) <= Width(segments) + Width(tokens)
    decreases |tokens|
  {
    if tokens != [] {
      ReduceShrinks(Reduce1(segments, tokens[0], absolute), tokens[1..], absolute);
      WidthOfAppend(segments, [tokens[0]]);
      if segments != [] {
        var last := |segments| - 1;
        assert segments == segments[..last] + segments[last..];
        WidthOfAppend(segments[..last], segments[last..]);
      }
    }
  }

  lemma NormalIsNoLonger(path: string, sep: char)
    ensures |Normal(path, sep)| <= |path|
  {
    WidthOfTokens(path, sep);
    ReduceShrinks([], Tokens(path, sep), IsAbsolute(path, sep));
    WidthOfJoin(Segments(path, sep), sep);
  }

  // ---------------------------------------------------------------- canonicity

  function LeadingUps(segments: seq<string>): (ups: nat)
    ensures ups <= |segments|
  {
    if segments != [] && segments[0] == DOTDOT then 1 + LeadingUps(segments[1..]) else 0
  }

  lemma {:induction false} WalkNames(location: seq<string>, names: seq<string>, sep: char)
    requires IsLocation(names, sep)
    ensures Walk(location, names) == location + names
    decreases |names|
  {
    if names == [] {
      assert location + names == location;
    } else {
      WalkNames(location + [names[0]], names[1..], sep);
      assert location + [names[0]] + names[1..] == location + names;
    }
  }

  lemma {:induction false} NoLaterUps(segments: seq<string>, i: nat, sep: char, absolute: bool)
    requires NormalSegments(segments, sep, absolute)
    requires i < |segments| && (absolute || segments[0] != DOTDOT)
    ensures IsName(segments[i], sep)
  {
    assert NormalAt(segments, i, sep, absolute);
    if i > 0 {
      NoLaterUps(segments, i - 1, sep, absolute);
    }
  }

  lemma NormalWithoutFirst(segments: seq<string>, sep: char)
    requires segments != [] && segments[0] == DOTDOT && NormalSegments(segments, sep, false)
    ensures NormalSegments(segments[1..], sep, false)
  {
    var rest := segments[1..];
    forall i | 0 <= i < |rest| ensures NormalAt(rest, i, sep, false) {
      assert NormalAt(segments, i + 1, sep, false);
      assert rest[i] == segments[i + 1] && (i > 0 ==> rest[i - 1] == segments[i]);
    }
  }

  /** Normal segments climb as many levels as their leading `..` run, then descend. */
  lemma {:induction false} WalkNormal(location: seq<string>, segments: seq<string>, sep: char)
    requires NormalSegments(segments, sep, false)
    requires LeadingUps(segments) <= |location|
    ensures var ups := LeadingUps(segments);
            Walk(location, segments) == location[..|location| - ups] + segments[ups..]
    decreases |segments|
  {
    if segments != [] && segments[0] == DOTDOT {
      NormalWithoutFirst(segments, sep);
      WalkNormal(location[..|location| - 1], segments[1..], sep);
    } else {
      forall i | 0 <= i < |segments| ensures IsName(segments[i], sep) {
        NoLaterUps(segments, i, sep, false);
      }
      WalkNames(location, segments, sep);
    }
  }

  lemma {:induction false} LeadingUpsAreUps(segments: seq<string>)
    ensures forall i :: 0 <= i < LeadingUps(segments) ==> segments[i] == DOTDOT
  {
    if segments != [] && segments[0] == DOTDOT {
      LeadingUpsAreUps(segments[1..]);
    }
  }

  /** A directory name other than the first name of `avoid`. */
  function OtherName(avoid: seq<string>, sep: char): (name: string)
    ensures IsName(name, sep) && (avoid == [] || name != avoid[0])
  {
    if sep != 'a' && (avoid == [] || avoid[0] != "a") then "a"
    else if sep != 'b' && (avoid == [] || avoid[0] != "b") then "b"
    else "c"
  }

  ghost predicate SameFromEverywhere(p: string, q: string, sep: char) {
    forall cwd :: IsLocation(cwd, sep) ==> Resolve(cwd, p, sep) == Resolve(cwd, q, sep)
  }

  /** A directory of the given depth from which a path landing at `landing` is told apart
      from every path that keeps the first directory name. */
  function Witness(depth: nat, landing: seq<string>, sep: char): (cwd: seq<string>)
    ensures IsLocation(cwd, sep) && |cwd| == depth
    ensures forall n, rest: seq<string> :: 0 < n <= depth ==> cwd[..n] + rest != landing
  {
    var name := OtherName(landing, sep);
    var cwd := seq(depth, _ => name);
    assert forall n, rest: seq<string> :: 0 < n <= depth ==> (cwd[..n] + rest)[0] == name;
    cwd
  }

  /** Where a path ends up, seen from a directory deeper than the levels it climbs. */
  lemma ResolveFrom(cwd: seq<string>, path: string, sep: char)
    requires IsAbsolute(path, sep) || LeadingUps(Segments(path, sep)) <= |cwd|
    ensures var segments := Segments(path, sep);
            var ups := LeadingUps(segments);
            Resolve(cwd, path, sep) ==
              if IsAbsolute(path, sep) then segments else cwd[..|cwd| - ups] + segments[ups..]
  {
    var segments, absolute := Segments(path, sep), IsAbsolute(path, sep);
    NormalPreservesMeaning(cwd, path, sep);
    SegmentsAreNormal(path, sep);
    RenderReadsBack(segments, sep, absolute);
    if absolute {
      forall i | 0 <= i < |segments| ensures IsName(segments[i], sep) {
        NoLaterUps(segments, i, sep, true);
      }
      WalkNames([], segments, sep);
    } else {
      WalkNormal(cwd, segments, sep);
    }
  }

  /** A relative path is told apart from one that is absolute or climbs further. */
  lemma Distinguish(p: string, q: string, sep: char)
    requires !IsAbsolute(p, sep)
    requires IsAbsolute(q, sep) || LeadingUps(Segments(p, sep)) < LeadingUps(Segments(q, sep))
    ensures !SameFromEverywhere(p, q, sep)
  {
    var pups, qups := LeadingUps(Segments(p, sep)), LeadingUps(Segments(q, sep));
    var landing := if IsAbsolute(q, sep) then Segments(q, sep) else Segments(q, sep)[qups..];
    var cwd := Witness(if IsAbsolute(q, sep) then pups + 1 else qups, landing, sep);
    ResolveFrom(cwd, p, sep);
    ResolveFrom(cwd, q, sep);
    assert cwd[..0] + landing == landing;
    assert Resolve(cwd, q, sep) == landing;
    assert Resolve(cwd, p, sep) == cwd[..|cwd| - pups] + Segments(p, sep)[pups..];
  }

  /** Normal forms are canonical: two paths normalise to the same string exactly when they
      lead to the same place from every starting directory. */
  lemma NormalIsCanonical(p: string, q: string, sep: char)
    ensures Normal(p, sep) == Normal(q, sep) <==> SameFromEverywhere(p, q, sep)
  {
    if Normal(p, sep) == Normal(q, sep) {
      forall cwd | IsLocation(cwd, sep) ensures Resolve(cwd, p, sep) == Resolve(cwd, q, sep) {
        NormalPreservesMeaning(cwd, p, sep);
        NormalPreservesMeaning(cwd, q, sep);
      }
    }
    if SameFromEverywhere(p, q, sep) {
      var pups, qups := LeadingUps(Segments(p, sep)), LeadingUps(Segments(q, sep));
      assert SameFromEverywhere(q, p, sep);
      if !IsAbsolute(p, sep) && (IsAbsolute(q, sep) || pups < qups) {
        Distinguish(p, q, sep);
      } else if !IsAbsolute(q, sep) && (IsAbsolute(p, sep) || qups < pups) {
        Distinguish(q, p, sep);
      } else {
        var cwd := Witness(if IsAbsolute(p, sep) then 0 else pups, [], sep);
        assert Resolve(cwd, p, sep) == Resolve(cwd, q, sep);
        ResolveFrom(cwd, p, sep);
        ResolveFrom(cwd, q, sep);
        if !IsAbsolute(p, sep) {
          assert forall rest: seq<string> :: cwd[..0] + rest == rest;
          SameAfterUps(Segments(p, sep), Segments(q, sep));
        }
      }
    }
  }

  lemma SameAfterUps(a: seq<string>, b: seq<string>)
    requires LeadingUps(a) == LeadingUps(b) && a[LeadingUps(a)..] == b[LeadingUps(b)..]
    ensures a == b
  {
    LeadingUpsAreUps(a);
    LeadingUpsAreUps(b);
    var ups := LeadingUps(a);
    assert a[..ups] == b[..ups];
    assert a == a[..ups] + a[ups..];
    assert b == b[..ups] + b[ups..];
  }
}
