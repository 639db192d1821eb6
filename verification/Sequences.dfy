/** Splitting and joining on a separator, shared by the path normaliser and the
    request-target parser, and a few facts about sequences. */
module Sequences {

  datatype Option<+T> = None | Some(value: T)

  function Prepend<T(==)>(x: T, parts: seq<seq<T>>, sep: T): (r: seq<seq<T>>)
    requires |parts| >= 1
    ensures |r| >= 1
  {
    if x == sep then [[]] + parts else [[x] + parts[0]] + parts[1..]
  }

  /** All maximal pieces between separators, empty ones included
      (`boost::split` without token compression). */
  function Split<T(==)>(s: seq<T>, sep: T): (parts: seq<seq<T>>)
    ensures |parts| >= 1
  {
    if s == [] then [[]]
    else Prepend(s[0], Split(s[1..], sep), sep)
  }

  function Join<T>(parts: seq<seq<T>>, sep: T): seq<T> {
    if |parts| == 0 then []
    else if |parts| == 1 then parts[0]
    else parts[0] + [sep] + Join(parts[1..], sep)
  }

  function NonEmpty<T(==)>(parts: seq<seq<T>>): seq<seq<T>> {
    if parts == [] then []
    else (if parts[0] == [] then [] else [parts[0]]) + NonEmpty(parts[1..])
  }

  /** The tokens of a separated string: its non-empty pieces. */
  function Tokens<T(==)>(s: seq<T>, sep: T): seq<seq<T>> {
    NonEmpty(Split(s, sep))
  }

  predicate AllFree<T(==)>(parts: seq<seq<T>>, sep: T) {
    forall i :: 0 <= i < |parts| ==> sep !in parts[i]
  }

  /** Neither empty nor holding a separator: what a tokenizer yields. */
  predicate AllClean<T(==)>(parts: seq<seq<T>>, sep: T) {
    forall i :: 0 <= i < |parts| ==> parts[i] != [] && sep !in parts[i]
  }

  ghost predicate Distinct<T>(s: seq<T>) {
    forall i, j :: 0 <= i < j < |s| ==> s[i] != s[j]
  }

  function Elements<T(==)>(s: seq<T>): set<T> {
    set x | x in s
  }

  /** The suffix of length n, or everything when there is less. */
  function LastN<T>(s: seq<T>, n: nat): seq<T> {
    if |s| <= n then s else s[|s| - n..]
  }

  lemma SubsetSize<T>(a: set<T>, b: set<T>)
    requires a <= b
    ensures |a| <= |b| && (|a| == |b| ==> a == b)
  {
    assert b == a + (b - a);
  }

  lemma LastNOfAppend<T>(a: seq<T>, b: seq<T>, n: nat)
    ensures LastN(LastN(a, n) + b, n) == LastN(a + b, n)
  {
    if |a| > n {
      var kept := a[|a| - n..];
      assert a + b == a[..|a| - n] + (kept + b);
    }
  }

  lemma {:induction false} JoinSplit<T>(s: seq<T>, sep: T)
    ensures Join(Split(s, sep), sep) == s
  {
    if s != [] {
      JoinSplit(s[1..], sep);
      var rest := Split(s[1..], sep);
      if s[0] == sep {
        assert ([[]] + rest)[1..] == rest;
        assert s == [sep] + s[1..];
      } else {
        assert ([[s[0]] + rest[0]] + rest[1..])[1..] == rest[1..];
        assert s == [s[0]] + s[1..];
      }
    }
  }

  lemma {:induction false} SplitPiecesAreFree<T>(s: seq<T>, sep: T)
    ensures AllFree(Split(s, sep), sep)
  {
    if s != [] {
      SplitPiecesAreFree(s[1..], sep);
    }
  }

  lemma {:induction false} SplitWithoutSeparator<T>(s: seq<T>, sep: T)
    requires sep !in s
    ensures Split(s, sep) == [s]
  {
    if s != [] {
      SplitWithoutSeparator(s[1..], sep);
      assert s == [s[0]] + s[1..];
    }
  }

  /** A separator cuts: what stands before it and what stands after it split apart. */
  lemma {:induction false} SplitAtSeparator<T>(a: seq<T>, sep: T, b: seq<T>)
    ensures Split(a + [sep] + b, sep) == Split(a, sep) + Split(b, sep)
  {
    var whole := a + [sep] + b;
    if a == [] {
      assert whole == [sep] + b && whole[1..] == b;
    } else {
      var tail, end := Split(a[1..], sep), Split(b, sep);
      calc {
        Split(whole, sep);
        { assert whole[1..] == a[1..] + [sep] + b && whole[0] == a[0]; }
        Prepend(a[0], Split(a[1..] + [sep] + b, sep), sep);
        { SplitAtSeparator(a[1..], sep, b); }
        Prepend(a[0], tail + end, sep);
        { PrependToFirst(a[0], tail, end, sep); }
        Prepend(a[0], tail, sep) + end;
        Split(a, sep) + end;
      }
    }
  }

  lemma PrependToFirst<T>(x: T, parts: seq<seq<T>>, more: seq<seq<T>>, sep: T)
    requires parts != []
    ensures Prepend(x, parts + more, sep) == Prepend(x, parts, sep) + more
  {
    assert (parts + more)[1..] == parts[1..] + more;
  }

  /** Joining separator-free parts loses nothing: splitting gives the same parts back. */
  lemma {:induction false} SplitJoin<T>(parts: seq<seq<T>>, sep: T)
    requires parts != []
    requires AllFree(parts, sep)
    ensures Split(Join(parts, sep), sep) == parts
  {
    SplitWithoutSeparator(parts[0], sep);
    if |parts| == 1 {
      assert parts == [parts[0]];
    } else {
      SplitJoin(parts[1..], sep);
      SplitAtSeparator(parts[0], sep, Join(parts[1..], sep));
      assert parts == [parts[0]] + parts[1..];
    }
  }

  lemma {:induction false} NonEmptyOfAppend<T>(a: seq<seq<T>>, b: seq<seq<T>>)
    ensures NonEmpty(a + b) == NonEmpty(a) + NonEmpty(b)
  {
    if a == [] {
      assert a + b == b;
    } else {
      var first := if a[0] == [] then [] else [a[0]];
      calc {
        NonEmpty(a + b);
        { assert (a + b)[1..] == a[1..] + b && (a + b)[0] == a[0]; }
        first + NonEmpty(a[1..] + b);
        { NonEmptyOfAppend(a[1..], b); }
        first + (NonEmpty(a[1..]) + NonEmpty(b));
        (first + NonEmpty(a[1..])) + NonEmpty(b);
      }
    }
  }

  lemma NonEmptyOfOne<T>(part: seq<T>)
    ensures NonEmpty([part]) == if part == [] then [] else [part]
  {
    assert [part][1..] == [];
  }

  lemma {:induction false} NonEmptyIsNonEmpty<T>(parts: seq<seq<T>>)
    ensures forall i :: 0 <= i < |NonEmpty(parts)| ==> NonEmpty(parts)[i] != [] && NonEmpty(parts)[i] in parts
  {
    if parts != [] {
      NonEmptyIsNonEmpty(parts[1..]);
    }
  }

  lemma {:induction false} NonEmptyKeepsAll<T>(parts: seq<seq<T>>)
    requires forall i :: 0 <= i < |parts| ==> parts[i] != []
    ensures NonEmpty(parts) == parts
  {
    if parts != [] {
      NonEmptyKeepsAll(parts[1..]);
      assert parts == [parts[0]] + parts[1..];
    }
  }

  lemma TokensAreClean<T>(s: seq<T>, sep: T)
    ensures AllClean(Tokens(s, sep), sep)
  {
    SplitPiecesAreFree(s, sep);
    NonEmptyIsNonEmpty(Split(s, sep));
  }

  lemma TokensOfJoin<T>(parts: seq<seq<T>>, sep: T)
    requires AllClean(parts, sep)
    ensures Tokens(Join(parts, sep), sep) == parts
  {
    if parts == [] {
      NonEmptyOfOne<T>([]);
    } else {
      SplitJoin(parts, sep);
      NonEmptyKeepsAll(parts);
    }
  }

  lemma TokensOfEmpty<T>(sep: T)
    ensures Tokens([], sep) == []
  {
    NonEmptyOfOne<T>([]);
  }

  lemma TokensAfterSeparator<T>(sep: T, s: seq<T>)
    ensures Tokens([sep] + s, sep) == Tokens(s, sep)
  {
    assert ([sep] + s)[1..] == s;
    NonEmptyOfAppend([[]], Split(s, sep));
    NonEmptyOfOne<T>([]);
  }

  lemma FirstToken<T>(token: seq<T>, rest: seq<T>, sep: T)
    requires token != [] && sep !in token
    requires rest == [] || rest[0] == sep
    ensures Tokens(token + rest, sep) == [token] + Tokens(rest, sep)
  {
    SplitWithoutSeparator(token, sep);
    NonEmptyOfOne(token);
    if rest == [] {
      assert token + rest == token;
      NonEmptyOfOne<T>([]);
    } else {
      SplitAtSeparator(token, sep, rest[1..]);
      assert token + rest == token + [sep] + rest[1..];
      assert rest == [sep] + rest[1..];
      TokensAfterSeparator(sep, rest[1..]);
      NonEmptyOfAppend([token], Split(rest[1..], sep));
    }
  }
}
