/** Percent decoding of request targets (httpd/http_helper.cpp, foundation/inline_utils.h),
    proved against the grammar of encoded text (section 2.1 of RFC 3986). */
module PercentCoding {
  import opened Sequences

  type Byte = b: int | 0 <= b < 256
  type Bytes = seq<Byte>

  const PERCENT: Byte := 0x25
  const AMPERSAND: Byte := 0x26
  const PLUS: Byte := 0x2B
  const SLASH: Byte := 0x2F
  const EQUALS: Byte := 0x3D
  const QUESTION: Byte := 0x3F
  const SPACE: Byte := 0x20

  /** Whether an escaped slash is decoded, and whether a plus sign stands for a space. */
  datatype Flags = Flags(slash: bool, space: bool)

  const PATH_FLAGS := Flags(true, false)
  const QUERY_FLAGS := Flags(true, true)

  function Char2Hex(c: Byte): int {
    if 0x30 <= c <= 0x39 then c - 0x30
    else if 0x41 <= c <= 0x46 then c - 0x41 + 10
    else if 0x61 <= c <= 0x66 then c - 0x61 + 10
    else -1
  }

  /** The digit lookup inverts both alphabets, and knows no other digit. */
  lemma Char2HexInvertsDigits(c: Byte, v: nat)
    ensures Char2Hex(c) == v <==>
              v < 16 && ("0123456789ABCDEF"[v] as int == c || "0123456789abcdef"[v] as int == c)
  {
  }

  predicate IsHex(c: Byte) {
    Char2Hex(c) >= 0
  }

  function Unescape(hi: Byte, lo: Byte): Byte
    requires IsHex(hi) && IsHex(lo)
  {
    16 * Char2Hex(hi) + Char2Hex(lo)
  }

  // ---------------------------------------------------------------- the grammar

  /** Encoded text is a sequence of pieces: escapes, plus signs for spaces, plain bytes. */
  datatype Piece = Escape(hi: Byte, lo: Byte) | PlusSign | Plain(b: Byte) {
    predicate Valid(flags: Flags) {
      match this
      case Escape(hi, lo) => IsHex(hi) && IsHex(lo)
      case PlusSign => flags.space
      case Plain(b) => b != PERCENT && !(b == PLUS && flags.space)
    }

    function Written(): Bytes {
      match this
      case Escape(hi, lo) => [PERCENT, hi, lo]
      case PlusSign => [PLUS]
      case Plain(b) => [b]
    }

    /** An escaped slash stays as written unless slashes are to be decoded. */
    function Meant(flags: Flags): Bytes
      requires Valid(flags)
    {
      match this
      case Escape(hi, lo) =>
        if Unescape(hi, lo) == SLASH && !flags.slash then Written() else [Unescape(hi, lo)]
      case PlusSign => [SPACE]
      case Plain(b) => [b]
    }
  }

  predicate AllValid(pieces: seq<Piece>, flags: Flags) {
    forall i :: 0 <= i < |pieces| ==> pieces[i].Valid(flags)
  }

  function Written(pieces: seq<Piece>): Bytes {
    if pieces == [] then [] else pieces[0].Written() + Written(pieces[1..])
  }

  function Meant(pieces: seq<Piece>, flags: Flags): Bytes
    requires AllValid(pieces, flags)
  {
    if pieces == [] then [] else pieces[0].Meant(flags) + Meant(pieces[1..], flags)
  }

  ghost predicate IsEncoding(src: Bytes, text: Bytes, flags: Flags) {
    exists pieces ::
      AllValid(pieces, flags) && Written(pieces) == src && Meant(pieces, flags) == text
  }

  predicate BadEscape(rest: Bytes) {
    rest != [] && rest[0] == PERCENT && (|rest| < 3 || !IsHex(rest[1]) || !IsHex(rest[2]))
  }

  /** A percent sign at the end, one byte before it, or before two bytes of which one is neither
      a decimal digit nor a letter from A to F in either case. */
  lemma BadEscapes(hi: Byte, lo: Byte, rest: Bytes)
    ensures BadEscape([0x25]) && BadEscape([0x25, hi])
    ensures BadEscape([0x25, hi, lo] + rest) <==>
            !(0x30 <= hi <= 0x39 || 0x41 <= hi <= 0x46 || 0x61 <= hi <= 0x66) ||
            !(0x30 <= lo <= 0x39 || 0x41 <= lo <= 0x46 || 0x61 <= lo <= 0x66)
    ensures hi != 0x25 ==> !BadEscape([hi] + rest)
  {
    var src := [0x25, hi, lo] + rest;
    assert |src| >= 3 && src[0] == 0x25 && src[1] == hi && src[2] == lo;
  }

  /** Encoded text up to a percent sign that two hex digits do not follow. */
  ghost predicate IsCutShort(src: Bytes, text: Bytes, flags: Flags) {
    exists i :: 0 <= i <= |src| && BadEscape(src[i..]) && IsEncoding(src[..i], text, flags)
  }

  // ---------------------------------------------------------------- the decoder

  datatype Decoded = Decoded(ok: bool, text: Bytes) {
    function After(head: Bytes): Decoded {
      Decoded(ok, head + text)
    }
  }

  /** What the decoder answers, and what it leaves in its output either way. */
  function Decode(src: Bytes, flags: Flags): Decoded {
    if src == [] then Decoded(true, [])
    else if BadEscape(src) then Decoded(false, [])
    else if src[0] == PERCENT then Decode(src[3..], flags).After(Escape(src[1], src[2]).Meant(flags))
    else if src[0] == PLUS && flags.space then Decode(src[1..], flags).After([SPACE])
    else Decode(src[1..], flags).After([src[0]])
  }

  /** The decoder on a source that may be missing and an output that may hold something: a
      missing source fails and leaves the output alone. */
  method DecodePercent(src: Option<Bytes>, out: Bytes, flags: Flags) returns (ok: bool, res: Bytes)
    ensures src.None? ==> !ok && res == out
    ensures src.Some? ==> Decoded(ok, res) == Decode(src.value, flags)
  {
    if src.None? {
      return false, out;
    }
    ok, res := DecodeLoop(src.value, flags);
  }

  method DecodeLoop(src: Bytes, flags: Flags) returns (ok: bool, res: Bytes)
    ensures Decoded(ok, res) == Decode(src, flags)
  {
    res := [];
    var pos := 0;
    assert src[0..] == src;
    AfterNothing(Decode(src, flags), res);
    while pos < |src|
      invariant 0 <= pos <= |src|
      invariant Decode(src[pos..], flags).After(res) == Decode(src, flags)
    {
      ghost var rest, before := src[pos..], res;
      AfterNothing(Decoded(false, []), res);
      if src[pos] == PERCENT {
        if |src| - pos < 3 {
          return false, res;
        }
        var h := Char2Hex(src[pos + 1]);
        var l := Char2Hex(src[pos + 2]);
        if h < 0 || l < 0 {
          return false, res;
        }
        var decoded := 16 * h + l;
        if decoded == SLASH {
          if flags.slash {
            res := res + [decoded];
          } else {
            res := res + src[pos..pos + 3];
          }
        } else {
          res := res + [decoded];
        }
        assert res == before + Escape(rest[1], rest[2]).Meant(flags);
        AfterTwice(Decode(rest[3..], flags), before, Escape(rest[1], rest[2]).Meant(flags));
        assert rest[3..] == src[pos + 3..];
        pos := pos + 3;
      } else if src[pos] == PLUS && flags.space {
        res := res + [SPACE];
        AfterTwice(Decode(rest[1..], flags), before, [SPACE]);
        assert rest[1..] == src[pos + 1..];
        pos := pos + 1;
      } else {
        res := res + [src[pos]];
        AfterTwice(Decode(rest[1..], flags), before, [rest[0]]);
        assert rest[1..] == src[pos + 1..];
        pos := pos + 1;
      }
    }
    ok := true;
    AfterNothing(Decoded(true, []), res);
  }

  lemma AfterNothing(d: Decoded, head: Bytes)
    ensures d.After([]) == d
    ensures d.text == [] ==> d.After(head).text == head
  {
    assert [] + d.text == d.text;
  }

  lemma AfterTwice(d: Decoded, a: Bytes, b: Bytes)
    ensures d.After(b).After(a) == d.After(a + b)
  {
    assert a + (b + d.text) == (a + b) + d.text;
  }

  /** The wrappers that return text: a malformed input decodes to nothing. */
  function DecodeOrEmpty(src: Bytes, flags: Flags): Bytes {
    var d := Decode(src, flags);
    if d.ok then d.text else []
  }

  method DecodeQuery(src: Bytes) returns (res: Bytes)
    ensures res == DecodeOrEmpty(src, QUERY_FLAGS)
  {
    var ok;
    ok, res := DecodePercent(Some(src), [], QUERY_FLAGS);
    if !ok {
      res := [];
    }
  }

  // ---------------------------------------------------------------- the decoder meets the grammar

  /** The piece an input starts with. */
  function FirstPiece(src: Bytes, flags: Flags): (first: Piece)
    requires src != [] && !BadEscape(src)
    ensures first.Valid(flags) && first.Written() <= src
  {
    if src[0] == PERCENT then Escape(src[1], src[2])
    else if src[0] == PLUS && flags.space then PlusSign
    else Plain(src[0])
  }

  lemma DecodeFirst(src: Bytes, flags: Flags)
    requires src != [] && !BadEscape(src)
    ensures var first := FirstPiece(src, flags);
            Decode(src, flags) == Decode(src[|first.Written()|..], flags).After(first.Meant(flags))
  {
  }

  lemma FirstPieceIs(piece: Piece, rest: Bytes, flags: Flags)
    requires piece.Valid(flags)
    ensures var src := piece.Written() + rest;
            src != [] && !BadEscape(src) && FirstPiece(src, flags) == piece && src[|piece.Written()|..] == rest
  {
  }

  /** Valid pieces decode to what they mean, and the decoder goes on with what follows them. */
  lemma {:induction false} DecodeOfPieces(pieces: seq<Piece>, rest: Bytes, flags: Flags)
    requires AllValid(pieces, flags)
    ensures Decode(Written(pieces) + rest, flags) == Decode(rest, flags).After(Meant(pieces, flags))
    decreases |pieces|
  {
    if pieces == [] {
      assert Written(pieces) + rest == rest;
      AfterNothing(Decode(rest, flags), []);
    } else {
      var first, others := pieces[0].Written(), Written(pieces[1..]) + rest;
      assert Written(pieces) + rest == first + others;
      FirstPieceIs(pieces[0], others, flags);
      DecodeFirst(first + others, flags);
      DecodeOfPieces(pieces[1..], rest, flags);
      AfterTwice(Decode(rest, flags), pieces[0].Meant(flags), Meant(pieces[1..], flags));
    }
  }

  /** ... so it stops there when nothing follows, or a bad escape. */
  lemma DecodeStops(pieces: seq<Piece>, rest: Bytes, flags: Flags)
    requires AllValid(pieces, flags) && (rest == [] || BadEscape(rest))
    ensures Decode(Written(pieces) + rest, flags) == Decoded(rest == [], Meant(pieces, flags))
  {
    DecodeOfPieces(pieces, rest, flags);
    AfterNothing(Decode(rest, flags), Meant(pieces, flags));
  }

  /** Every input is a sequence of valid pieces, followed by nothing or by a bad escape. */
  lemma {:induction false} Pieces(src: Bytes, flags: Flags) returns (pieces: seq<Piece>, rest: Bytes)
    ensures AllValid(pieces, flags) && src == Written(pieces) + rest
    ensures rest == [] || BadEscape(rest)
  {
    if src == [] || BadEscape(src) {
      pieces, rest := [], src;
    } else {
      var first := FirstPiece(src, flags);
      var n := |first.Written()|;
      assert src == first.Written() + src[n..];
      var others;
      others, rest := Pieces(src[n..], flags);
      pieces := [first] + others;
      assert pieces[1..] == others;
    }
  }

  lemma PiecesOfEncoding(src: Bytes, text: Bytes, flags: Flags) returns (pieces: seq<Piece>)
    requires IsEncoding(src, text, flags)
    ensures AllValid(pieces, flags) && Written(pieces) == src && Meant(pieces, flags) == text
  {
    pieces :| AllValid(pieces, flags) && Written(pieces) == src && Meant(pieces, flags) == text;
  }

  lemma EncodingDecodes(src: Bytes, text: Bytes, flags: Flags)
    requires IsEncoding(src, text, flags)
    ensures Decode(src, flags) == Decoded(true, text)
  {
    var pieces := PiecesOfEncoding(src, text, flags);
    DecodeStops(pieces, [], flags);
    assert Written(pieces) + [] == src;
  }

  lemma BadEscapeStops(head: Bytes, rest: Bytes, text: Bytes, flags: Flags)
    requires BadEscape(rest) && IsEncoding(head, text, flags)
    ensures Decode(head + rest, flags) == Decoded(false, text)
  {
    var pieces := PiecesOfEncoding(head, text, flags);
    DecodeStops(pieces, rest, flags);
  }

  lemma CutShortFails(src: Bytes, text: Bytes, flags: Flags)
    requires IsCutShort(src, text, flags)
    ensures Decode(src, flags) == Decoded(false, text)
  {
    var i :| 0 <= i <= |src| && BadEscape(src[i..]) && IsEncoding(src[..i], text, flags);
    var head, rest := src[..i], src[i..];
    assert head + rest == src;
    BadEscapeStops(head, rest, text, flags);
  }

  lemma DecodesOneWay(src: Bytes, flags: Flags)
    ensures var d := Decode(src, flags);
            if d.ok then IsEncoding(src, d.text, flags) else IsCutShort(src, d.text, flags)
  {
    var pieces, rest := Pieces(src, flags);
    DecodeStops(pieces, rest, flags);
    var i := |Written(pieces)|;
    assert src[..i] == Written(pieces) && src[i..] == rest;
    assert IsEncoding(src[..i], Meant(pieces, flags), flags);
    assert rest == [] ==> src[..i] == src;
  }

  /** The decoder succeeds with exactly the encoded text, and fails exactly at the first
      percent sign without two hex digits, having decoded what stands before it. */
  lemma DecodeIsExact(src: Bytes, text: Bytes, flags: Flags)
    ensures Decode(src, flags) == Decoded(true, text) <==> IsEncoding(src, text, flags)
    ensures Decode(src, flags) == Decoded(false, text) <==> IsCutShort(src, text, flags)
  {
    DecodesOneWay(src, flags);
    if IsEncoding(src, text, flags) {
      EncodingDecodes(src, text, flags);
    }
    if IsCutShort(src, text, flags) {
      CutShortFails(src, text, flags);
    }
  }

  /** A byte that is no hex digit and stands for itself cuts the input: what stands before it
      is decoded on its own, and if well-formed, what follows as well. */
  lemma DecodeAcross(a: Bytes, c: Byte, b: Bytes, flags: Flags)
    requires !IsHex(c) && c != PERCENT && c != PLUS
    ensures var d := Decode(a, flags);
            Decode(a + [c] + b, flags) == if d.ok then Decode(b, flags).After(d.text + [c]) else d
  {
    var pieces, rest := Pieces(a, flags);
    DecodeStops(pieces, rest, flags);
    var text := Meant(pieces, flags);
    if rest == [] {
      assert a + [c] + b == Written(pieces) + ([c] + b);
      DecodeOfPieces(pieces, [c] + b, flags);
      assert ([c] + b)[1..] == b;
      AfterTwice(Decode(b, flags), text, [c]);
    } else {
      assert a + [c] + b == Written(pieces) + (rest + [c] + b);
      DecodeStops(pieces, rest + [c] + b, flags);
    }
  }

  /** Encodings put together encode the texts put together. */
  lemma EncodingsJoin(a: Bytes, textA: Bytes, b: Bytes, textB: Bytes, flags: Flags)
    requires IsEncoding(a, textA, flags) && IsEncoding(b, textB, flags)
    ensures IsEncoding(a + b, textA + textB, flags)
  {
    var pieces := PiecesOfEncoding(a, textA, flags);
    DecodeOfPieces(pieces, b, flags);
    EncodingDecodes(b, textB, flags);
    DecodeIsExact(a + b, textA + textB, flags);
  }

  /** An escaped slash is decoded when slashes are to be, and stays as written otherwise. */
  lemma EscapedSlash(a: Bytes, textA: Bytes, b: Bytes, textB: Bytes, slash: bool, space: bool, lo: Byte)
    requires IsEncoding(a, textA, Flags(slash, space)) && IsEncoding(b, textB, Flags(slash, space))
    requires lo == 0x46 || lo == 0x66
    ensures Decode(a + [0x25, 0x32, lo] + b, Flags(slash, space)) ==
            Decoded(true, textA + (if slash then [0x2F] else [0x25, 0x32, lo]) + textB)
  {
    var flags, escape := Flags(slash, space), [0x25, 0x32, lo];
    var meant := if slash then [0x2F] else escape;
    assert escape[3..] == [] && Decode(escape, flags) == Decoded(true, meant);
    DecodeIsExact(escape, meant, flags);
    EncodingsJoin(a, textA, escape, meant, flags);
    EncodingsJoin(a + escape, textA + meant, b, textB, flags);
    EncodingDecodes(a + escape + b, textA + meant + textB, flags);
  }

  /** Malformed input, whatever comes before its bad escape. */
  ghost predicate IsMalformed(src: Bytes, flags: Flags) {
    exists text :: IsCutShort(src, text, flags)
  }

  // ---------------------------------------------------------------- encoding

  const DIGITS := "0123456789ABCDEF"

  /** Write the bytes of `keep` as they are and escape the others. */
  function Encode(text: Bytes, keep: set<Byte>): Bytes {
    if text == [] then []
    else (if text[0] in keep then [text[0]]
          else [PERCENT, DIGITS[text[0] / 16] as int, DIGITS[text[0] % 16] as int]) +
         Encode(text[1..], keep)
  }

  /** Decoding undoes encoding, as long as the signs with a meaning are escaped. */
  lemma {:induction false} DecodeOfEncode(text: Bytes, keep: set<Byte>, flags: Flags)
    requires PERCENT !in keep && (flags.space ==> PLUS !in keep) && (flags.slash || SLASH in keep)
    ensures Decode(Encode(text, keep), flags) == Decoded(true, text)
  {
    if text != [] {
      DecodeOfEncode(text[1..], keep, flags);
      var src, b := Encode(text, keep), text[0];
      if b in keep {
        assert src[1..] == Encode(text[1..], keep);
      } else {
        Char2HexInvertsDigits(src[1], b / 16);
        Char2HexInvertsDigits(src[2], b % 16);
        assert src[3..] == Encode(text[1..], keep);
        assert Unescape(src[1], src[2]) == b;
      }
      assert text == [b] + text[1..];
    }
  }

  lemma {:induction false} EncodeAvoids(text: Bytes, keep: set<Byte>, c: Byte)
    requires c !in keep && c != PERCENT && !IsHex(c)
    ensures c !in Encode(text, keep)
  {
    if text != [] {
      EncodeAvoids(text[1..], keep, c);
      Char2HexInvertsDigits(DIGITS[text[0] / 16] as int, text[0] / 16);
      Char2HexInvertsDigits(DIGITS[text[0] % 16] as int, text[0] % 16);
    }
  }
}
