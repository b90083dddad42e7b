/** SSE framing at the network boundary: bytes arrive in arbitrary chunks and
    leave as complete UTF-8 frames. */
module Sse {
  import opened Machine
  import opened Utf8

  const MAX_FRAME_BYTES: nat := 1024 * 1024

  const LF: Byte := 0x0A
  const CR: Byte := 0x0D
  const LF_BLANK: Bytes := [LF, LF]
  const CRLF_BLANK: Bytes := [CR, LF, CR, LF]

  datatype SseError = FrameTooLarge | InvalidUtf8 | TransportTruncated

  // ----- Finding a frame boundary -----

  predicate MatchAt(s: Bytes, pattern: Bytes, i: nat) {
    i + |pattern| <= |s| && s[i..i + |pattern|] == pattern
  }

  /** The first position at or after `from` where `pattern` occurs. */
  function Position(s: Bytes, pattern: Bytes, from: nat): (r: Option<nat>)
    ensures r.Some? ==> from <= r.value && r.value + |pattern| <= |s|
    decreases |s| - from
  {
    if from + |pattern| > |s| then None
    else if MatchAt(s, pattern, from) then Some(from)
    else if from == |s| then None
    else Position(s, pattern, from + 1)
  }

  /** The end of the first frame and the width of its separator. */
  function FrameBoundary(s: Bytes): (r: Option<(nat, nat)>)
    ensures r.Some? ==> 2 <= r.value.1 <= 4 && r.value.0 + r.value.1 <= |s|
  {
    match (Position(s, LF_BLANK, 0), Position(s, CRLF_BLANK, 0))
    case (Some(left), Some(right)) => if left <= right then Some((left, 2)) else Some((right, 4))
    case (None, Some(right)) => Some((right, 4))
    case (Some(left), None) => Some((left, 2))
    case (None, None) => None
  }

  predicate SeparatorAt(s: Bytes, i: nat) {
    MatchAt(s, LF_BLANK, i) || MatchAt(s, CRLF_BLANK, i)
  }

  lemma {:induction false} PositionIsFirst(s: Bytes, pattern: Bytes, from: nat)
    ensures var r := Position(s, pattern, from);
      && (r.Some? ==> MatchAt(s, pattern, r.value))
      && (forall i :: from <= i && (r.Some? ==> i < r.value) ==> !MatchAt(s, pattern, i))
    decreases |s| - from
  {
    if from + |pattern| <= |s| && !MatchAt(s, pattern, from) && from < |s| {
      PositionIsFirst(s, pattern, from + 1);
    }
  }

  /** The boundary is the first place where either separator occurs, and its width
      says which separator that is. */
  lemma BoundaryIsFirst(s: Bytes)
    ensures FrameBoundary(s).None? <==> forall i: nat :: !SeparatorAt(s, i)
    ensures FrameBoundary(s).Some? ==>
      var (end, width) := FrameBoundary(s).value;
      && (forall i: nat :: i < end ==> !SeparatorAt(s, i))
      && (width == 2 || width == 4)
      && s[end..end + width] == if width == 2 then [0x0A, 0x0A] else [0x0D, 0x0A, 0x0D, 0x0A]
  {
    PositionIsFirst(s, LF_BLANK, 0);
    PositionIsFirst(s, CRLF_BLANK, 0);
    if FrameBoundary(s).Some? {
      assert SeparatorAt(s, FrameBoundary(s).value.0);
    }
  }

  /** A first occurrence of a separator is the boundary. */
  lemma FirstIsBoundary(s: Bytes, end: nat, width: nat)
    requires width == 2 || width == 4
    requires MatchAt(s, if width == 2 then LF_BLANK else CRLF_BLANK, end)
    requires forall i: nat :: i < end ==> !SeparatorAt(s, i)
    ensures FrameBoundary(s) == Some((end, width))
  {
    BoundaryIsFirst(s);
    assert SeparatorAt(s, end);
    var (found, _) := FrameBoundary(s).value;
    assert found == end by {
      if found < end {
        assert SeparatorAt(s, found);
      }
    }
    assert LF_BLANK[0] == LF && CRLF_BLANK[0] == CR;
    assert s[end..end + width][0] == s[end];
  }

  lemma MatchInPrefix(s: Bytes, t: Bytes, pattern: Bytes, i: nat)
    requires i + |pattern| <= |s|
    ensures MatchAt(s + t, pattern, i) <==> MatchAt(s, pattern, i)
  {
    assert (s + t)[i..i + |pattern|] == s[i..i + |pattern|];
  }

  /** Bytes that arrive later cannot complete a separator that starts before the first one. */
  lemma NoEarlierSeparator(s: Bytes, t: Bytes, end: nat, width: nat, i: nat)
    requires width == 2 || width == 4
    requires MatchAt(s, if width == 2 then LF_BLANK else CRLF_BLANK, end)
    requires i < end && !SeparatorAt(s, i)
    ensures !SeparatorAt(s + t, i)
  {
    MatchInPrefix(s, t, LF_BLANK, i);
    if i + 4 <= |s| {
      MatchInPrefix(s, t, CRLF_BLANK, i);
    } else {
      // Only the byte before a line-feed pair at the very end: it would start "\r\n\n".
      assert s[end..end + 2][1] == LF;
      assert (s + t)[end + 1] == LF;
      assert CRLF_BLANK[2] == CR;
    }
  }

  /** A boundary found in a prefix stays the boundary in every extension. */
  lemma BoundaryIsStable(s: Bytes, t: Bytes)
    requires FrameBoundary(s).Some?
    ensures FrameBoundary(s + t) == FrameBoundary(s)
  {
    BoundaryIsFirst(s);
    var (end, width) := FrameBoundary(s).value;
    forall i: nat | i < end
      ensures !SeparatorAt(s + t, i)
    {
      NoEarlierSeparator(s, t, end, width, i);
    }
    MatchInPrefix(s, t, if width == 2 then LF_BLANK else CRLF_BLANK, end);
    FirstIsBoundary(s + t, end, width);
  }

  /** No proper part of a frame and its separator already has a boundary. */
  lemma BoundaryIsMinimal(s: Bytes, k: nat)
    requires FrameBoundary(s).Some?
    requires k < FrameBoundary(s).value.0 + FrameBoundary(s).value.1
    ensures FrameBoundary(s[..k]).None?
  {
    assert s[..k] + s[k..] == s;
    if FrameBoundary(s[..k]).Some? {
      BoundaryIsStable(s[..k], s[k..]);
    }
  }

  // ----- Pieces: the stream as frames, separators and a remainder -----

  /** A raw frame together with the separator that ended it. */
  datatype Piece = Piece(raw: Bytes, separator: Bytes) {
    function Whole(): Bytes { raw + separator }
  }

  function Pieces(s: Bytes): seq<Piece> {
    match FrameBoundary(s)
    case None => []
    case Some((end, width)) =>
      [Piece(s[..end], s[end..end + width])] + Pieces(s[end + width..])
  }

  /** What is left once every complete frame is cut off. */
  function Residue(s: Bytes): Bytes {
    match FrameBoundary(s)
    case None => s
    case Some((end, width)) => Residue(s[end + width..])
  }

  function Join(pieces: seq<Piece>): Bytes {
    if pieces == [] then [] else pieces[0].Whole() + Join(pieces[1..])
  }

  /** The first boundary of the piece's bytes is the piece's own end. */
  ghost predicate Minimal(p: Piece) {
    FrameBoundary(p.Whole()) == Some((|p.raw|, |p.separator|))
  }

  ghost predicate WellCut(pieces: seq<Piece>, tail: Bytes) {
    (forall p :: p in pieces ==> Minimal(p)) && FrameBoundary(tail).None?
  }

  lemma FirstPieceIsMinimal(s: Bytes)
    requires FrameBoundary(s).Some?
    ensures var (end, width) := FrameBoundary(s).value;
      Minimal(Piece(s[..end], s[end..end + width]))
  {
    var (end, width) := FrameBoundary(s).value;
    var whole, rest := s[..end + width], s[end + width..];
    assert s[..end] + s[end..end + width] == whole;
    assert whole + rest == s;
    BoundaryIsFirst(s);
    MatchInPrefix(whole, rest, if width == 2 then LF_BLANK else CRLF_BLANK, end);
    BoundaryIsFirst(whole);
    assert SeparatorAt(whole, end);
    BoundaryIsStable(whole, rest);
  }

  /** A piece in front of any bytes is cut off first. */
  lemma FirstCut(first: Piece, rest: Bytes)
    requires Minimal(first)
    ensures Pieces(first.Whole() + rest) == [first] + Pieces(rest)
    ensures Residue(first.Whole() + rest) == Residue(rest)
  {
    var s := first.Whole() + rest;
    BoundaryIsStable(first.Whole(), rest);
    assert s[..|first.raw|] == first.raw;
    assert s[|first.raw|..|first.raw| + |first.separator|] == first.separator;
    assert s[|first.raw| + |first.separator|..] == rest;
  }

  lemma TakeFirst(s: Bytes) returns (first: Piece, rest: Bytes)
    requires FrameBoundary(s).Some?
    ensures s == first.Whole() + rest && Minimal(first) && |rest| < |s|
  {
    var (end, width) := FrameBoundary(s).value;
    first, rest := Piece(s[..end], s[end..end + width]), s[end + width..];
    FirstPieceIsMinimal(s);
    InThree(s, end, end + width);
  }

  lemma InThree(s: Bytes, from: nat, to: nat)
    requires from <= to <= |s|
    ensures s == s[..from] + s[from..to] + s[to..]
  {
  }

  lemma JoinCons(first: Piece, pieces: seq<Piece>, tail: Bytes)
    ensures Join([first] + pieces) + tail == first.Whole() + (Join(pieces) + tail)
  {
    assert ([first] + pieces)[1..] == pieces;
  }

  /** Nothing is lost or invented: the pieces and the remainder are the stream,
      and every cut is at a first boundary. */
  lemma {:induction false} CutsAreSound(s: Bytes)
    ensures Join(Pieces(s)) + Residue(s) == s
    ensures WellCut(Pieces(s), Residue(s))
    decreases |s|
  {
    if FrameBoundary(s).Some? {
      var first, rest := TakeFirst(s);
      FirstCut(first, rest);
      CutsAreSound(rest);
      JoinCons(first, Pieces(rest), Residue(rest));
    }
  }

  /** A raw frame has no separator in it, and what ended it is one of the two. */
  lemma MinimalPiece(p: Piece)
    requires Minimal(p)
    ensures FrameBoundary(p.raw).None?
    ensures p.separator == LF_BLANK || p.separator == CRLF_BLANK
  {
    BoundaryIsFirst(p.Whole());
    BoundaryIsMinimal(p.Whole(), |p.raw|);
    assert p.Whole()[..|p.raw|] == p.raw;
    assert p.Whole()[|p.raw|..|p.raw| + |p.separator|] == p.separator;
  }

  /** There is only one way to cut a stream at first boundaries. */
  lemma {:induction false} CutsAreUnique(pieces: seq<Piece>, tail: Bytes)
    requires WellCut(pieces, tail)
    ensures Pieces(Join(pieces) + tail) == pieces
    ensures Residue(Join(pieces) + tail) == tail
  {
    if pieces == [] {
      assert Join(pieces) + tail == tail;
    } else {
      var first := pieces[0];
      assert Minimal(first);
      assert pieces == [first] + pieces[1..];
      CutsAreUnique(pieces[1..], tail);
      JoinCons(first, pieces[1..], tail);
      FirstCut(first, Join(pieces[1..]) + tail);
    }
  }

  lemma {:induction false} JoinAppend(a: seq<Piece>, b: seq<Piece>)
    ensures Join(a + b) == Join(a) + Join(b)
  {
    if a == [] {
      assert a + b == b;
    } else {
      assert (a + b)[1..] == a[1..] + b;
      JoinAppend(a[1..], b);
    }
  }

  lemma JoinResumed(first: seq<Piece>, middle: Bytes, second: seq<Piece>, tail: Bytes, b: Bytes)
    requires Join(second) + tail == middle + b
    ensures Join(first + second) + tail == Join(first) + middle + b
  {
    JoinAppend(first, second);
    Regroup(Join(first), Join(second), tail, middle, b);
  }

  lemma Regroup(a: Bytes, s: Bytes, t: Bytes, m: Bytes, b: Bytes)
    requires s + t == m + b
    ensures a + s + t == a + m + b
  {
    assert a + s + t == a + (s + t);
    assert a + m + b == a + (m + b);
  }

  /** Cutting early and keeping the remainder is the same as waiting for more bytes. */
  lemma CutsResume(a: Bytes, b: Bytes)
    ensures Pieces(a + b) == Pieces(a) + Pieces(Residue(a) + b)
    ensures Residue(a + b) == Residue(Residue(a) + b)
  {
    CutsAreSound(a);
    CutsAreSound(Residue(a) + b);
    JoinResumed(Pieces(a), Residue(a), Pieces(Residue(a) + b), Residue(Residue(a) + b), b);
    CutsAreUnique(Pieces(a) + Pieces(Residue(a) + b), Residue(Residue(a) + b));
  }

  predicate Separated(p: Piece) {
    p.separator == LF_BLANK || p.separator == CRLF_BLANK
  }

  lemma ValidFirstPart(p: Piece, rest: Bytes)
    requires Separated(p)
    requires Valid(p.raw + p.separator + rest)
    ensures Valid(p.raw) && Valid(rest)
  {
    assert p.raw + p.separator + rest == p.raw + (p.separator + rest);
    ValidCut(p.raw, p.separator + rest);
    AsciiIsValid(p.separator);
    ValidJoin(p.separator, rest);
  }

  lemma {:induction false} ValidPartsOfJoin(pieces: seq<Piece>, tail: Bytes)
    requires forall p :: p in pieces ==> Separated(p)
    requires Valid(Join(pieces) + tail)
    ensures forall p :: p in pieces ==> Valid(p.raw)
    ensures Valid(tail)
  {
    if pieces == [] {
      assert Join(pieces) + tail == tail;
    } else {
      var first, rest := pieces[0], Join(pieces[1..]) + tail;
      assert Separated(first);
      assert Join(pieces) + tail == first.raw + first.separator + rest;
      ValidFirstPart(first, rest);
      ValidPartsOfJoin(pieces[1..], tail);
    }
  }

  lemma PiecesAreSeparated(s: Bytes)
    ensures forall p :: p in Pieces(s) ==> Separated(p)
  {
    CutsAreSound(s);
    forall p | p in Pieces(s)
      ensures Separated(p)
    {
      MinimalPiece(p);
    }
  }

  /** Separators are ASCII, so no cut falls inside a character. */
  lemma ValidPieces(s: Bytes)
    requires Valid(s)
    ensures forall p :: p in Pieces(s) ==> Valid(p.raw)
    ensures Valid(Residue(s))
  {
    CutsAreSound(s);
    PiecesAreSeparated(s);
    ValidPartsOfJoin(Pieces(s), Residue(s));
  }

  // ----- Frames handed to the adapter -----

  /** `str::replace("\r\n", "\n")`. */
  function ReplaceCrLf(s: Bytes): Bytes {
    if |s| >= 2 && s[0] == CR && s[1] == LF then [LF] + ReplaceCrLf(s[2..])
    else if s == [] then []
    else [s[0]] + ReplaceCrLf(s[1..])
  }

  function Canonical(raw: Bytes): Bytes {
    ReplaceCrLf(raw) + LF_BLANK
  }

  /** Empty raw frames are dropped. */
  function Frames(pieces: seq<Piece>): seq<Bytes> {
    if pieces == [] then []
    else (if pieces[0].raw == [] then [] else [Canonical(pieces[0].raw)]) + Frames(pieces[1..])
  }

  lemma {:induction false} FramesAppend(a: seq<Piece>, b: seq<Piece>)
    ensures Frames(a + b) == Frames(a) + Frames(b)
  {
    if a == [] {
      assert a + b == b;
    } else {
      assert (a + b)[1..] == a[1..] + b;
      FramesAppend(a[1..], b);
    }
  }

  lemma {:induction false} ReplaceKeepsCharacter(character: Bytes, rest: Bytes)
    requires forall i :: 0 <= i < |character| ==> character[i] >= 0x80
    ensures ReplaceCrLf(character + rest) == character + ReplaceCrLf(rest)
  {
    if character == [] {
      assert character + rest == rest;
    } else {
      assert (character + rest)[1..] == character[1..] + rest;
      ReplaceKeepsCharacter(character[1..], rest);
    }
  }

  lemma {:induction false} ReplaceKeepsValid(s: Bytes)
    requires Valid(s)
    ensures Valid(ReplaceCrLf(s))
    decreases |s|
  {
    if s != [] {
      var n := LeadWidth(s);
      var character, rest := s[..n], s[n..];
      assert s == character + rest;
      if s[0] >= 0x80 {
        ReplaceKeepsValid(rest);
        ReplaceKeepsCharacter(character, rest);
        WidthIsLocal(character, rest);
        assert character[LeadWidth(character)..] == [];
        ValidJoin(character, ReplaceCrLf(rest));
      } else {
        ReplaceKeepsValid(rest);
        ValidJoin([s[0]], ReplaceCrLf(rest));
        if |s| >= 2 && s[0] == CR && s[1] == LF {
          assert s[1..][1..] == s[2..];
          ReplaceKeepsValid(s[2..]);
          ValidJoin([LF], ReplaceCrLf(s[2..]));
        }
      }
    }
  }

  /** A line without its line feed, freed of one carriage return at its end. */
  function LineText(line: Bytes): Bytes {
    if line != [] && line[|line| - 1] == CR then line[..|line| - 1] else line
  }

  lemma KeepsFirst(first: Byte, s: Bytes)
    requires !(first == CR && s != [] && s[0] == LF)
    ensures ReplaceCrLf([first] + s) == [first] + ReplaceCrLf(s)
  {
    assert ([first] + s)[1..] == s;
  }

  lemma DropsCr(s: Bytes)
    ensures ReplaceCrLf([CR, LF] + s) == [LF] + ReplaceCrLf(s)
  {
    assert ([CR, LF] + s)[2..] == s;
  }

  lemma {:induction false} LineIsKept(line: Bytes)
    requires LF !in line
    ensures ReplaceCrLf(line) == line
  {
    if line != [] {
      LineIsKept(line[1..]);
      assert line == [line[0]] + line[1..];
      KeepsFirst(line[0], line[1..]);
    }
  }

  lemma LineTextStep(first: Byte, more: Bytes)
    requires more != [] || first != CR
    ensures LineText([first] + more) == [first] + LineText(more)
  {
    if more != [] && more[|more| - 1] == CR {
      assert ([first] + more)[..|more|] == [first] + more[..|more| - 1];
    }
  }

  lemma Prepend(first: Byte, more: Bytes, rest: Bytes)
    ensures [first] + more + [LF] + rest == [first] + (more + [LF] + rest)
  {
  }

  /** Line by line, exactly one carriage return in front of a line feed is dropped; nothing else
      changes, not even a carriage return that ends the frame. */
  lemma {:induction false} CanonicalLines(line: Bytes, rest: Bytes)
    requires LF !in line
    ensures ReplaceCrLf(line) == line
    ensures ReplaceCrLf(line + [LF] + rest) == LineText(line) + [LF] + ReplaceCrLf(rest)
  {
    LineIsKept(line);
    if line == [] {
      assert line + [LF] + rest == [LF] + rest;
      KeepsFirst(LF, rest);
    } else if line == [CR] {
      assert line + [LF] + rest == [CR, LF] + rest;
      DropsCr(rest);
    } else {
      var first, more := line[0], line[1..];
      CanonicalLines(more, rest);
      assert line == [first] + more;
      Prepend(first, more, rest);
      assert more != [] ==> more[0] in line;
      KeepsFirst(first, more + [LF] + rest);
      LineTextStep(first, more);
      Prepend(first, LineText(more), ReplaceCrLf(rest));
    }
  }

  /** A frame cut from valid text is valid text ending in a blank line. */
  lemma CanonicalIsText(raw: Bytes)
    requires Valid(raw)
    ensures Valid(Canonical(raw))
    ensures LF_BLANK <= Canonical(raw)[|ReplaceCrLf(raw)|..]
  {
    ReplaceKeepsValid(raw);
    AsciiIsValid(LF_BLANK);
    ValidJoin(ReplaceCrLf(raw), LF_BLANK);
  }

  // ----- One push -----

  datatype Outcome =
    | Accepted(frames: seq<Bytes>, tail: Bytes)
    | Refused(error: SseError, tail: Bytes)
  {
    function After(earlier: seq<Bytes>): Outcome {
      match this
      case Accepted(frames, rest) => Accepted(earlier + frames, rest)
      case Refused(_, _) => this
    }
  }

  /** What becomes of a push: one raw frame is judged before what the rest of the buffer gives. */
  function Judged(raw: Bytes, rest: Bytes, others: Outcome): Outcome {
    if raw == [] then others
    else if |raw| > MAX_FRAME_BYTES then Refused(FrameTooLarge, rest)
    else if !Valid(raw) then Refused(InvalidUtf8, rest)
    else others.After([Canonical(raw)])
  }

  /** The decoder's loop: cut, check and canonicalize until no boundary is left. */
  function Drain(s: Bytes): Outcome {
    match FrameBoundary(s)
    case None =>
      if |s| > MAX_FRAME_BYTES then Refused(FrameTooLarge, s) else Accepted([], s)
    case Some((end, width)) =>
      Judged(s[..end], s[end + width..], Drain(s[end + width..]))
  }

  lemma DrainOne(s: Bytes, end: nat, width: nat)
    requires FrameBoundary(s) == Some((end, width))
    ensures Drain(s) == Judged(s[..end], s[end + width..], Drain(s[end + width..]))
  {
  }

  predicate Sound(p: Piece) {
    |p.raw| <= MAX_FRAME_BYTES && Valid(p.raw)
  }

  ghost predicate AllSound(pieces: seq<Piece>) {
    forall p :: p in pieces ==> Sound(p)
  }

  /** The outcome says whether every raw frame is short enough and valid text and the remainder is
      short enough, and yields exactly the canonical frames. */
  ghost predicate Fair(o: Outcome, pieces: seq<Piece>, residue: Bytes) {
    && (o.Accepted? <==> AllSound(pieces) && |residue| <= MAX_FRAME_BYTES)
    && (o.Accepted? ==> o == Accepted(Frames(pieces), residue))
    && (o.Refused? ==> o.error != TransportTruncated)
    && (o.Refused? && o.error == InvalidUtf8 ==> exists p :: p in pieces && !Valid(p.raw))
  }

  lemma FairStep(first: Piece, rest: Bytes, o: Outcome, pieces: seq<Piece>, residue: Bytes)
    requires Fair(o, pieces, residue)
    ensures Fair(Judged(first.raw, rest, o), [first] + pieces, residue)
  {
    var all := [first] + pieces;
    assert all[0] == first && all[1..] == pieces;
    assert forall p :: p in all <==> p == first || p in pieces;
    assert AllSound(all) <==> Sound(first) && AllSound(pieces);
  }

  lemma {:induction false} DrainIsFair(s: Bytes)
    ensures Fair(Drain(s), Pieces(s), Residue(s))
  {
    if FrameBoundary(s).Some? {
      var (end, width) := FrameBoundary(s).value;
      var first, rest := Piece(s[..end], s[end..end + width]), s[end + width..];
      DrainIsFair(rest);
      DrainOne(s, end, width);
      FairStep(first, rest, Drain(rest), Pieces(rest), Residue(rest));
    }
  }

  /** A push is accepted exactly when every raw frame is short enough and valid text and
      the remainder is short enough; it then yields exactly the canonical frames. */
  lemma DrainAccepts(s: Bytes)
    ensures Drain(s).Accepted? <==> AllSound(Pieces(s)) && |Residue(s)| <= MAX_FRAME_BYTES
    ensures Drain(s).Accepted? ==> Drain(s) == Accepted(Frames(Pieces(s)), Residue(s))
    ensures Drain(s).Refused? ==> Drain(s).error != TransportTruncated
    ensures Drain(s).Refused? && Drain(s).error == InvalidUtf8 ==> exists p :: p in Pieces(s) && !Valid(p.raw)
  {
    DrainIsFair(s);
  }

  /** Piece `k` is the first that does not pass: it is named by its own fault, and everything after it is
      kept. Without such a piece the remainder is too long. */
  ghost predicate Blames(o: Outcome, pieces: seq<Piece>, residue: Bytes, k: nat) {
    && k <= |pieces| && AllSound(pieces[..k])
    && (if k == |pieces| then |residue| > MAX_FRAME_BYTES && o == Refused(FrameTooLarge, residue)
        else
          var raw := pieces[k].raw;
          && (|raw| > MAX_FRAME_BYTES || !Valid(raw))
          && o == Refused(if |raw| > MAX_FRAME_BYTES then FrameTooLarge else InvalidUtf8, Join(pieces[k + 1..]) + residue))
  }

  lemma BlamesLater(first: Piece, rest: Bytes, o: Outcome, pieces: seq<Piece>, residue: Bytes, k: nat,
                    judged: Outcome, all: seq<Piece>)
    requires Sound(first) && Blames(o, pieces, residue, k)
    requires judged == Judged(first.raw, rest, o) && all == [first] + pieces
    ensures Blames(judged, all, residue, k + 1)
  {
    assert all[..k + 1] == [first] + pieces[..k];
    if k < |pieces| {
      assert all[k + 2..] == pieces[k + 1..];
    }
  }

  lemma BlamesFirst(first: Piece, rest: Bytes, o: Outcome, judged: Outcome, all: seq<Piece>)
    requires !Sound(first) && judged == Judged(first.raw, rest, o) && all == [first] + Pieces(rest)
    ensures Blames(judged, all, Residue(rest), 0)
  {
    CutsAreSound(rest);
    assert all[1..] == Pieces(rest);
  }

  lemma OnePieceMore(s: Bytes, end: nat, width: nat)
    requires FrameBoundary(s) == Some((end, width))
    ensures Pieces(s) == [Piece(s[..end], s[end..end + width])] + Pieces(s[end + width..])
    ensures Residue(s) == Residue(s[end + width..])
  {
  }

  /** Why a push is refused, and what the decoder is left with. */
  lemma {:induction false} RefusalNamesTheFirst(s: Bytes) returns (k: nat)
    requires Drain(s).Refused?
    ensures Blames(Drain(s), Pieces(s), Residue(s), k)
  {
    if FrameBoundary(s).None? {
      k := 0;
    } else {
      var (end, width) := FrameBoundary(s).value;
      var first, rest := Piece(s[..end], s[end..end + width]), s[end + width..];
      DrainOne(s, end, width);
      OnePieceMore(s, end, width);
      if Sound(first) {
        k := RefusalNamesTheFirst(rest);
        BlamesLater(first, rest, Drain(rest), Pieces(rest), Residue(rest), k, Drain(s), Pieces(s));
        k := k + 1;
      } else {
        BlamesFirst(first, rest, Drain(rest), Drain(s), Pieces(s));
        k := 0;
      }
    }
  }

  predicate Blank(b: Byte) {
    b == 0x20 || b == 0x09 || b == CR || b == LF
  }

  class SseFrameDecoder {
    var tail: Bytes

    constructor ()
      ensures tail == []
    {
      tail := [];
    }

    method Push(bytes: Bytes) returns (r: Result<seq<Bytes>, SseError>)
      modifies this
      ensures Drain(old(tail) + bytes) ==
        match r { case Ok(frames) => Accepted(frames, tail) case Err(error) => Refused(error, tail) }
    {
      tail := tail + bytes;
      var frames: seq<Bytes> := [];
      var boundary := FrameBoundary(tail);
      while boundary.Some?
        invariant boundary == FrameBoundary(tail)
        invariant Drain(old(tail) + bytes) == Drain(tail).After(frames)
        decreases |tail|
      {
        var (end, width) := boundary.value;
        DrainOne(tail, end, width);
        var raw := tail[..end];
        tail := tail[end + width..];
        boundary := FrameBoundary(tail);
        if raw == [] {
          continue;
        }
        if |raw| > MAX_FRAME_BYTES {
          return Err(FrameTooLarge);
        }
        if !Valid(raw) {
          return Err(InvalidUtf8);
        }
        ghost var earlier := frames;
        frames := frames + [Canonical(raw)];
        assert Drain(tail).After([Canonical(raw)]).After(earlier) == Drain(tail).After(frames) by {
          AfterAppends(Drain(tail), earlier, [Canonical(raw)]);
        }
      }
      if |tail| > MAX_FRAME_BYTES {
        return Err(FrameTooLarge);
      }
      assert Accepted([], tail).After(frames) == Accepted(frames, tail);
      return Ok(frames);
    }

    /** The stream may end only on blank bytes. */
    method Finish() returns (r: Result<(), SseError>)
      ensures r.Ok? <==> forall b :: b in tail ==> Blank(b)
      ensures r.Err? ==> r.error == TransportTruncated
    {
      if forall b | b in tail :: Blank(b) {
        return Ok(());
      }
      return Err(TransportTruncated);
    }
  }

  lemma AfterAppends(o: Outcome, a: seq<Bytes>, b: seq<Bytes>)
    ensures o.After(b).After(a) == o.After(a + b)
  {
    if o.Accepted? {
      assert a + (b + o.frames) == a + b + o.frames;
    }
  }

  // ----- Whole runs: a stream cut into chunks -----

  function Flatten(chunks: seq<Bytes>): Bytes {
    if chunks == [] then [] else chunks[0] + Flatten(chunks[1..])
  }

  /** Successive pushes onto a decoder holding `tail`, up to the first refusal. */
  function PushAll(tail: Bytes, chunks: seq<Bytes>): Outcome
    decreases |chunks|
  {
    if chunks == [] then Accepted([], tail)
    else
      match Drain(tail + chunks[0])
      case Refused(error, rest) => Refused(error, rest)
      case Accepted(frames, rest) => PushAll(rest, chunks[1..]).After(frames)
  }

  /** The remainder after the first `k` chunks passes the size check of that push. */
  ghost predicate TailFits(tail: Bytes, chunks: seq<Bytes>, k: nat)
    requires k <= |chunks|
  {
    |Residue(tail + Flatten(chunks[..k]))| <= MAX_FRAME_BYTES
  }

  ghost predicate EveryTailFits(tail: Bytes, chunks: seq<Bytes>) {
    forall k :: 1 <= k <= |chunks| ==> TailFits(tail, chunks, k)
  }

  lemma FlattenTake(tail: Bytes, chunks: seq<Bytes>, k: nat)
    requires 1 <= k <= |chunks|
    ensures TailFits(tail, chunks, k) <==> TailFits(Residue(tail + chunks[0]), chunks[1..], k - 1)
  {
    var a, later := tail + chunks[0], Flatten(chunks[1..][..k - 1]);
    assert chunks[..k][1..] == chunks[1..][..k - 1];
    assert tail + Flatten(chunks[..k]) == a + later;
    CutsResume(a, later);
  }

  lemma EveryTailFitsStep(tail: Bytes, chunks: seq<Bytes>)
    requires chunks != []
    requires |Residue(tail + chunks[0])| <= MAX_FRAME_BYTES
    ensures EveryTailFits(tail, chunks) <==> EveryTailFits(Residue(tail + chunks[0]), chunks[1..])
  {
    var rest := Residue(tail + chunks[0]);
    if EveryTailFits(tail, chunks) {
      forall k | 1 <= k <= |chunks[1..]|
        ensures TailFits(rest, chunks[1..], k)
      {
        FlattenTake(tail, chunks, k + 1);
        assert TailFits(tail, chunks, k + 1);
      }
    }
    if EveryTailFits(rest, chunks[1..]) {
      forall k | 1 <= k <= |chunks|
        ensures TailFits(tail, chunks, k)
      {
        FlattenTake(tail, chunks, k);
        if k == 1 {
          assert chunks[..1][1..] == [];
          assert tail + Flatten(chunks[..1]) == tail + chunks[0];
        } else {
          assert TailFits(rest, chunks[1..], k - 1);
        }
      }
    }
  }

  /** When, and with what result, a whole run of pushes is accepted. */
  lemma {:induction false} RunAccepts(tail: Bytes, chunks: seq<Bytes>)
    requires FrameBoundary(tail).None?
    ensures var stream := tail + Flatten(chunks);
      && (PushAll(tail, chunks).Accepted? <==> AllSound(Pieces(stream)) && EveryTailFits(tail, chunks))
      && (PushAll(tail, chunks).Accepted? ==>
            PushAll(tail, chunks) == Accepted(Frames(Pieces(stream)), Residue(stream)))
    decreases |chunks|
  {
    if chunks == [] {
      assert tail + Flatten(chunks) == tail;
    } else {
      var a, later := tail + chunks[0], Flatten(chunks[1..]);
      assert tail + Flatten(chunks) == a + later;
      DrainAccepts(a);
      CutsResume(a, later);
      CutsAreSound(a);
      if |Residue(a)| <= MAX_FRAME_BYTES {
        EveryTailFitsStep(tail, chunks);
        RunAccepts(Residue(a), chunks[1..]);
        FramesAppend(Pieces(a), Pieces(Residue(a) + later));
      } else {
        assert chunks[..1][1..] == [];
        assert tail + Flatten(chunks[..1]) == a;
        assert !TailFits(tail, chunks, 1);
      }
    }
  }

  /** However the stream was chunked, if no push was refused then one push of the whole
      stream gives the same frames and the same remainder. */
  lemma ChunkIndependence(chunks: seq<Bytes>)
    requires PushAll([], chunks).Accepted?
    ensures Drain(Flatten(chunks)) == PushAll([], chunks)
  {
    var stream := Flatten(chunks);
    assert [] + stream == stream;
    BoundaryIsFirst([]);
    RunAccepts([], chunks);
    DrainAccepts(stream);
    if chunks != [] {
      assert TailFits([], chunks, |chunks|);
      assert chunks[..|chunks|] == chunks;
    }
  }

  // ----- The converse: which streams survive every chunking -----

  /** Every frame leaves room for all but the last byte of its separator. */
  ghost predicate RoomForSeparators(pieces: seq<Piece>) {
    forall p :: p in pieces ==> |p.Whole()| - 1 <= MAX_FRAME_BYTES
  }

  lemma ResidueInsidePiece(p: Piece, k: nat)
    requires Minimal(p) && k < |p.Whole()|
    ensures Residue(p.Whole()[..k]) == p.Whole()[..k]
  {
    BoundaryIsMinimal(p.Whole(), k);
  }

  lemma ResidueInsideTail(tail: Bytes, k: nat)
    requires FrameBoundary(tail).None? && k <= |tail|
    ensures Residue(tail[..k]) == tail[..k]
  {
    assert tail[..k] + tail[k..] == tail;
    if FrameBoundary(tail[..k]).Some? {
      BoundaryIsStable(tail[..k], tail[k..]);
    }
  }

  lemma PrefixBeyond(whole: Bytes, rest: Bytes, k: nat)
    requires |whole| <= k <= |whole + rest|
    ensures (whole + rest)[..k] == whole + rest[..k - |whole|]
  {
  }

  lemma PrefixWithin(whole: Bytes, rest: Bytes, k: nat)
    requires k <= |whole|
    ensures (whole + rest)[..k] == whole[..k]
  {
  }

  lemma {:induction false} ResidueOfPrefixFits(pieces: seq<Piece>, tail: Bytes, k: nat)
    requires WellCut(pieces, tail) && k <= |Join(pieces) + tail|
    requires RoomForSeparators(pieces) && |tail| <= MAX_FRAME_BYTES
    ensures |Residue((Join(pieces) + tail)[..k])| <= MAX_FRAME_BYTES
  {
    var s := Join(pieces) + tail;
    if pieces == [] {
      assert s == tail;
      ResidueInsideTail(tail, k);
    } else {
      var first, rest := pieces[0], Join(pieces[1..]) + tail;
      assert Minimal(first);
      assert s == first.Whole() + rest;
      if k < |first.Whole()| {
        ResidueInsidePiece(first, k);
        assert s[..k] == first.Whole()[..k];
      } else {
        ResidueOfPrefixFits(pieces[1..], tail, k - |first.Whole()|);
        FirstCut(first, rest[..k - |first.Whole()|]);
        PrefixBeyond(first.Whole(), rest, k);
      }
    }
  }

  lemma FirstOfCut(pieces: seq<Piece>, tail: Bytes)
    requires WellCut(pieces, tail) && pieces != []
    ensures Minimal(pieces[0]) && WellCut(pieces[1..], tail)
    ensures Join(pieces) + tail == pieces[0].Whole() + (Join(pieces[1..]) + tail)
  {
    assert pieces == [pieces[0]] + pieces[1..];
    JoinCons(pieces[0], pieces[1..], tail);
  }

  lemma OverflowsHere(first: Piece, rest: Bytes, k: nat)
    requires Minimal(first) && k == |first.Whole()| - 1 > MAX_FRAME_BYTES
    ensures |Residue((first.Whole() + rest)[..k])| > MAX_FRAME_BYTES
  {
    ResidueInsidePiece(first, k);
    PrefixWithin(first.Whole(), rest, k);
  }

  lemma OverflowsLater(first: Piece, rest: Bytes, later: nat, k: nat)
    requires Minimal(first) && later <= |rest| && k == |first.Whole()| + later
    ensures Residue((first.Whole() + rest)[..k]) == Residue(rest[..later])
  {
    FirstCut(first, rest[..later]);
    PrefixBeyond(first.Whole(), rest, k);
  }

  /** A frame too long for its split separator is caught one byte before the separator ends. */
  lemma {:induction false} LongPieceOverflows(pieces: seq<Piece>, tail: Bytes, i: nat) returns (k: nat)
    requires WellCut(pieces, tail) && i < |pieces|
    requires |pieces[i].Whole()| - 1 > MAX_FRAME_BYTES
    ensures k <= |Join(pieces) + tail| && |Residue((Join(pieces) + tail)[..k])| > MAX_FRAME_BYTES
  {
    var first, rest := pieces[0], Join(pieces[1..]) + tail;
    FirstOfCut(pieces, tail);
    if i == 0 {
      k := |first.Whole()| - 1;
      OverflowsHere(first, rest, k);
    } else {
      var later := LongPieceOverflows(pieces[1..], tail, i - 1);
      k := |first.Whole()| + later;
      OverflowsLater(first, rest, later, k);
    }
  }

  /** Exactly when chunking cannot matter: every way of splitting the stream is accepted
      if and only if one push of it is and no frame comes within its separator of the limit. */
  lemma EveryChunkingIsAccepted(stream: Bytes)
    ensures (forall chunks: seq<Bytes> :: Flatten(chunks) == stream ==> PushAll([], chunks).Accepted?)
       <==> Drain(stream).Accepted? && RoomForSeparators(Pieces(stream))
  {
    if Drain(stream).Accepted? && RoomForSeparators(Pieces(stream)) {
      forall chunks: seq<Bytes> | Flatten(chunks) == stream
        ensures PushAll([], chunks).Accepted?
      {
        AnyChunkingFits(stream, chunks);
      }
    }
    FlattenOne(stream);
    if PushAll([], [stream]).Accepted? {
      ChunkIndependence([stream]);
      if !RoomForSeparators(Pieces(stream)) {
        var p :| p in Pieces(stream) && |p.Whole()| - 1 > MAX_FRAME_BYTES;
        var chunks := SomeSplitIsRefused(stream, p);
      }
    } else {
      OnePush(stream);
    }
  }

  lemma OnePush(stream: Bytes)
    ensures PushAll([], [stream]).Accepted? <==> Drain(stream).Accepted?
  {
    assert [] + stream == stream;
    assert [stream][1..] == [];
  }

  lemma FlattenOne(stream: Bytes)
    ensures Flatten([stream]) == stream
  {
    assert [stream][1..] == [];
    assert stream + [] == stream;
  }

  lemma AnyChunkingFits(stream: Bytes, chunks: seq<Bytes>)
    requires Flatten(chunks) == stream
    requires Drain(stream).Accepted? && RoomForSeparators(Pieces(stream))
    ensures PushAll([], chunks).Accepted?
  {
    BoundaryIsFirst([]);
    assert [] + stream == stream;
    DrainAccepts(stream);
    forall k | 1 <= k <= |chunks|
      ensures TailFits([], chunks, k)
    {
      FlattenPrefix(chunks, k);
      var part := Flatten(chunks[..k]);
      assert [] + part == part == stream[..|part|];
      CutsAreSound(stream);
      ResidueOfPrefixFits(Pieces(stream), Residue(stream), |part|);
    }
    RunAccepts([], chunks);
  }

  lemma {:induction false} FlattenPrefix(chunks: seq<Bytes>, k: nat)
    requires k <= |chunks|
    ensures Flatten(chunks[..k]) <= Flatten(chunks)
  {
    if k > 0 {
      assert chunks[..k][1..] == chunks[1..][..k - 1];
      FlattenPrefix(chunks[1..], k - 1);
    }
  }

  lemma SomeSplitIsRefused(stream: Bytes, p: Piece) returns (chunks: seq<Bytes>)
    requires p in Pieces(stream) && |p.Whole()| - 1 > MAX_FRAME_BYTES
    ensures Flatten(chunks) == stream && PushAll([], chunks).Refused?
  {
    CutsAreSound(stream);
    var i :| 0 <= i < |Pieces(stream)| && Pieces(stream)[i] == p;
    var k := LongPieceOverflows(Pieces(stream), Residue(stream), i);
    chunks := [stream[..k], stream[k..]];
    assert chunks[1..] == [stream[k..]];
    FlattenOne(stream[k..]);
    assert stream[..k] + stream[k..] == stream;
    assert [] + stream[..k] == stream[..k];
    DrainAccepts(stream[..k]);
  }

  lemma SplitSeparator(frame: Bytes)
    ensures (frame + LF_BLANK)[..|frame| + 1] == frame + [LF]
    ensures (frame + LF_BLANK)[..|frame|] == frame && (frame + LF_BLANK)[|frame| + 2..] == []
    ensures (frame + LF_BLANK)[|frame|..|frame| + 2] == LF_BLANK
  {
    assert frame + LF_BLANK == (frame + [LF]) + [LF];
  }

  /** The limit really bites: one maximal frame is accepted in one push and refused when
      the last byte of its separator arrives separately. */
  lemma MaximalFrameSplit(frame: Bytes)
    requires |frame| == 1_048_576 && forall i :: 0 <= i < |frame| ==> 0x20 <= frame[i] < 0x80
    ensures PushAll([], [frame + LF_BLANK]).Accepted?
    ensures PushAll([], [frame + [LF], [LF]]) == Refused(FrameTooLarge, frame + [LF])
  {
    var s := frame + LF_BLANK;
    forall i: nat | i < |frame|
      ensures !SeparatorAt(s, i)
    {
      assert s[i] == frame[i] && LF_BLANK[0] == LF && CRLF_BLANK[0] == CR;
      assert i + 2 <= |s| ==> s[i..i + 2][0] == s[i];
      assert i + 4 <= |s| ==> s[i..i + 4][0] == s[i];
    }
    SplitSeparator(frame);
    FirstIsBoundary(s, |frame|, 2);
    BoundaryIsFirst([]);
    AsciiIsValid(frame);
    assert Drain(s).Accepted?;
    assert [] + s == s;
    BoundaryIsMinimal(s, |frame| + 1);
    assert [] + (frame + [LF]) == frame + [LF];
  }

  // ----- Encoding and end of stream -----

  lemma PushKeepsEncoding(a: Bytes, later: Bytes)
    requires Valid(a + later)
    ensures Drain(a).Refused? ==> Drain(a).error == FrameTooLarge
    ensures Drain(a).Accepted? ==> Valid(Drain(a).tail + later)
  {
    ValidPieces(a + later);
    CutsResume(a, later);
    DrainAccepts(a);
    CutsAreSound(a);
    ResidueOfValidIsValid(a, later);
    forall p | p in Pieces(a)
      ensures Valid(p.raw)
    {
      assert p in Pieces(a + later);
    }
  }

  /** A stream of valid text is never refused for its encoding, however it was chunked. */
  lemma {:induction false} EncodingNeverRefused(tail: Bytes, chunks: seq<Bytes>)
    requires Valid(tail + Flatten(chunks))
    ensures PushAll(tail, chunks).Refused? ==> PushAll(tail, chunks).error == FrameTooLarge
    decreases |chunks|
  {
    if chunks != [] {
      var a, later := tail + chunks[0], Flatten(chunks[1..]);
      assert tail + Flatten(chunks) == a + later;
      PushKeepsEncoding(a, later);
      if Drain(a).Accepted? {
        EncodingNeverRefused(Drain(a).tail, chunks[1..]);
      }
    }
  }

  lemma Reassociate(x: Bytes, y: Bytes, z: Bytes)
    ensures x + (y + z) == x + y + z
  {
  }

  lemma ResidueOfValidIsValid(a: Bytes, later: Bytes)
    requires Valid(a + later)
    ensures Valid(Residue(a) + later)
  {
    CutsAreSound(a);
    PiecesAreSeparated(a);
    Reassociate(Join(Pieces(a)), Residue(a), later);
    ValidPartsOfJoin(Pieces(a), Residue(a) + later);
  }

  /** The remainder checked at the end of the stream does not depend on the chunking. */
  lemma RemainderIsOfStream(chunks: seq<Bytes>)
    requires PushAll([], chunks).Accepted?
    ensures PushAll([], chunks).tail == Residue(Flatten(chunks))
    ensures Join(Pieces(Flatten(chunks))) + PushAll([], chunks).tail == Flatten(chunks)
    ensures PushAll([], chunks).frames == Frames(Pieces(Flatten(chunks)))
  {
    ChunkIndependence(chunks);
    DrainAccepts(Flatten(chunks));
    CutsAreSound(Flatten(chunks));
  }
}
