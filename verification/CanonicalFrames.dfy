/** Where blank lines are in a frame once its line ends are unified: the frame is cut first, so
    unifying can put a separator inside it. */
module CanonicalFrames {
  import opened Machine
  import opened Utf8
  import opened Sse

  const LF_CRLF: Bytes := [LF, CR, LF]
  const DOUBLED_CRLF_BLANK: Bytes := [CR, CR, LF, CR, CR, LF]
  const HALF_CRLF_BLANK: Bytes := [CR, LF, CR]
  const DOUBLED_HALF: Bytes := [CR, CR, LF, CR]

  // ----- Where a pattern occurs -----

  ghost predicate Occurs(s: Bytes, pattern: Bytes) {
    exists i: nat :: MatchAt(s, pattern, i)
  }

  predicate EndsIn(s: Bytes, pattern: Bytes) {
    |pattern| <= |s| && s[|s| - |pattern|..] == pattern
  }

  /** `Occurs`, from the front. */
  predicate Has(s: Bytes, pattern: Bytes) {
    pattern <= s || (s != [] && Has(s[1..], pattern))
  }

  /** `EndsIn`, from the front. */
  predicate Ends(s: Bytes, pattern: Bytes) {
    s == pattern || (s != [] && Ends(s[1..], pattern))
  }

  lemma {:induction false} HasIsOccurs(s: Bytes, pattern: Bytes)
    ensures Has(s, pattern) <==> Occurs(s, pattern)
  {
    if pattern <= s {
      assert MatchAt(s, pattern, 0);
    } else if s != [] {
      HasIsOccurs(s[1..], pattern);
      forall i: nat | 1 <= i ensures MatchAt(s, pattern, i) <==> MatchAt(s[1..], pattern, i - 1) {
        if i + |pattern| <= |s| {
          assert s[i..i + |pattern|] == s[1..][i - 1..i - 1 + |pattern|];
        }
      }
      assert !MatchAt(s, pattern, 0);
      if Occurs(s[1..], pattern) {
        var i: nat :| MatchAt(s[1..], pattern, i);
        assert MatchAt(s, pattern, i + 1);
      }
    }
  }

  lemma {:induction false} EndsIsEndsIn(s: Bytes, pattern: Bytes)
    ensures Ends(s, pattern) <==> EndsIn(s, pattern)
  {
    if s != pattern && s != [] {
      EndsIsEndsIn(s[1..], pattern);
      if |pattern| < |s| {
        assert s[|s| - |pattern|..] == s[1..][|s[1..]| - |pattern|..];
      }
    }
  }

  // ----- Replacing line ends, from the front -----

  /** The text starts with a line end, of either kind. */
  predicate StartsLine(s: Bytes) {
    [LF] <= s || [CR, LF] <= s
  }

  lemma FirstReplaced(s: Bytes)
    ensures [LF] <= ReplaceCrLf(s) <==> StartsLine(s)
    ensures [CR] <= ReplaceCrLf(s) <==> [CR] <= s && !([CR, LF] <= s)
    ensures ReplaceCrLf(s) == [] <==> s == []
  {
  }

  lemma HasCons(first: Byte, rest: Bytes, pattern: Bytes)
    ensures Has([first] + rest, pattern) <==> pattern <= [first] + rest || Has(rest, pattern)
  {
    assert ([first] + rest)[1..] == rest;
  }

  lemma EndsCons(first: Byte, rest: Bytes, pattern: Bytes)
    ensures Ends([first] + rest, pattern) <==> [first] + rest == pattern || Ends(rest, pattern)
  {
    assert ([first] + rest)[1..] == rest;
  }

  /** A text is empty, starts with a carriage return and a line feed, or starts with another byte. */
  lemma Split(s: Bytes) returns (crlf: bool, rest: Bytes)
    requires s != []
    ensures crlf ==> s == [CR] + ([LF] + rest) && ReplaceCrLf(s) == [LF] + ReplaceCrLf(rest)
    ensures !crlf ==> s == [s[0]] + rest && ReplaceCrLf(s) == [s[0]] + ReplaceCrLf(rest) && !([CR, LF] <= s)
    ensures !crlf && s[0] == CR ==> !([LF] <= rest)
    ensures |rest| < |s|
  {
    crlf := [CR, LF] <= s;
    rest := if crlf then s[2..] else s[1..];
  }

  lemma {:induction false} BlankLineInside(s: Bytes)
    ensures Has(ReplaceCrLf(s), LF_BLANK) <==> Has(s, LF_BLANK) || Has(s, LF_CRLF)
    decreases |s|
  {
    if s != [] {
      var crlf, rest := Split(s);
      BlankLineInside(rest);
      FirstReplaced(rest);
      if crlf {
        HasCons(LF, ReplaceCrLf(rest), LF_BLANK);
        HasCons(CR, [LF] + rest, LF_BLANK);
        HasCons(LF, rest, LF_BLANK);
        HasCons(CR, [LF] + rest, LF_CRLF);
        HasCons(LF, rest, LF_CRLF);
      } else {
        HasCons(s[0], ReplaceCrLf(rest), LF_BLANK);
        HasCons(s[0], rest, LF_BLANK);
        HasCons(s[0], rest, LF_CRLF);
      }
    }
  }

  lemma PrefixCons(first: Byte, rest: Bytes, pattern: Bytes)
    ensures [first] + pattern <= [first] + rest <==> pattern <= rest
    ensures [first] + rest == [first] + pattern <==> rest == pattern
  {
    assert ([first] + rest)[1..] == rest && ([first] + pattern)[1..] == pattern;
  }

  /** What unifies to a carriage return and a line feed. */
  lemma CrLfAtFront(more: Bytes)
    ensures [CR, LF] <= ReplaceCrLf(more) <==> [CR, CR, LF] <= more
    ensures ReplaceCrLf(more) == [CR] <==> more == [CR]
  {
    FirstReplaced(more);
    if [CR] <= more && !([CR, LF] <= more) {
      var _, last := Split(more);
      FirstReplaced(last);
      PrefixCons(CR, ReplaceCrLf(last), [LF]);
      PrefixCons(CR, ReplaceCrLf(last), []);
      PrefixCons(CR, last, [CR, LF]);
      PrefixCons(CR, last, []);
      assert [CR] + [LF] == [CR, LF] && [CR] + [CR, LF] == [CR, CR, LF] && [CR] + [] == [CR];
    }
  }

  lemma HalfAtFront(rest: Bytes)
    requires !([LF] <= rest)
    ensures LF_CRLF <= ReplaceCrLf(rest) <==> [CR, LF, CR, CR, LF] <= rest
    ensures ReplaceCrLf(rest) == [LF, CR] <==> rest == [CR, LF, CR]
  {
    FirstReplaced(rest);
    if [CR, LF] <= rest {
      var crlf, more := Split(rest);
      CrLfAtFront(more);
      PrefixCons(LF, ReplaceCrLf(more), [CR, LF]);
      PrefixCons(LF, ReplaceCrLf(more), [CR]);
      assert [LF] + [CR, LF] == LF_CRLF && [LF] + [CR] == [LF, CR];
      PrefixCons(LF, more, [CR, CR, LF]);
      PrefixCons(LF, more, [CR]);
      PrefixCons(CR, [LF] + more, [LF] + [CR, CR, LF]);
      PrefixCons(CR, [LF] + more, [LF] + [CR]);
      assert [CR] + ([LF] + [CR, CR, LF]) == [CR, LF, CR, CR, LF] && [CR] + ([LF] + [CR]) == [CR, LF, CR];
    }
  }

  lemma CrLfBlankAtFront(first: Byte, rest: Bytes)
    requires first == CR ==> !([LF] <= rest)
    ensures CRLF_BLANK <= [first] + ReplaceCrLf(rest) <==> DOUBLED_CRLF_BLANK <= [first] + rest
  {
    if first == CR {
      HalfAtFront(rest);
      PrefixCons(CR, ReplaceCrLf(rest), LF_CRLF);
      PrefixCons(CR, rest, [CR, LF, CR, CR, LF]);
      assert [CR] + LF_CRLF == CRLF_BLANK && [CR] + [CR, LF, CR, CR, LF] == DOUBLED_CRLF_BLANK;
    } else {
      assert ([first] + rest)[0] == ([first] + ReplaceCrLf(rest))[0] == first;
    }
  }

  lemma {:induction false} CrLfBlankInside(s: Bytes)
    ensures Has(ReplaceCrLf(s), CRLF_BLANK) <==> Has(s, DOUBLED_CRLF_BLANK)
    decreases |s|
  {
    if s != [] {
      var crlf, rest := Split(s);
      CrLfBlankInside(rest);
      if crlf {
        HasCons(LF, ReplaceCrLf(rest), CRLF_BLANK);
        HasCons(CR, [LF] + rest, DOUBLED_CRLF_BLANK);
        HasCons(LF, rest, DOUBLED_CRLF_BLANK);
        assert ([LF] + ReplaceCrLf(rest))[0] != CRLF_BLANK[0];
        assert ([CR] + ([LF] + rest))[1] != DOUBLED_CRLF_BLANK[1];
        assert ([LF] + rest)[0] != DOUBLED_CRLF_BLANK[0];
      } else {
        HasCons(s[0], ReplaceCrLf(rest), CRLF_BLANK);
        HasCons(s[0], rest, DOUBLED_CRLF_BLANK);
        CrLfBlankAtFront(s[0], rest);
      }
    }
  }

  lemma {:induction false} LineFeedAtEnd(s: Bytes)
    ensures Ends(ReplaceCrLf(s), [LF]) <==> Ends(s, [LF])
    decreases |s|
  {
    if s != [] {
      var crlf, rest := Split(s);
      LineFeedAtEnd(rest);
      FirstReplaced(rest);
      EndsCons(ReplaceCrLf(s)[0], ReplaceCrLf(rest), [LF]);
      if crlf {
        EndsCons(CR, [LF] + rest, [LF]);
        EndsCons(LF, rest, [LF]);
      } else {
        EndsCons(s[0], rest, [LF]);
      }
    }
  }

  lemma {:induction false} HalfBlankAtEnd(s: Bytes)
    ensures Ends(ReplaceCrLf(s), HALF_CRLF_BLANK) <==> Ends(s, DOUBLED_HALF)
    decreases |s|
  {
    if s != [] {
      var crlf, rest := Split(s);
      HalfBlankAtEnd(rest);
      EndsCons(ReplaceCrLf(s)[0], ReplaceCrLf(rest), HALF_CRLF_BLANK);
      if crlf {
        EndsCons(CR, [LF] + rest, DOUBLED_HALF);
        EndsCons(LF, rest, DOUBLED_HALF);
      } else {
        EndsCons(s[0], rest, DOUBLED_HALF);
        if s[0] == CR {
          HalfAtFront(rest);
          PrefixCons(CR, ReplaceCrLf(rest), [LF, CR]);
          PrefixCons(CR, rest, [CR, LF, CR]);
          assert [CR] + [LF, CR] == HALF_CRLF_BLANK && [CR] + [CR, LF, CR] == DOUBLED_HALF;
        }
      }
    }
  }

  // ----- The boundary of a canonical frame -----

  /** A separator that starts inside the text and may run into the blank line after it. */
  lemma SeparatorBeforeEnd(r: Bytes, i: nat)
    requires i < |r|
    ensures SeparatorAt(r + LF_BLANK, i) <==>
      || MatchAt(r, LF_BLANK, i) || MatchAt(r, CRLF_BLANK, i)
      || (i == |r| - 1 && r[i..] == [LF])
      || (i == |r| - 3 && r[i..] == HALF_CRLF_BLANK)
  {
    var c := r + LF_BLANK;
    assert forall j :: 0 <= j < |r| ==> c[j] == r[j];
    assert c[|r|] == LF && c[|r| + 1] == LF;
    assert c[i..i + 2] == [c[i], c[i + 1]];
    if i + 4 <= |c| {
      assert c[i..i + 4] == [c[i], c[i + 1], c[i + 2], c[i + 3]];
    }
    if i + 4 <= |r| {
      assert r[i..i + 4] == [r[i], r[i + 1], r[i + 2], r[i + 3]];
    }
    if i + 2 <= |r| {
      assert r[i..i + 2] == [r[i], r[i + 1]];
    }
    if i == |r| - 3 {
      assert r[i..] == [r[i], r[i + 1], r[i + 2]];
    }
  }

  lemma FirstAtEnd(r: Bytes)
    ensures FrameBoundary(r + LF_BLANK) == Some((|r|, 2)) <==> forall i: nat :: i < |r| ==> !SeparatorAt(r + LF_BLANK, i)
  {
    var c := r + LF_BLANK;
    assert c[|r|..|r| + 2] == LF_BLANK;
    BoundaryIsFirst(c);
    if forall i: nat :: i < |r| ==> !SeparatorAt(c, i) {
      FirstIsBoundary(c, |r|, 2);
    }
  }

  /** What puts a separator before the end of a text and a blank line. */
  ghost predicate BreaksEarly(r: Bytes) {
    Occurs(r, LF_BLANK) || Occurs(r, CRLF_BLANK) || EndsIn(r, [LF]) || EndsIn(r, HALF_CRLF_BLANK)
  }

  lemma BreaksAt(r: Bytes) returns (i: nat)
    requires BreaksEarly(r)
    ensures i < |r| && SeparatorAt(r + LF_BLANK, i)
  {
    if EndsIn(r, [LF]) {
      i := |r| - 1;
    } else if EndsIn(r, HALF_CRLF_BLANK) {
      i := |r| - 3;
    } else if Occurs(r, LF_BLANK) {
      i :| MatchAt(r, LF_BLANK, i);
    } else {
      i :| MatchAt(r, CRLF_BLANK, i);
    }
    SeparatorBeforeEnd(r, i);
  }

  /** Whether the blank line after a text is the first in it. */
  lemma BlankLineIsFirst(r: Bytes)
    ensures FrameBoundary(r + LF_BLANK) == Some((|r|, 2)) <==> !BreaksEarly(r)
  {
    FirstAtEnd(r);
    if BreaksEarly(r) {
      var i := BreaksAt(r);
    } else {
      forall i: nat | i < |r| ensures !SeparatorAt(r + LF_BLANK, i) {
        SeparatorBeforeEnd(r, i);
      }
    }
  }

  /** Unifying the line ends of a text puts a blank line into it exactly when two line feeds meet
      there already or with one carriage return between them. */
  lemma BlankLineAfterUnifying(raw: Bytes)
    ensures Occurs(ReplaceCrLf(raw), LF_BLANK) <==> Occurs(raw, LF_BLANK) || Occurs(raw, LF_CRLF)
  {
    BlankLineInside(raw);
    HasIsOccurs(ReplaceCrLf(raw), LF_BLANK);
    HasIsOccurs(raw, LF_BLANK);
    HasIsOccurs(raw, LF_CRLF);
  }

  /** Exactly when a frame as it is handed on ends at its own blank line and no earlier: for every
      raw text, cut from a stream or not. */
  lemma CanonicalFrameIsWhole(raw: Bytes)
    ensures FrameBoundary(Canonical(raw)) == Some((|ReplaceCrLf(raw)|, 2)) <==>
      && !Occurs(raw, LF_BLANK) && !Occurs(raw, LF_CRLF) && !Occurs(raw, DOUBLED_CRLF_BLANK)
      && !EndsIn(raw, [LF]) && !EndsIn(raw, DOUBLED_HALF)
  {
    var r := ReplaceCrLf(raw);
    BlankLineIsFirst(r);
    BlankLineAfterUnifying(raw);
    CrLfBlankInside(raw);
    HasIsOccurs(r, CRLF_BLANK);
    HasIsOccurs(raw, DOUBLED_CRLF_BLANK);
    LineFeedAtEnd(raw);
    EndsIsEndsIn(r, [LF]);
    EndsIsEndsIn(raw, [LF]);
    HalfBlankAtEnd(raw);
    EndsIsEndsIn(r, HALF_CRLF_BLANK);
    EndsIsEndsIn(raw, DOUBLED_HALF);
  }

  /** The frames the decoder cuts: an interior blank line exactly where a carriage return stands
      between two line feeds, and a whole frame exactly without that and the three other patterns. */
  lemma CutFrameIsWhole(p: Piece)
    requires Minimal(p)
    ensures Occurs(ReplaceCrLf(p.raw), LF_BLANK) <==> Occurs(p.raw, LF_CRLF)
    ensures FrameBoundary(Canonical(p.raw)) == Some((|ReplaceCrLf(p.raw)|, 2)) <==>
      && !Occurs(p.raw, LF_CRLF) && !Occurs(p.raw, DOUBLED_CRLF_BLANK)
      && !EndsIn(p.raw, [LF]) && !EndsIn(p.raw, DOUBLED_HALF)
  {
    MinimalPiece(p);
    BoundaryIsFirst(p.raw);
    if Occurs(p.raw, LF_BLANK) {
      var i: nat :| MatchAt(p.raw, LF_BLANK, i);
      assert SeparatorAt(p.raw, i);
    }
    BlankLineAfterUnifying(p.raw);
    CanonicalFrameIsWhole(p.raw);
  }
}
