/** The size-rotated request log: one active file and up to five rotated ones. */
module FileLog {
  import opened Machine
  import opened Utf8

  const ROTATE_BYTES: int := 10 * 1024 * 1024
  const KEEP_ROTATED: int := 5
  const NEWLINE: Byte := 0x0A

  /** A serialized record, without its newline. */
  type Line = Bytes

  /** The log's directory: file 0 is `requests.log`, file `i` is `requests.log.i`,
      each given as the lines appended to it. */
  type Files = map<nat, seq<Line>>

  /** The bytes of a file. */
  function Text(lines: seq<Line>): Bytes {
    if lines == [] then [] else Text(lines[..|lines| - 1]) + lines[|lines| - 1] + [NEWLINE]
  }

  function Size(lines: seq<Line>): nat {
    |Text(lines)|
  }

  function Get(files: Files, i: nat): Option<seq<Line>> {
    if i in files then Some(files[i]) else None
  }

  /** A file's lines; none when it does not exist. */
  function At(files: Files, i: nat): seq<Line> {
    if i in files then files[i] else []
  }

  // ----- `write_line` as a function of the directory -----

  /** A rename replaces its target; renaming a missing file, or one of those whose renaming fails
      this time, changes nothing. */
  function Renamed(files: Files, from: nat, to: nat, stuck: set<nat>): Files {
    if from in files && from !in stuck then (files - {from})[to := files[from]] else files
  }

  /** The directory once indices `KEEP_ROTATED - 1` down to `k` have moved up by one; index 0 is
      the active file. */
  function Shifted(files: Files, k: nat, stuck: set<nat>): Files
    requires k <= KEEP_ROTATED
    decreases KEEP_ROTATED - k
  {
    if k == KEEP_ROTATED then files else Renamed(Shifted(files, k + 1, stuck), k, k + 1, stuck)
  }

  predicate MustRotate(files: Files, line: Line) {
    Size(At(files, 0)) + |line| > ROTATE_BYTES
  }

  /** One rotation: everything moves up, and the active file starts afresh if it could be moved. */
  function Rotated(files: Files, stuck: set<nat>): Files {
    var shifted := Shifted(files, 0, stuck);
    if 0 in stuck then shifted else shifted[0 := []]
  }

  /** A write is refused when the active file has to be moved aside and cannot be; failures to move
      the rotated files are ignored. */
  predicate Accepted(files: Files, line: Line, stuck: set<nat>) {
    0 !in stuck || !MustRotate(files, line)
  }

  /** Appends one line; `stuck` holds the files whose renaming would fail this time. */
  function Written(files: Files, line: Line, stuck: set<nat>): Files {
    var ready := if MustRotate(files, line) then Rotated(files, stuck) else files;
    if Accepted(files, line, stuck) then ready[0 := At(ready, 0) + [line]] else ready
  }

  class FileLog {
    var files: Files

    /** Opens the log in a directory, creating the active file. */
    constructor (directory: Files)
      ensures files == directory[0 := At(directory, 0)]
    {
      files := directory[0 := At(directory, 0)];
    }

    method WriteLine(line: Line, stuck: set<nat>) returns (ok: bool)
      requires 0 in files
      modifies this
      ensures files == Written(old(files), line, stuck) && 0 in files
      ensures ok == Accepted(old(files), line, stuck)
    {
      var length := Size(files[0]);
      if length + |line| > ROTATE_BYTES {
        var index := KEEP_ROTATED;
        while index > 1
          invariant 1 <= index <= KEEP_ROTATED
          invariant files == Shifted(old(files), index, stuck)
        {
          index := index - 1;
          if index in files && index !in stuck {
            files := (files - {index})[index + 1 := files[index]];
          }
        }
        PlaceOf(old(files), index, 0, stuck);
        PlaceOf(old(files), 0, 0, stuck);
        if 0 in stuck {
          return false;
        }
        files := (files - {0})[1 := files[0]];
        files := files[0 := []];
      }
      files := files[0 := files[0] + [line]];
      ok := true;
    }
  }

  // ----- Where a rotation leaves each file -----

  /** What a rotated place holds afterwards: the file below if it could be moved, otherwise the file
      that was there if that one could not be moved. */
  function Placed(files: Files, j: nat, stuck: set<nat>): Option<seq<Line>>
    requires j > 0
  {
    if j - 1 in files && j - 1 !in stuck then Some(files[j - 1])
    else if j == KEEP_ROTATED || j in stuck then Get(files, j)
    else None
  }

  /** Every place after the renames of the files `k` and above. */
  lemma {:induction false} PlaceOf(files: Files, k: nat, j: nat, stuck: set<nat>)
    requires k <= KEEP_ROTATED
    ensures Get(Shifted(files, k, stuck), j) ==
      if j < k || j > KEEP_ROTATED then Get(files, j)
      else if j > k then Placed(files, j, stuck)
      else if k == KEEP_ROTATED || k in stuck then Get(files, j)
      else None
    decreases KEEP_ROTATED - k
  {
    if k < KEEP_ROTATED {
      PlaceOf(files, k + 1, j, stuck);
      PlaceOf(files, k + 1, k, stuck);
    }
  }

  lemma RotatedPlace(files: Files, j: nat, stuck: set<nat>)
    requires 0 in files
    ensures Get(Rotated(files, stuck), j) ==
      if j == 0 then (if 0 in stuck then Some(files[0]) else Some([]))
      else if j > KEEP_ROTATED then Get(files, j)
      else Placed(files, j, stuck)
  {
    PlaceOf(files, 0, j, stuck);
  }

  // ----- What a rotation keeps -----

  /** All lines of the files `i` down to the active one, oldest first. */
  function TailFrom(files: Files, i: nat): seq<Line> {
    At(files, i) + if i == 0 then [] else TailFrom(files, i - 1)
  }

  function Tail(files: Files): seq<Line> {
    TailFrom(files, KEEP_ROTATED)
  }

  /** The file stays in its place: it is the oldest, or it could not be moved. */
  predicate Stays(files: Files, j: nat, stuck: set<nat>) {
    j in files && (j == KEEP_ROTATED || j in stuck)
  }

  /** The file stays in its place and the one below is moved onto it. */
  predicate Overwritten(files: Files, j: nat, stuck: set<nat>) {
    0 < j && Stays(files, j, stuck) && j - 1 in files && j - 1 !in stuck
  }

  /** The lines of the files that are not overwritten. */
  function KeptFrom(files: Files, i: nat, stuck: set<nat>): seq<Line> {
    (if Overwritten(files, i, stuck) then [] else At(files, i))
    + if i == 0 then [] else KeptFrom(files, i - 1, stuck)
  }

  /** The part of file `j` that is still at place `j` or above. */
  function Staying(files: Files, j: nat, stuck: set<nat>): seq<Line> {
    if Stays(files, j, stuck) && !Overwritten(files, j, stuck) then files[j] else []
  }

  /** What place `j` holds, with what stays at the place below, is what stays at `j` and whatever of
      file `j - 1` is not overwritten. */
  lemma PlaceHolds(files: Files, g: Files, j: nat, stuck: set<nat>)
    requires 0 in files && g == Rotated(files, stuck) && 1 < j <= KEEP_ROTATED
    ensures At(g, j) + Staying(files, j - 1, stuck)
      == Staying(files, j, stuck) + if Overwritten(files, j - 1, stuck) then [] else At(files, j - 1)
  {
    RotatedPlace(files, j, stuck);
  }

  lemma Carry<T>(a: seq<T>, b: seq<T>, c: seq<T>, d: seq<T>, rest: seq<T>)
    requires a + b == c + d
    ensures a + (b + rest) == c + (d + rest)
  {
    assert a + (b + rest) == (a + b) + rest;
    assert c + (d + rest) == (c + d) + rest;
  }

  lemma {:induction false} PlacesHoldTheKept(files: Files, g: Files, j: nat, stuck: set<nat>)
    requires 0 in files && g == Rotated(files, stuck) && 0 < j <= KEEP_ROTATED
    ensures TailFrom(g, j) == Staying(files, j, stuck) + KeptFrom(files, j - 1, stuck)
  {
    if j == 1 {
      RotatedPlace(files, 1, stuck);
      RotatedPlace(files, 0, stuck);
      assert TailFrom(g, 0) == At(g, 0);
      assert KeptFrom(files, 0, stuck) == files[0];
    } else {
      PlacesHoldTheKept(files, g, j - 1, stuck);
      PlaceHolds(files, g, j, stuck);
      var below := if Overwritten(files, j - 1, stuck) then [] else At(files, j - 1);
      Carry(At(g, j), Staying(files, j - 1, stuck), Staying(files, j, stuck), below, KeptFrom(files, j - 2, stuck));
      assert KeptFrom(files, j - 1, stuck) == below + KeptFrom(files, j - 2, stuck);
      assert TailFrom(g, j) == At(g, j) + TailFrom(g, j - 1);
    }
  }

  /** Whatever moves fail, a rotation keeps the files that are not overwritten, whole and in order,
      and nothing else. */
  lemma RotationKeeps(files: Files, stuck: set<nat>, last: nat)
    requires 0 in files && last == KEEP_ROTATED
    ensures TailFrom(Rotated(files, stuck), last) == KeptFrom(files, last, stuck)
  {
    PlacesHoldTheKept(files, Rotated(files, stuck), last, stuck);
  }

  ghost predicate IsSuffix<T>(t: seq<T>, s: seq<T>) {
    exists k :: 0 <= k <= |s| && t == s[k..]
  }

  /** Lines of the file are lost while lines of an older file are kept. */
  ghost predicate Tears(files: Files, stuck: set<nat>, i: nat, j: nat) {
    && i < j <= KEEP_ROTATED
    && Overwritten(files, i, stuck) && files[i] != []
    && !Overwritten(files, j, stuck) && At(files, j) != []
  }

  /** No older file outlives an overwritten one. */
  ghost predicate Clean(files: Files, stuck: set<nat>) {
    forall i: nat, j: nat :: !Tears(files, stuck, i, j)
  }

  lemma {:induction false} NothingOverwritten(files: Files, i: nat, stuck: set<nat>)
    requires forall k: nat :: k <= i && Overwritten(files, k, stuck) ==> files[k] == []
    ensures KeptFrom(files, i, stuck) == TailFrom(files, i)
  {
    if i > 0 {
      NothingOverwritten(files, i - 1, stuck);
    }
  }

  lemma YoungerPart(files: Files, i: nat)
    requires i > 0
    ensures TailFrom(files, i)[|At(files, i)|..] == TailFrom(files, i - 1)
  {
    assert TailFrom(files, i) == At(files, i) + TailFrom(files, i - 1);
  }

  lemma {:induction false} KeptIsSuffix(files: Files, i: nat, stuck: set<nat>)
    requires i <= KEEP_ROTATED && Clean(files, stuck)
    ensures IsSuffix(KeptFrom(files, i, stuck), TailFrom(files, i))
  {
    var t := TailFrom(files, i);
    if !Overwritten(files, i, stuck) && At(files, i) != [] {
      forall k: nat | k <= i && Overwritten(files, k, stuck) ensures files[k] == [] {
        assert !Tears(files, stuck, k, i);
      }
      NothingOverwritten(files, i, stuck);
      assert t == t[0..];
    } else if i == 0 {
      assert KeptFrom(files, i, stuck) == t[|t|..];
    } else {
      KeptIsSuffix(files, i - 1, stuck);
      YoungerPart(files, i);
      assert KeptFrom(files, i, stuck) == KeptFrom(files, i - 1, stuck);
      SuffixOfSuffix(KeptFrom(files, i - 1, stuck), TailFrom(files, i - 1), t);
    }
  }

  lemma SuffixAppend<T>(t: seq<T>, s: seq<T>, extra: seq<T>)
    requires IsSuffix(t, s)
    ensures IsSuffix(t + extra, s + extra)
  {
    var k :| 0 <= k <= |s| && t == s[k..];
    assert t + extra == (s + extra)[k..];
  }

  lemma SuffixOfSuffix<T>(u: seq<T>, t: seq<T>, s: seq<T>)
    requires IsSuffix(u, t) && IsSuffix(t, s)
    ensures IsSuffix(u, s)
  {
    var j :| 0 <= j <= |t| && u == t[j..];
    var k :| 0 <= k <= |s| && t == s[k..];
    DropTwice(s, k, j);
  }

  lemma DropTwice<T>(s: seq<T>, k: nat, j: nat)
    requires k + j <= |s|
    ensures s[k..][j..] == s[k + j..]
  {
  }

  // ----- The exact condition -----

  /** No line is in two files. */
  ghost predicate LinesApart(files: Files) {
    forall i: nat, j: nat, x :: x in At(files, i) && x in At(files, j) ==> i == j
  }

  lemma {:induction false} KeptLines(files: Files, i: nat, stuck: set<nat>, x: Line) returns (m: nat)
    requires x in KeptFrom(files, i, stuck)
    ensures m <= i && !Overwritten(files, m, stuck) && x in At(files, m)
  {
    if !Overwritten(files, i, stuck) && x in At(files, i) {
      m := i;
    } else {
      m := KeptLines(files, i - 1, stuck, x);
    }
  }

  lemma {:induction false} KeepsLine(files: Files, i: nat, stuck: set<nat>, m: nat, x: Line)
    requires m <= i && !Overwritten(files, m, stuck) && x in At(files, m)
    ensures x in KeptFrom(files, i, stuck)
  {
    if m < i {
      KeepsLine(files, i - 1, stuck, m, x);
    }
  }

  lemma {:induction false} TailLines(files: Files, i: nat, x: Line) returns (m: nat)
    requires x in TailFrom(files, i)
    ensures m <= i && x in At(files, m)
  {
    if x in At(files, i) {
      m := i;
    } else {
      m := TailLines(files, i - 1, x);
    }
  }

  lemma {:induction false} InTail(files: Files, i: nat, m: nat, x: Line)
    requires m <= i && x in At(files, m)
    ensures x in TailFrom(files, i)
  {
    if m < i {
      InTail(files, i - 1, m, x);
    }
  }

  lemma {:induction false} OlderPart(files: Files, i: nat, j: nat) returns (older: seq<Line>)
    requires j <= i
    ensures TailFrom(files, i) == older + TailFrom(files, j)
  {
    if j == i {
      older := [];
    } else {
      var rest := OlderPart(files, i - 1, j);
      older := At(files, i) + rest;
      assert TailFrom(files, i) == At(files, i) + (rest + TailFrom(files, j));
    }
  }

  lemma InYounger<T>(older: seq<T>, younger: seq<T>, i: nat)
    requires i < |older + younger|
    ensures i < |older| || (older + younger)[i] in younger
  {
    if i >= |older| {
      assert (older + younger)[i] == younger[i - |older|];
    }
  }

  lemma SuffixFrom<T>(s: seq<T>, n: nat, i: nat)
    requires n <= i < |s|
    ensures s[i] in s[n..]
  {
    assert s[n..][i - n] == s[i];
  }

  lemma WhereInSuffix<T>(s: seq<T>, n: nat, x: T) returns (i: nat)
    requires n <= |s| && x in s[n..]
    ensures n <= i < |s| && s[i] == x
  {
    var p :| 0 <= p < |s[n..]| && s[n..][p] == x;
    i := n + p;
  }

  /** A suffix that reaches into the older part contains the whole of the younger part. */
  lemma SuffixReaches<T>(k: seq<T>, older: seq<T>, younger: seq<T>, x: T, y: T)
    requires IsSuffix(k, older + younger) && x in k && x !in younger && y in younger
    ensures y in k
  {
    var s := older + younger;
    var n :| 0 <= n <= |s| && k == s[n..];
    var i := WhereInSuffix(s, n, x);
    InYounger(older, younger, i);
    var q :| 0 <= q < |younger| && younger[q] == y;
    AtYounger(older, younger, q);
    SuffixFrom(s, n, |older| + q);
  }

  lemma AtYounger<T>(older: seq<T>, younger: seq<T>, q: nat)
    requires q < |younger|
    ensures (older + younger)[|older| + q] == younger[q]
  {
  }

  lemma TornIsNoSuffix(files: Files, stuck: set<nat>, i: nat, j: nat, last: nat)
    requires LinesApart(files) && Tears(files, stuck, i, j) && last == KEEP_ROTATED
    ensures !IsSuffix(KeptFrom(files, last, stuck), TailFrom(files, last))
  {
    var x, y := At(files, j)[0], files[i][0];
    assert x in At(files, j) && y in At(files, i);
    var older := OlderPart(files, last, j - 1);
    InTail(files, j - 1, i, y);
    KeepsLine(files, last, stuck, j, x);
    if x in TailFrom(files, j - 1) {
      var m := TailLines(files, j - 1, x);
      assert false;
    }
    if IsSuffix(KeptFrom(files, last, stuck), TailFrom(files, last)) {
      SuffixReaches(KeptFrom(files, last, stuck), older, TailFrom(files, j - 1), x, y);
      var m := KeptLines(files, last, stuck, y);
      assert false;
    }
  }

  /** Which failed moves a rotation survives: what is left is a suffix of the log if no older file
      outlives an overwritten one, and, when no line is in two files, only then. */
  lemma SuffixExactly(files: Files, stuck: set<nat>)
    requires 0 in files
    ensures Clean(files, stuck) ==> IsSuffix(Tail(Rotated(files, stuck)), Tail(files))
    ensures LinesApart(files) && IsSuffix(Tail(Rotated(files, stuck)), Tail(files)) ==> Clean(files, stuck)
  {
    RotationKeeps(files, stuck, KEEP_ROTATED);
    if Clean(files, stuck) {
      KeptIsSuffix(files, KEEP_ROTATED, stuck);
    } else {
      var i, j :| Tears(files, stuck, i, j);
      if LinesApart(files) {
        TornIsNoSuffix(files, stuck, i, j, KEEP_ROTATED);
      }
    }
  }

  /** Moves that fail for the youngest files only, the active one included, tear nothing: so does no
      failure at all. */
  lemma YoungestStuckIsClean(files: Files, stuck: set<nat>)
    requires forall i :: i in stuck && 0 < i ==> i - 1 in stuck
    ensures Clean(files, stuck)
  {
    forall i, j ensures !Tears(files, stuck, i, j) {
      assert Overwritten(files, i, stuck) ==> i == KEEP_ROTATED;
    }
  }

  // ----- Whole runs -----

  /** A write, and the files whose renaming fails if it has to rotate. */
  datatype Event = Event(line: Line, stuck: set<nat>)

  function Run(files: Files, events: seq<Event>): Files {
    if events == [] then files
    else
      var e := events[|events| - 1];
      Written(Run(files, events[..|events| - 1]), e.line, e.stuck)
  }

  /** The lines that writes reported as written. */
  function Recorded(files: Files, events: seq<Event>): seq<Line> {
    if events == [] then []
    else
      var front, e := events[..|events| - 1], events[|events| - 1];
      Recorded(files, front) + if Accepted(Run(files, front), e.line, e.stuck) then [e.line] else []
  }

  /** Every rotation of the run leaves a suffix. */
  ghost predicate CleanRun(files: Files, events: seq<Event>) {
    events == [] ||
    var front, e := events[..|events| - 1], events[|events| - 1];
    CleanRun(files, front) && (MustRotate(Run(files, front), e.line) ==> Clean(Run(files, front), e.stuck))
  }

  lemma WrittenKeepsActive(files: Files, line: Line, stuck: set<nat>)
    requires 0 in files
    ensures 0 in Written(files, line, stuck) && 0 in Rotated(files, stuck)
  {
    RotatedPlace(files, 0, stuck);
  }

  lemma {:induction false} AppendGoesLast(files: Files, line: Line, i: nat)
    requires 0 in files
    ensures TailFrom(files[0 := files[0] + [line]], i) == TailFrom(files, i) + [line]
  {
    var g := files[0 := files[0] + [line]];
    if i > 0 {
      AppendGoesLast(files, line, i - 1);
      assert At(g, i) == At(files, i);
    }
  }

  /** One write leaves a suffix of the old log with the line, if it was taken, at the end. */
  lemma WriteKeepsASuffix(files: Files, line: Line, stuck: set<nat>)
    requires 0 in files && (MustRotate(files, line) ==> Clean(files, stuck))
    ensures IsSuffix(Tail(Written(files, line, stuck)),
      Tail(files) + if Accepted(files, line, stuck) then [line] else [])
  {
    WrittenKeepsActive(files, line, stuck);
    SuffixExactly(files, stuck);
    assert Tail(files) == Tail(files)[0..] && Tail(files) + [] == Tail(files);
    if Accepted(files, line, stuck) {
      var ready := if MustRotate(files, line) then Rotated(files, stuck) else files;
      AppendGoesLast(ready, line, KEEP_ROTATED);
      SuffixAppend(Tail(ready), Tail(files), [line]);
    }
  }

  lemma {:induction false} ActiveStays(files: Files, events: seq<Event>)
    requires 0 in files
    ensures 0 in Run(files, events)
  {
    if events != [] {
      var front, e := events[..|events| - 1], events[|events| - 1];
      ActiveStays(files, front);
      WrittenKeepsActive(Run(files, front), e.line, e.stuck);
    }
  }

  lemma SuffixGrows<T>(u: seq<T>, t: seq<T>, first: seq<T>, second: seq<T>, extra: seq<T>)
    requires IsSuffix(t, first + second) && IsSuffix(u, t + extra)
    ensures IsSuffix(u, first + (second + extra))
  {
    SuffixAppend(t, first + second, extra);
    assert first + second + extra == first + (second + extra);
    SuffixOfSuffix(u, t + extra, first + (second + extra));
  }

  /** While rotations are clean the log is a tail, in whole lines and in order, of what the directory
      held when it was opened and of every line reported as written since. */
  lemma {:induction false} LogIsATail(files: Files, events: seq<Event>)
    requires 0 in files && CleanRun(files, events)
    ensures IsSuffix(Tail(Run(files, events)), Tail(files) + Recorded(files, events))
  {
    if events == [] {
      assert Tail(files) + [] == (Tail(files) + [])[0..];
    } else {
      var front, e := events[..|events| - 1], events[|events| - 1];
      LogIsATail(files, front);
      ActiveStays(files, front);
      var before := Run(files, front);
      var taken := if Accepted(before, e.line, e.stuck) then [e.line] else [];
      WriteKeepsASuffix(before, e.line, e.stuck);
      SuffixGrows(Tail(Run(files, events)), Tail(before), Tail(files), Recorded(files, front), taken);
    }
  }

  /** A run in which only the youngest files are ever stuck is clean. */
  lemma {:induction false} YoungestStuckRun(files: Files, events: seq<Event>)
    requires forall e, i :: e in events && i in e.stuck && 0 < i ==> i - 1 in e.stuck
    ensures CleanRun(files, events)
  {
    if events != [] {
      var front, e := events[..|events| - 1], events[|events| - 1];
      assert e in events;
      YoungestStuckRun(files, front);
      YoungestStuckIsClean(Run(files, front), e.stuck);
    }
  }

  /** Renaming never invents a file: from a directory holding only the active file, at most
      `KEEP_ROTATED` rotated ones ever exist beside it. */
  lemma {:induction false} FilesAreBounded(files: Files, events: seq<Event>)
    requires 0 in files && forall i: nat :: i in files ==> i <= KEEP_ROTATED
    ensures forall i: nat :: i in Run(files, events) ==> i <= KEEP_ROTATED
    ensures |Run(files, events).Keys - {0}| <= 5
  {
    if events != [] {
      var front, e := events[..|events| - 1], events[|events| - 1];
      FilesAreBounded(files, front);
      ActiveStays(files, front);
      forall i: nat | i > KEEP_ROTATED ensures i !in Run(files, events) {
        RotatedPlace(Run(files, front), i, e.stuck);
      }
    }
    RotatedCount(Run(files, events).Keys - {0}, KEEP_ROTATED);
  }

  lemma {:induction false} RotatedCount(indices: set<nat>, n: nat)
    requires forall i :: i in indices ==> 1 <= i <= n
    ensures |indices| <= n
  {
    if n == 0 {
      assert indices == {};
    } else {
      RotatedCount(indices - {n}, n - 1);
    }
  }

  /** No file outgrows the threshold by more than the uncounted newline, or the longest line does. */
  ghost predicate FilesAtMost(files: Files, limit: nat) {
    forall i: nat :: i in files ==> Size(files[i]) <= limit + 1
  }

  lemma SizeOfAppend(lines: seq<Line>, line: Line)
    ensures Size(lines + [line]) == Size(lines) + |line| + 1
  {
    assert (lines + [line])[..|lines|] == lines;
  }

  lemma RotationStaysSmall(files: Files, stuck: set<nat>, limit: nat)
    requires 0 in files && FilesAtMost(files, limit)
    ensures FilesAtMost(Rotated(files, stuck), limit)
  {
    var g := Rotated(files, stuck);
    forall i: nat | i in g ensures Size(g[i]) <= limit + 1 {
      RotatedPlace(files, i, stuck);
      assert Get(g, i) == Some(g[i]);
    }
  }

  lemma AppendStaysSmall(files: Files, line: Line, limit: nat)
    requires 0 in files && FilesAtMost(files, limit) && Size(files[0]) + |line| <= limit
    ensures FilesAtMost(files[0 := files[0] + [line]], limit)
  {
    SizeOfAppend(files[0], line);
  }

  lemma WriteStaysSmall(files: Files, line: Line, stuck: set<nat>, limit: nat)
    requires 0 in files && FilesAtMost(files, limit)
    requires ROTATE_BYTES <= limit && |line| <= limit
    ensures FilesAtMost(Written(files, line, stuck), limit)
  {
    if MustRotate(files, line) {
      RotationStaysSmall(files, stuck, limit);
      RotatedPlace(files, 0, stuck);
      if 0 !in stuck {
        AppendStaysSmall(Rotated(files, stuck), line, limit);
      }
    } else {
      AppendStaysSmall(files, line, limit);
    }
  }

  lemma {:induction false} FilesStaySmall(files: Files, events: seq<Event>, limit: nat)
    requires 0 in files && FilesAtMost(files, limit) && 10_485_760 <= limit
    requires forall e :: e in events ==> |e.line| <= limit
    ensures FilesAtMost(Run(files, events), limit)
  {
    if events != [] {
      var front, e := events[..|events| - 1], events[|events| - 1];
      FilesStaySmall(files, front, limit);
      ActiveStays(files, front);
      assert e in events;
      WriteStaysSmall(Run(files, front), e.line, e.stuck, limit);
    }
  }

  // ----- How much history a working log keeps -----

  /** File `i` was full when it was moved aside: the next file's first line did not fit in it. */
  ghost predicate FullAt(files: Files, i: nat) {
    0 < i && i in files ==>
      (i <= KEEP_ROTATED && i - 1 in files && files[i - 1] != []
       && Size(files[i]) + |files[i - 1][0]| > ROTATE_BYTES)
  }

  /** No gaps, and every rotated file was full. */
  ghost predicate Packed(files: Files) {
    0 in files && forall i: nat :: FullAt(files, i)
  }

  lemma OneUpIsFull(files: Files, line: Line, g: Files, i: nat)
    requires Packed(files) && MustRotate(files, line) && 0 < i && i in g
    requires Get(g, 0) == Some([line])
    requires Get(g, i) == (if i <= KEEP_ROTATED then Placed(files, i, {}) else Get(files, i))
    requires i > 1 ==> Get(g, i - 1) == Placed(files, i - 1, {})
    ensures FullAt(g, i)
  {
    assert FullAt(files, i);
    if i <= KEEP_ROTATED {
      assert i - 1 in files;
      assert FullAt(files, i - 1);
    }
  }

  lemma WriteKeepsPacked(files: Files, line: Line)
    requires Packed(files)
    ensures Packed(Written(files, line, {}))
  {
    var g := Written(files, line, {});
    RotatedPlace(files, 0, {});
    if MustRotate(files, line) {
      assert [] + [line] == [line];
      forall i: nat | 0 < i && i in g ensures FullAt(g, i) {
        RotatedPlace(files, i, {});
        RotatedPlace(files, i - 1, {});
        assert FullAt(files, i);
        OneUpIsFull(files, line, g, i);
      }
    } else {
      forall i: nat | 0 < i && i in g ensures FullAt(g, i) {
        assert FullAt(files, i);
      }
    }
  }

  function KeptBytes(files: Files, i: nat): nat {
    Size(At(files, i)) + if i == 0 then 0 else KeptBytes(files, i - 1)
  }

  lemma {:induction false} FirstLineFits(lines: seq<Line>)
    requires lines != []
    ensures |lines[0]| < Size(lines)
  {
    if |lines| > 1 {
      FirstLineFits(lines[..|lines| - 1]);
    }
  }

  /** Two neighbouring files together hold more than the threshold. */
  lemma PairsAreFull(files: Files, i: nat)
    requires Packed(files) && 0 < i && i in files
    ensures i - 1 in files && Size(At(files, i)) + Size(At(files, i - 1)) > ROTATE_BYTES
  {
    assert FullAt(files, i);
    FirstLineFits(files[i - 1]);
  }

  lemma {:induction false} FullLogIsLarge(files: Files, i: nat, pairs: nat)
    requires Packed(files) && i in files && i == 2 * pairs + 1
    ensures KeptBytes(files, i) > (pairs + 1) * ROTATE_BYTES
  {
    PairsAreFull(files, i);
    assert (pairs + 1) * ROTATE_BYTES == pairs * ROTATE_BYTES + ROTATE_BYTES;
    if pairs > 0 {
      PairsAreFull(files, i - 1);
      FullLogIsLarge(files, i - 2, pairs - 1);
      assert KeptBytes(files, i) == Size(At(files, i)) + KeptBytes(files, i - 1);
    }
  }

  function Lines(events: seq<Event>): seq<Line> {
    if events == [] then [] else Lines(events[..|events| - 1]) + [events[|events| - 1].line]
  }

  lemma NotYetFull(files: Files, line: Line, last: nat)
    requires 0 in files && last == KEEP_ROTATED && last !in files
    ensures TailFrom(Written(files, line, {}), last) == TailFrom(files, last) + [line]
  {
    var ready := if MustRotate(files, line) then Rotated(files, {}) else files;
    WrittenKeepsActive(files, line, {});
    AppendGoesLast(ready, line, last);
    RotationKeeps(files, {}, last);
    NothingOverwritten(files, last, {});
  }

  /** The place of the oldest file is never vacated. */
  lemma OldestStays(files: Files, line: Line)
    requires 0 in files && KEEP_ROTATED in files
    ensures KEEP_ROTATED in Written(files, line, {})
  {
    RotatedPlace(files, KEEP_ROTATED, {});
  }

  lemma {:induction false} LostOnlyWhenFull(start: Files, events: seq<Event>, last: nat)
    requires start == map[0 := []] && last == KEEP_ROTATED
    requires forall e :: e in events ==> e.stuck == {}
    ensures Recorded(start, events) == Lines(events) && Packed(Run(start, events))
    ensures TailFrom(Run(start, events), last) == Lines(events) || last in Run(start, events)
  {
    if events != [] {
      var front, e := events[..|events| - 1], events[|events| - 1];
      LostOnlyWhenFull(start, front, last);
      assert e in events;
      var before := Run(start, front);
      WriteKeepsPacked(before, e.line);
      if last in before {
        OldestStays(before, e.line);
      } else {
        NotYetFull(before, e.line, last);
      }
    } else {
      NothingYet(start, last);
    }
  }

  lemma {:induction false} NothingYet(start: Files, i: nat)
    requires start == map[0 := []]
    ensures TailFrom(start, i) == []
  {
    if i > 0 {
      NothingYet(start, i - 1);
    }
  }

  /** While the renames work every line is recorded, and none is dropped before the files kept
      hold more than three thresholds of history. */
  lemma NothingLostUntilFull(start: Files, events: seq<Event>, last: nat)
    requires start == map[0 := []] && last == KEEP_ROTATED
    requires forall e :: e in events ==> e.stuck == {}
    ensures Recorded(start, events) == Lines(events)
    ensures TailFrom(Run(start, events), last) == Lines(events)
      || KeptBytes(Run(start, events), last) > 31_457_280
  {
    LostOnlyWhenFull(start, events, last);
    if last in Run(start, events) {
      FullLogIsLarge(Run(start, events), last, 2);
    }
  }
}
