/**
  stringutils.c: fcitx_utils_string_replace. Occurrences are collected in batches; inside a batch the
  text between two occurrences is copied from behind the second one instead of behind the first
  (stringutils.c:379), which may even lie behind the string. Exactly when that is harmless is stated
  and proved here.
 */
module StringReplace {
  import opened Escape
  import opened Seqs
  import opened Wrappers

  /** MAX_REPLACE_INDICES_NUM */
  const BATCH := 128

  /** strstr from `at` on: the next occurrence, or the length of `s`. */
  function Strstr(s: string, before: string, at: nat): (i: nat)
    requires at <= |s|
    ensures at <= i <= |s| && (i < |s| ==> i + |before| <= |s|)
    decreases |s| - at
  {
    if at == |s| then |s|
    else if at + |before| <= |s| && s[at..at + |before|] == before then at
    else Strstr(s, before, at + 1)
  }

  /** Where `before` is found, each search beginning behind the occurrence found last. */
  function Occurrences(s: string, before: string, at: nat): (r: seq<nat>)
    requires before != "" && at <= |s|
    ensures r != [] ==> at <= r[0]
    ensures Spaced(r, |before|, |s|)
    decreases |s| - at
  {
    var i := Strstr(s, before, at);
    if i == |s| then [] else [i] + Occurrences(s, before, i + |before|)
  }

  predicate Spaced(occ: seq<nat>, n: nat, len: nat) {
    forall i | 0 <= i < |occ| :: End(occ, n, i) <= occ[i] && occ[i] + n <= len
  }

  /** Where the text behind the first `i` occurrences begins. */
  function End(occ: seq<nat>, n: nat, i: nat): nat
    requires i <= |occ|
  {
    if i == 0 then 0 else occ[i - 1] + n
  }

  /** The text from behind the first `i` occurrences on, with every later occurrence replaced. */
  function Meant(s: string, occ: seq<nat>, n: nat, after: string, i: nat): string
    requires Spaced(occ, n, |s|) && i <= |occ|
    decreases |occ| - i
  {
    if i == |occ| then s[End(occ, n, i)..] else s[End(occ, n, i)..occ[i]] + after + Meant(s, occ, n, after, i + 1)
  }

  /** What memory holds at `s + i`: the string, and `behind` it its terminator and whatever comes then. */
  function CharAt(s: string, behind: nat -> char, i: nat): char {
    if i < |s| then s[i] else behind(i - |s|)
  }

  /** `len` characters of memory from `s + at` on. */
  function Memory(s: string, behind: nat -> char, at: nat, len: nat): (r: string)
    ensures |r| == len && forall j | 0 <= j < len :: r[j] == CharAt(s, behind, at + j)
  {
    seq(len, j requires 0 <= j < len => CharAt(s, behind, at + j))
  }

  /** The text copied in front of occurrence `i`. */
  function Piece(s: string, behind: nat -> char, occ: seq<nat>, n: nat, i: nat): (r: string)
    requires Spaced(occ, n, |s|) && i < |occ|
    ensures |r| == occ[i] - End(occ, n, i)
  {
    if i % BATCH == 0 then s[End(occ, n, i)..occ[i]]
    else Memory(s, behind, occ[i] + n, occ[i] - End(occ, n, i))
  }

  /** What the code puts together from behind the first `i` occurrences on. */
  function Copied(s: string, behind: nat -> char, occ: seq<nat>, n: nat, after: string, i: nat): string
    requires Spaced(occ, n, |s|) && i <= |occ|
    decreases |occ| - i
  {
    if i == |occ| then s[End(occ, n, i)..]
    else Piece(s, behind, occ, n, i) + after + Copied(s, behind, occ, n, after, i + 1)
  }

  /** The text between occurrence `i - 1` and occurrence `i` stands again behind the latter. */
  predicate GapRepeats(s: string, occ: seq<nat>, n: nat, i: nat)
    requires Spaced(occ, n, |s|) && i < |occ|
  {
    s[End(occ, n, i)..occ[i]] <= s[occ[i] + n..]
  }

  /** Inside every batch each gap repeats. */
  predicate GapsRepeat(s: string, occ: seq<nat>, n: nat, i: nat)
    requires Spaced(occ, n, |s|)
  {
    forall j | i <= j < |occ| && j % BATCH != 0 :: GapRepeats(s, occ, n, j)
  }

  lemma SameLengths(a: string, b: string, c: string, d: string)
    requires |a| == |b|
    ensures a + c == b + d <==> a == b && c == d
  {
    if a + c == b + d {
      assert (a + c)[..|a|] == a && (b + d)[..|b|] == b;
      assert (a + c)[|a|..] == c && (b + d)[|b|..] == d;
    }
  }

  lemma PiecesAgree(a: string, b: string, after: string, c: string, d: string)
    requires |a| == |b|
    ensures a + after + c == b + after + d <==> a == b && c == d
  {
    SameLengths(a + after, b + after, c, d);
    SameLengths(a, b, after, after);
  }

  /** Behind a string stands its terminator, so that a text reaching that far does not repeat. */
  lemma MemoryIs(s: string, behind: nat -> char, at: nat, gap: string)
    requires at <= |s| && NUL !in gap && behind(0) == NUL
    ensures Memory(s, behind, at, |gap|) == gap <==> gap <= s[at..]
  {
    var m, rest := Memory(s, behind, at, |gap|), s[at..];
    assert forall j | 0 <= j < |gap| && j < |rest| :: m[j] == rest[j];
    if |gap| > |rest| {
      assert m[|rest|] == NUL && gap[|rest|] in gap;
    } else {
      assert m == rest[..|gap|];
    }
  }

  lemma PieceIsGap(s: string, behind: nat -> char, occ: seq<nat>, n: nat, i: nat)
    requires Spaced(occ, n, |s|) && i < |occ| && NUL !in s && behind(0) == NUL
    ensures Piece(s, behind, occ, n, i) == s[End(occ, n, i)..occ[i]] <==> i % BATCH == 0 || GapRepeats(s, occ, n, i)
  {
    hide Memory;
    MemoryIs(s, behind, occ[i] + n, s[End(occ, n, i)..occ[i]]);
  }

  lemma Unrolled(s: string, behind: nat -> char, occ: seq<nat>, n: nat, after: string, i: nat)
    requires Spaced(occ, n, |s|) && i < |occ|
    ensures Copied(s, behind, occ, n, after, i)
            == Piece(s, behind, occ, n, i) + after + Copied(s, behind, occ, n, after, i + 1)
    ensures Meant(s, occ, n, after, i) == s[End(occ, n, i)..occ[i]] + after + Meant(s, occ, n, after, i + 1)
    ensures GapsRepeat(s, occ, n, i)
            <==> (i % BATCH == 0 || GapRepeats(s, occ, n, i)) && GapsRepeat(s, occ, n, i + 1)
  {
    hide Piece, GapRepeats;
  }

  /** The code replaces every occurrence exactly when the gaps repeat. */
  lemma {:induction false} CopiedIsMeant(s: string, behind: nat -> char, occ: seq<nat>, n: nat, after: string, i: nat)
    requires Spaced(occ, n, |s|) && i <= |occ| && NUL !in s && behind(0) == NUL
    ensures Copied(s, behind, occ, n, after, i) == Meant(s, occ, n, after, i) <==> GapsRepeat(s, occ, n, i)
    decreases |occ| - i
  {
    hide Piece, GapRepeats, GapsRepeat, Copied, Meant;
    if i == |occ| {
      NothingCopied(s, behind, occ, n, after);
    } else {
      CopiedIsMeant(s, behind, occ, n, after, i + 1);
      Unrolled(s, behind, occ, n, after, i);
      PieceIsGap(s, behind, occ, n, i);
      PiecesAgree(Piece(s, behind, occ, n, i), s[End(occ, n, i)..occ[i]], after,
                  Copied(s, behind, occ, n, after, i + 1), Meant(s, occ, n, after, i + 1));
    }
  }

  lemma NothingCopied(s: string, behind: nat -> char, occ: seq<nat>, n: nat, after: string)
    requires Spaced(occ, n, |s|)
    ensures Copied(s, behind, occ, n, after, |occ|) == Meant(s, occ, n, after, |occ|) == s[End(occ, n, |occ|)..]
    ensures GapsRepeat(s, occ, n, |occ|)
  {
  }

  /** What fcitx_utils_string_replace returns, with None for the null pointer. */
  function Result(s: string, behind: nat -> char, before: string, after: string, nullIfNoMatch: bool): Option<string> {
    if before == "" || Occurrences(s, before, 0) == [] then if nullIfNoMatch then None else Some(s)
    else Some(Copied(s, behind, Occurrences(s, before, 0), |before|, after, 0))
  }

  /** What a reader sees of a buffer: the text up to the first NUL. */
  function CText(s: string): (r: string)
    ensures r <= s && NUL !in r && (|r| < |s| ==> s[|r|] == NUL)
  {
    if s == "" || s[0] == NUL then "" else [s[0]] + CText(s[1..])
  }

  /** What it is meant to return. */
  function MeantResult(s: string, before: string, after: string, nullIfNoMatch: bool): Option<string> {
    if before == "" || Occurrences(s, before, 0) == [] then if nullIfNoMatch then None else Some(s)
    else Some(Meant(s, Occurrences(s, before, 0), |before|, after, 0))
  }

  /** The strings in which the code replaces `before` properly. */
  predicate Replaceable(s: string, before: string) {
    before == "" || GapsRepeat(s, Occurrences(s, before, 0), |before|, 0)
  }

  lemma ResultIsMeant(s: string, behind: nat -> char, before: string, after: string, nullIfNoMatch: bool)
    requires NUL !in s && behind(0) == NUL
    ensures Result(s, behind, before, after, nullIfNoMatch) == MeantResult(s, before, after, nullIfNoMatch)
            <==> Replaceable(s, before)
  {
    if before != "" {
      CopiedIsMeant(s, behind, Occurrences(s, before, 0), |before|, after, 0);
    }
  }

  /** One occurrence, or none, is always replaced properly. */
  lemma OneOccurrence(s: string, before: string)
    requires before != "" ==> |Occurrences(s, before, 0)| <= 1
    ensures Replaceable(s, before)
  {
  }

  // The code

  lemma NextOccurrence(s: string, before: string, at: nat, occ: seq<nat>, i: nat)
    requires before != "" && at <= |s| && i <= |occ| && Occurrences(s, before, at) == occ[i..]
    requires Strstr(s, before, at) < |s|
    ensures i < |occ| && occ[i] == Strstr(s, before, at) && occ[i] + |before| <= |s|
    ensures Occurrences(s, before, occ[i] + |before|) == occ[i + 1..]
  {
    hide Strstr, Spaced;
    var rest := Occurrences(s, before, Strstr(s, before, at) + |before|);
    assert occ[i..] == [Strstr(s, before, at)] + rest;
    assert occ[i..][0] == occ[i] && occ[i..][1..] == occ[i + 1..] && ([occ[i]] + rest)[1..] == rest;
  }

  lemma NoOccurrence(s: string, before: string, at: nat)
    requires before != "" && at <= |s|
    ensures Occurrences(s, before, at) == [] <==> Strstr(s, before, at) == |s|
  {
  }

  /** The inner search loop: fills the batch with the next occurrences. */
  method FindBatch(s: string, before: string, indices: array<nat>, start: nat, ghost occ: seq<nat>, ghost done: nat)
    returns (nIndices: nat, pivot: nat, ended: bool)
    requires before != "" && start <= |s| && indices.Length == BATCH && done <= |occ|
    requires start == End(occ, |before|, done) && Occurrences(s, before, start) == occ[done..]
    modifies indices
    ensures nIndices <= BATCH && done + nIndices <= |occ| && (!ended ==> nIndices == BATCH)
    ensures forall j | 0 <= j < nIndices :: indices[j] == occ[done + j]
    ensures pivot == End(occ, |before|, done + nIndices) <= |s|
    ensures Occurrences(s, before, pivot) == occ[done + nIndices..]
    ensures ended ==> done + nIndices == |occ|
  {
    hide Strstr, Occurrences, Spaced;
    nIndices, pivot, ended := 0, start, false;
    while nIndices < BATCH
      invariant nIndices <= BATCH && done + nIndices <= |occ| && !ended
      invariant forall j | 0 <= j < nIndices :: indices[j] == occ[done + j]
      invariant pivot == End(occ, |before|, done + nIndices) <= |s|
      invariant Occurrences(s, before, pivot) == occ[done + nIndices..]
    {
      var at := Strstr(s, before, pivot);
      if at == |s| {
        NoOccurrence(s, before, pivot);
        ended := true;
        break;
      }
      NextOccurrence(s, before, pivot, occ, done + nIndices);
      indices[nIndices] := at;
      nIndices := nIndices + 1;
      pivot := at + |before|;
    }
  }

  /** The length that replacing `k` occurrences gives a string of length `len`. */
  function NewLen(len: nat, k: nat, n: nat, after: string): int {
    len + k * (|after| - n)
  }

  /** How much has been written behind the first `i` occurrences. */
  function Written(occ: seq<nat>, n: nat, after: string, i: nat): int
    requires i <= |occ|
  {
    NewLen(End(occ, n, i), i, n, after)
  }

  lemma WrittenStep(occ: seq<nat>, n: nat, len: nat, after: string, i: nat)
    requires Spaced(occ, n, len) && i < |occ|
    ensures Written(occ, n, after, i + 1) == Written(occ, n, after, i) + (occ[i] - End(occ, n, i)) + |after|
  {
    assert (i + 1) * (|after| - n) == i * (|after| - n) + (|after| - n);
  }

  lemma {:induction false} WrittenGrows(occ: seq<nat>, n: nat, len: nat, after: string, i: nat, j: nat)
    requires Spaced(occ, n, len) && i <= j <= |occ|
    ensures Written(occ, n, after, i) <= Written(occ, n, after, j)
    decreases j - i
  {
    if i == j {
    } else {
      WrittenStep(occ, n, len, after, i);
      WrittenGrows(occ, n, len, after, i + 1, j);
    }
  }

  /** _COPY_AND_MOVE_ON */
  method CopyAndMoveOn(newString: array<char>, newStringPos: nat, text: string) returns (pos: nat)
    requires newStringPos + |text| <= newString.Length
    modifies newString
    ensures pos == newStringPos + |text| && newString[..pos] == old(newString[..newStringPos]) + text
  {
    forall j | 0 <= j < |text| {
      newString[newStringPos + j] := text[j];
    }
    pos := newStringPos + |text|;
    assert newString[..pos] == newString[..newStringPos] + newString[newStringPos..pos];
  }

  /** The allocation in front of a batch, or the reallocation, which never shrinks the buffer. */
  method MakeRoom(newString: array?<char>, newStringPos: nat, len: nat, nIndices: nat, n: nat, after: string,
                  ghost done: nat)
    returns (r: array<char>)
    requires NewLen(len, done + nIndices, n, after) >= 0
    requires newString == null ==> newStringPos == 0 == done
    requires newString != null ==> newString.Length > NewLen(len, done, n, after) && newStringPos <= newString.Length
    ensures r == newString || fresh(r)
    ensures r.Length > NewLen(len, done + nIndices, n, after) && newStringPos <= r.Length
    ensures r[..newStringPos] == if newString == null then "" else old(newString[..newStringPos])
  {
    assert (done + nIndices) * (|after| - n) == done * (|after| - n) + nIndices * (|after| - n);
    if newString == null {
      r := new char[len + nIndices * (|after| - n) + 1];
    } else {
      var newLen := newString.Length + nIndices * (|after| - n);
      r := newString;
      if newLen > newString.Length {
        r := new char[newLen];
        forall j | 0 <= j < newString.Length {
          r[j] := newString[j];
        }
      } else {
        assert nIndices * (|after| - n) <= 0;
      }
    }
  }

  /** What the buffer is made long enough for. */
  lemma WrittenFits(occ: seq<nat>, n: nat, len: nat, after: string, i: nat, j: nat)
    requires Spaced(occ, n, len) && i <= j <= |occ|
    ensures 0 <= Written(occ, n, after, i) <= NewLen(len, j, n, after)
    ensures End(occ, n, j) <= len && Written(occ, n, after, j) + (len - End(occ, n, j)) == NewLen(len, j, n, after)
  {
    WrittenGrows(occ, n, len, after, 0, i);
    WrittenGrows(occ, n, len, after, i, j);
  }

  /** One more occurrence has been copied to `text`. */
  lemma OneCopied(text: string, s: string, behind: nat -> char, occ: seq<nat>, n: nat, after: string, i: nat)
    requires Spaced(occ, n, |s|) && i < |occ|
    ensures text + Piece(s, behind, occ, n, i) + after + Copied(s, behind, occ, n, after, i + 1)
            == text + Copied(s, behind, occ, n, after, i)
  {
    hide Piece, Copied, Spaced;
    Unrolled(s, behind, occ, n, after, i);
    var piece, rest := Piece(s, behind, occ, n, i), Copied(s, behind, occ, n, after, i + 1);
    ConcatAssociates(text, piece, after);
    ConcatAssociates(text, piece + after, rest);
  }

  /** With the first `i` occurrences copied, the rest completes `whole`. */
  ghost predicate SoFar(newString: array<char>, pos: nat, whole: string, s: string, behind: nat -> char,
                        occ: seq<nat>, n: nat, after: string, i: nat)
    requires Spaced(occ, n, |s|) && i <= |occ|
    reads newString
  {
    && pos == Written(occ, n, after, i) <= newString.Length
    && newString[..pos] + Copied(s, behind, occ, n, after, i) == whole
  }

  /** The text in front of occurrence `i` copied, and then its replacement. */
  method CopyOne(newString: array<char>, newStringPos: nat, text: string, after: string, ghost whole: string,
                 ghost s: string, ghost behind: nat -> char, ghost occ: seq<nat>, ghost n: nat,
                 ghost i: nat, ghost end: nat)
    returns (pos: nat)
    requires Spaced(occ, n, |s|) && i < end <= |occ| && text == Piece(s, behind, occ, n, i)
    requires SoFar(newString, newStringPos, whole, s, behind, occ, n, after, i)
    requires newString.Length > NewLen(|s|, end, n, after)
    modifies newString
    ensures SoFar(newString, pos, whole, s, behind, occ, n, after, i + 1)
  {
    hide Copied, Written, NewLen, Spaced;
    WrittenFits(occ, n, |s|, after, i + 1, end);
    WrittenStep(occ, n, |s|, after, i);
    OneCopied(newString[..newStringPos], s, behind, occ, n, after, i);
    pos := CopyAndMoveOn(newString, newStringPos, text);
    pos := CopyAndMoveOn(newString, pos, after);
  }

  /** The batch `indices` copied into the new string. */
  method CopyBatch(s: string, behind: nat -> char, indices: array<nat>, nIndices: nat, n: nat, after: string,
                   newString: array<char>, newStringPos: nat, oldStringPos: nat, ghost whole: string,
                   ghost occ: seq<nat>, ghost done: nat)
    returns (pos: nat)
    requires Spaced(occ, n, |s|) && done + nIndices <= |occ| && done % BATCH == 0
    requires 0 < nIndices <= indices.Length == BATCH && forall j | 0 <= j < nIndices :: indices[j] == occ[done + j]
    requires oldStringPos == End(occ, n, done)
    requires SoFar(newString, newStringPos, whole, s, behind, occ, n, after, done)
    requires newString.Length > NewLen(|s|, done + nIndices, n, after)
    modifies newString
    ensures SoFar(newString, pos, whole, s, behind, occ, n, after, done + nIndices)
  {
    hide Memory, NewLen, Spaced, End, SoFar;
    ghost var end := done + nIndices;
    InBatch(occ, n, |s|, done);
    pos := CopyOne(newString, newStringPos, s[oldStringPos..indices[0]], after, whole, s, behind, occ, n, done, end);
    var i := 1;
    while i < nIndices
      invariant 1 <= i <= nIndices && SoFar(newString, pos, whole, s, behind, occ, n, after, done + i)
    {
      InsideBatch(done, i);
      InBatch(occ, n, |s|, done + i);
      assert End(occ, n, done + i) == indices[i - 1] + n;
      var text := Memory(s, behind, indices[i] + n, indices[i] - (indices[i - 1] + n));
      pos := CopyOne(newString, pos, text, after, whole, s, behind, occ, n, done + i, end);
      i := i + 1;
    }
  }

  lemma InBatch(occ: seq<nat>, n: nat, len: nat, i: nat)
    requires Spaced(occ, n, len) && i < |occ|
    ensures End(occ, n, i) <= occ[i] && occ[i] + n <= len && (i > 0 ==> End(occ, n, i) == occ[i - 1] + n)
  {
  }

  lemma InsideBatch(done: nat, i: nat)
    requires done % BATCH == 0 && 0 < i < BATCH
    ensures (done + i) % BATCH != 0
  {
  }

  /** The new string holds what the first `done` occurrences come to, and there is room for the rest of `s`. */
  ghost predicate Progress(newString: array?<char>, newStringPos: nat, s: string, behind: nat -> char,
                           occ: seq<nat>, n: nat, after: string, done: nat)
    requires Spaced(occ, n, |s|)
    reads if newString == null then {} else {newString}
  {
    && done <= |occ| && newStringPos == Written(occ, n, after, done) && (newString == null ==> done == 0)
    && (newString != null ==>
          && done > 0 && newStringPos <= newString.Length && newString.Length > NewLen(|s|, done, n, after)
          && newString[..newStringPos] + Copied(s, behind, occ, n, after, done) == Copied(s, behind, occ, n, after, 0))
  }

  /** The batch is copied, in a buffer made long enough. */
  method AddBatch(s: string, behind: nat -> char, indices: array<nat>, nIndices: nat, n: nat, after: string,
                  newString: array?<char>, newStringPos: nat, oldStringPos: nat, ghost occ: seq<nat>, ghost done: nat)
    returns (r: array<char>, pos: nat)
    requires Spaced(occ, n, |s|) && Progress(newString, newStringPos, s, behind, occ, n, after, done)
    requires done + nIndices <= |occ| && done % BATCH == 0 && oldStringPos == End(occ, n, done)
    requires 0 < nIndices <= indices.Length == BATCH && forall j | 0 <= j < nIndices :: indices[j] == occ[done + j]
    modifies newString
    ensures r == newString || fresh(r)
    ensures Progress(r, pos, s, behind, occ, n, after, done + nIndices)
  {
    hide Copied, Written, NewLen, Spaced;
    WrittenFits(occ, n, |s|, after, 0, done + nIndices);
    EmptyIsUnit(Copied(s, behind, occ, n, after, 0));
    NothingWritten(occ, n, after);
    r := MakeRoom(newString, newStringPos, |s|, nIndices, n, after, done);
    pos := CopyBatch(s, behind, indices, nIndices, n, after, r, newStringPos, oldStringPos,
                     Copied(s, behind, occ, n, after, 0), occ, done);
  }

  lemma NothingWritten(occ: seq<nat>, n: nat, after: string)
    ensures Written(occ, n, after, 0) == 0
  {
  }

  /** The text behind the last occurrence, and the terminator. */
  method CopyRest(s: string, ghost behind: nat -> char, ghost n: nat, ghost after: string,
                  newString: array<char>, newStringPos: nat, oldStringPos: nat, ghost occ: seq<nat>)
    returns (r: string)
    requires Spaced(occ, n, |s|) && Progress(newString, newStringPos, s, behind, occ, n, after, |occ|)
    requires oldStringPos == End(occ, n, |occ|)
    modifies newString
    ensures r == Copied(s, behind, occ, n, after, 0)
  {
    hide Written, NewLen, Spaced;
    WrittenFits(occ, n, |s|, after, |occ|, |occ|);
    var pos := CopyAndMoveOn(newString, newStringPos, s[oldStringPos..]);
    newString[pos] := NUL;
    r := newString[..pos];
  }

  /** fcitx_utils_string_replace: batch after batch, in a buffer that is always long enough. */
  method StringReplace(s: string, behind: nat -> char, before: string, after: string, nullIfNoMatch: bool)
    returns (r: Option<string>)
    ensures r == Result(s, behind, before, after, nullIfNoMatch)
  {
    hide Copied, Occurrences, Written, NewLen, Spaced;
    var n := |before|;
    if n == 0 {
      return if nullIfNoMatch then None else Some(s);
    }
    ghost var occ, done := Occurrences(s, before, 0), 0;
    var newString: array?<char> := null;
    var newStringPos, oldStringPos, pivot, ended := 0, 0, 0, false;
    var indices := new nat[BATCH];
    NothingWritten(occ, n, after);
    assert occ[0..] == occ;
    while !ended
      invariant Progress(newString, newStringPos, s, behind, occ, n, after, done)
      invariant pivot == oldStringPos == End(occ, n, done) <= |s| && Occurrences(s, before, pivot) == occ[done..]
      invariant if ended then done == |occ| else done % BATCH == 0
      invariant fresh(indices) && (newString != null ==> fresh(newString))
      decreases |occ| - done, !ended
    {
      var nIndices: nat;
      nIndices, pivot, ended := FindBatch(s, before, indices, pivot, occ, done);
      if nIndices > 0 {
        newString, newStringPos := AddBatch(s, behind, indices, nIndices, n, after,
                                             newString, newStringPos, oldStringPos, occ, done);
        oldStringPos := indices[nIndices - 1] + n;
        done := done + nIndices;
      }
    }
    if newString == null {
      return if nullIfNoMatch then None else Some(s);
    }
    var text := CopyRest(s, behind, n, after, newString, newStringPos, oldStringPos, occ);
    r := Some(text);
  }

  // One character

  /** Replacing every `c` by `sub`. */
  function Replace(s: string, c: char, sub: string): string {
    if s == "" then "" else (if s[0] == c then sub else [s[0]]) + Replace(s[1..], c, sub)
  }

  lemma {:induction false} StrstrIs(s: string, c: char, at: nat, i: nat)
    requires at <= i <= |s| && (i < |s| ==> s[i] == c) && forall j | at <= j < i :: s[j] != c
    ensures Strstr(s, [c], at) == i
    decreases i - at
  {
    if at == i {
      assert i < |s| ==> s[i..i + 1] == [c];
    } else {
      assert s[at..at + 1][0] == s[at];
      StrstrIs(s, c, at + 1, i);
    }
  }

  /** With two occurrences it can go wrong: replacing x in 1x2x3 copies the 3 where the 2 belongs. */
  lemma WrongGap(behind: nat -> char, after: string, nullIfNoMatch: bool)
    requires behind(0) == NUL
    ensures !Replaceable("1x2x3", "x")
    ensures Result("1x2x3", behind, "x", after, nullIfNoMatch) != MeantResult("1x2x3", "x", after, nullIfNoMatch)
  {
    GapOf1x2x3();
    ResultIsMeant("1x2x3", behind, "x", after, nullIfNoMatch);
  }

  lemma GapOf1x2x3()
    ensures !Replaceable("1x2x3", "x")
  {
    hide Strstr;
    var s := "1x2x3";
    StrstrIs(s, 'x', 0, 1);
    StrstrIs(s, 'x', 2, 3);
    StrstrIs(s, 'x', 4, 5);
    var occ := Occurrences(s, ['x'], 0);
    assert occ == [1] + Occurrences(s, ['x'], 2) && Occurrences(s, ['x'], 2) == [3] + Occurrences(s, ['x'], 4);
    assert s[2..3][0] == '2' && s[4..][0] == '3';
    assert !GapRepeats(s, occ, 1, 1);
  }

  /** For a single character the meant result is the character-wise replacement. */
  lemma {:induction false} MeantIsReplace(s: string, c: char, after: string, occ: seq<nat>, i: nat)
    requires Spaced(occ, 1, |s|) && i <= |occ| && Occurrences(s, [c], End(occ, 1, i)) == occ[i..]
    ensures Meant(s, occ, 1, after, i) == Replace(s[End(occ, 1, i)..], c, after)
    decreases |occ| - i
  {
    hide Strstr, Replace, Occurrences, Meant, Spaced;
    var at := End(occ, 1, i);
    EndInside(s, occ, i);
    SkipTo(s, c, after, at);
    NoOccurrence(s, [c], at);
    if i == |occ| {
      NothingCopied(s, k => NUL, occ, 1, after);
      EmptyIsUnitRight(s[at..]);
    } else {
      Unrolled(s, k => NUL, occ, 1, after, i);
      NextOccurrence(s, [c], at, occ, i);
      MeantIsReplace(s, c, after, occ, i + 1);
      ConcatAssociates(s[at..occ[i]], after, Replace(s[occ[i] + 1..], c, after));
    }
  }

  lemma EndInside(s: string, occ: seq<nat>, i: nat)
    requires Spaced(occ, 1, |s|) && i <= |occ|
    ensures End(occ, 1, i) <= |s| && (i < |occ| ==> End(occ, 1, i) <= occ[i] < |s|)
  {
  }

  lemma EmptyIsUnitRight(s: string)
    ensures s + "" == s
  {
  }

  lemma ReplaceHead(s: string, c: char, after: string, at: nat)
    requires at < |s|
    ensures Replace(s[at..], c, after) == (if s[at] == c then after else [s[at]]) + Replace(s[at + 1..], c, after)
  {
    assert s[at..][1..] == s[at + 1..];
  }

  lemma {:induction false} SkipTo(s: string, c: char, after: string, at: nat)
    requires at <= |s|
    ensures var i := Strstr(s, [c], at);
            Replace(s[at..], c, after) == s[at..i] + if i < |s| then after + Replace(s[i + 1..], c, after) else ""
    decreases |s| - at
  {
    hide Replace;
    if at == |s| {
      assert s[at..] == "" && Replace("", c, after) == "" by { ReplaceNothing(c, after); }
    } else {
      assert s[at..at + 1] == [s[at]];
      ReplaceHead(s, c, after, at);
      var i := Strstr(s, [c], at);
      if s[at] == c {
        EmptyIsUnit(after + Replace(s[i + 1..], c, after));
        assert s[at..i] == "";
      } else {
        SkipTo(s, c, after, at + 1);
        var tail := if i < |s| then after + Replace(s[i + 1..], c, after) else "";
        assert s[at..i] == [s[at]] + s[at + 1..i];
        ConcatAssociates([s[at]], s[at + 1..i], tail);
      }
    }
  }

  lemma ReplaceNothing(c: char, after: string)
    ensures Replace("", c, after) == ""
  {
  }

  /** The string with every `c` replaced, whether or not there is one. */
  lemma MeantResultIsReplace(s: string, c: char, after: string)
    ensures MeantResult(s, [c], after, false) == Some(Replace(s, c, after))
    ensures MeantResult(s, [c], after, true) == None ==> Replace(s, c, after) == s
    ensures MeantResult(s, [c], after, true) != None ==> MeantResult(s, [c], after, true) == Some(Replace(s, c, after))
  {
    hide Occurrences, Meant, Replace;
    var occ := Occurrences(s, [c], 0);
    assert occ[0..] == occ && s[0..] == s;
    MeantIsReplace(s, c, after, occ, 0);
    if occ == [] {
      NothingReplaced(s, occ, after);
    }
  }

  lemma NothingReplaced(s: string, occ: seq<nat>, after: string)
    requires occ == []
    ensures Meant(s, occ, 1, after, 0) == s
  {
  }

  lemma {:induction false} ReplaceNoNul(v: string, c: char, after: string)
    requires NUL !in v && NUL !in after
    ensures NUL !in Replace(v, c, after)
  {
    if v == "" {
    } else {
      ReplaceNoNul(v[1..], c, after);
    }
  }

  lemma {:induction false} OccurrencesCount(s: string, c: char, at: nat)
    requires at <= |s|
    ensures |Occurrences(s, [c], at)| <= multiset(s[at..])[c]
    decreases |s| - at
  {
    hide Strstr;
    var i := Strstr(s, [c], at);
    NoOccurrence(s, [c], at);
    if i == |s| {
    } else {
      OccurrencesCount(s, c, i + 1);
      FoundIs(s, c, at);
      assert s[at..] == s[at..i] + [c] + s[i + 1..];
    }
  }

  lemma {:induction false} FoundIs(s: string, c: char, at: nat)
    requires at <= |s|
    ensures var i := Strstr(s, [c], at); i < |s| ==> s[i] == c
    decreases |s| - at
  {
    if at == |s| {
    } else {
      assert s[at..at + 1] == [s[at]];
      FoundIs(s, c, at + 1);
    }
  }

  lemma {:induction false} ReplaceCount(s: string, c: char, after: string, d: char)
    requires d != c && d !in after
    ensures multiset(Replace(s, c, after))[d] == multiset(s)[d]
  {
    if s == "" {
    } else {
      ReplaceCount(s[1..], c, after, d);
      assert s == [s[0]] + s[1..];
      assert multiset(after)[d] == 0;
    }
  }

  lemma AtMostOne(s: string, c: char)
    requires multiset(s)[c] <= 1
    ensures Replaceable(s, [c])
  {
    assert s[0..] == s;
    OccurrencesCount(s, c, 0);
    OneOccurrence(s, [c]);
  }

  lemma {:induction false} ReplaceConcat(s: string, r: string, c: char, sub: string)
    ensures Replace(s + r, c, sub) == Replace(s, c, sub) + Replace(r, c, sub)
  {
    if s == "" {
      assert s + r == r;
    } else {
      ReplaceConcat(s[1..], r, c, sub);
      assert (s + r)[1..] == s[1..] + r;
      ConcatAssociates(if s[0] == c then sub else [s[0]], Replace(s[1..], c, sub), Replace(r, c, sub));
    }
  }

  lemma {:induction false} ReplaceAbsent(s: string, c: char, sub: string)
    requires c !in s
    ensures Replace(s, c, sub) == s
  {
    if s == "" {
    } else {
      ReplaceAbsent(s[1..], c, sub);
    }
  }
}
