/**
  stringutils.c: what fcitx_utils_string_replace finds and what it is meant to put together, said of the
  characters alone: where the needle stands, and the pieces between its leftmost places.
 */
module ReplaceLaws {
  import opened Escape
  import opened Seqs
  import opened StringReplace
  import opened Wrappers

  /** `before` stands in `s` from `i` on. */
  ghost predicate Stands(s: string, before: string, i: nat) {
    i + |before| <= |s| && forall k | 0 <= k < |before| :: s[i + k] == before[k]
  }

  /** `before` stands nowhere from `from` up to `to`. */
  ghost predicate Nowhere(s: string, before: string, from: nat, to: nat) {
    forall j: nat | from <= j < to :: !Stands(s, before, j)
  }

  lemma StandsIsSlice(s: string, before: string, i: nat)
    ensures Stands(s, before, i) <==> i + |before| <= |s| && s[i..i + |before|] == before
  {
    if i + |before| <= |s| {
      var part := s[i..i + |before|];
      assert forall k | 0 <= k < |before| :: part[k] == s[i + k];
    }
  }

  /** strstr finds the first place of a needle, and the end exactly when there is none. */
  lemma {:induction false} StrstrFinds(s: string, before: string, at: nat)
    requires before != "" && at <= |s|
    ensures var i := Strstr(s, before, at);
            && at <= i <= |s| && Nowhere(s, before, at, i)
            && (i < |s| ==> Stands(s, before, i))
            && (i == |s| <==> Nowhere(s, before, at, |s|))
    decreases |s| - at
  {
    hide Stands;
    StandsIsSlice(s, before, at);
    if at == |s| {
    } else if at + |before| <= |s| && s[at..at + |before|] == before {
    } else {
      StrstrFinds(s, before, at + 1);
    }
  }

  /** The leftmost places of `before` that do not overlap, from `at` on. */
  ghost predicate Leftmost(s: string, before: string, at: nat, occ: seq<nat>)
    decreases |occ|
  {
    if occ == [] then Nowhere(s, before, at, |s|)
    else
      && at <= occ[0] < |s| && Nowhere(s, before, at, occ[0]) && Stands(s, before, occ[0])
      && Leftmost(s, before, occ[0] + |before|, occ[1..])
  }

  /** What the searches find are exactly these places. */
  lemma {:induction false} OccurrencesExactly(s: string, before: string, at: nat, occ: seq<nat>)
    requires before != "" && at <= |s|
    ensures occ == Occurrences(s, before, at) <==> Leftmost(s, before, at, occ)
    decreases |s| - at
  {
    hide Strstr, Stands;
    var i := Strstr(s, before, at);
    StrstrFinds(s, before, at);
    if i == |s| {
    } else {
      FirstPlace(s, before, i);
      if occ != [] {
        OccurrencesExactly(s, before, i + |before|, occ[1..]);
        if occ[0] == i {
          assert occ == [i] + occ[1..];
        }
      }
    }
  }

  lemma FirstPlace(s: string, before: string, i: nat)
    requires Stands(s, before, i)
    ensures i + |before| <= |s|
  {
  }

  // What is put together

  /** The pieces with `sep` between them. */
  function Joined(pieces: seq<string>, sep: string): string
    requires pieces != []
  {
    if |pieces| == 1 then pieces[0] else pieces[0] + sep + Joined(pieces[1..], sep)
  }

  /** No piece, even with the separator behind it, holds the separator before its end. */
  ghost predicate CutLeftmost(pieces: seq<string>, sep: string)
    requires pieces != []
  {
    && (forall i | 0 <= i < |pieces| - 1 :: Nowhere(pieces[i] + sep, sep, 0, |pieces[i]|))
    && Nowhere(pieces[|pieces| - 1], sep, 0, |pieces[|pieces| - 1]|)
  }

  /** The text in front of each occurrence from number `i` on, and behind the last. */
  function Pieces(s: string, occ: seq<nat>, n: nat, i: nat): (r: seq<string>)
    requires Spaced(occ, n, |s|) && i <= |occ|
    ensures |r| == |occ| - i + 1
    decreases |occ| - i
  {
    if i == |occ| then [s[End(occ, n, i)..]] else [s[End(occ, n, i)..occ[i]]] + Pieces(s, occ, n, i + 1)
  }

  lemma JoinedStep(piece: string, rest: seq<string>, sep: string)
    requires rest != []
    ensures Joined([piece] + rest, sep) == piece + sep + Joined(rest, sep)
  {
    assert ([piece] + rest)[1..] == rest;
  }

  lemma SpacedAt(s: string, occ: seq<nat>, n: nat, i: nat)
    requires Spaced(occ, n, |s|) && i <= |occ|
    ensures End(occ, n, i) <= |s| && (i < |occ| ==> End(occ, n, i) <= occ[i] && occ[i] + n <= |s|)
  {
  }

  lemma {:induction false} PiecesJoined(s: string, before: string, after: string, occ: seq<nat>, i: nat)
    requires Spaced(occ, |before|, |s|) && i <= |occ| && forall j | 0 <= j < |occ| :: Stands(s, before, occ[j])
    ensures Joined(Pieces(s, occ, |before|, i), before) == s[End(occ, |before|, i)..]
    ensures Joined(Pieces(s, occ, |before|, i), after) == Meant(s, occ, |before|, after, i)
    decreases |occ| - i
  {
    hide Stands, Spaced;
    SpacedAt(s, occ, |before|, i);
    if i == |occ| {
    } else {
      var n := |before|;
      PiecesJoined(s, before, after, occ, i + 1);
      var piece, rest := s[End(occ, n, i)..occ[i]], Pieces(s, occ, n, i + 1);
      JoinedStep(piece, rest, before);
      JoinedStep(piece, rest, after);
      StandsIsSlice(s, before, occ[i]);
      CutAround(s, End(occ, n, i), occ[i], before);
    }
  }

  lemma CutAround(s: string, from: nat, i: nat, before: string)
    requires from <= i && i + |before| <= |s| && s[i..i + |before|] == before
    ensures s[from..] == s[from..i] + before + s[i + |before|..]
  {
  }

  /** In the leftmost places `before` stands, and between them nowhere. */
  ghost predicate AllLeftmost(s: string, before: string, occ: seq<nat>)
    requires Spaced(occ, |before|, |s|)
  {
    && (forall i | 0 <= i < |occ| ::
          Stands(s, before, occ[i]) && Nowhere(s, before, End(occ, |before|, i), occ[i]))
    && Nowhere(s, before, End(occ, |before|, |occ|), |s|)
  }

  lemma {:induction false} LeftmostFrom(s: string, before: string, occ: seq<nat>, i: nat)
    requires before != "" && Spaced(occ, |before|, |s|) && i <= |occ|
    requires Leftmost(s, before, End(occ, |before|, i), occ[i..])
    ensures forall j | i <= j < |occ| ::
              Stands(s, before, occ[j]) && Nowhere(s, before, End(occ, |before|, j), occ[j])
    ensures Nowhere(s, before, End(occ, |before|, |occ|), |s|)
    decreases |occ| - i
  {
    hide Stands, Nowhere;
    if i == |occ| {
    } else {
      assert occ[i..][0] == occ[i] && occ[i..][1..] == occ[i + 1..];
      LeftmostFrom(s, before, occ, i + 1);
    }
  }

  /** A place in a part of the string is a place in the string. */
  lemma PartStands(s: string, part: string, from: nat, before: string, j: nat)
    requires from + |part| <= |s| && s[from..from + |part|] == part && Stands(part, before, j)
    ensures Stands(s, before, from + j)
  {
    forall k | 0 <= k < |before| ensures s[from + j + k] == before[k] {
      assert part[j + k] == s[from..from + |part|][j + k];
    }
  }

  lemma NowhereInPart(s: string, part: string, from: nat, before: string, to: nat)
    requires from + |part| <= |s| && s[from..from + |part|] == part && Nowhere(s, before, from, from + to)
    ensures Nowhere(part, before, 0, to)
  {
    hide Stands;
    forall j: nat | j < to ensures !Stands(part, before, j) {
      if Stands(part, before, j) {
        PartStands(s, part, from, before, j);
        assert false;
      }
    }
  }

  lemma CutCons(piece: string, rest: seq<string>, sep: string)
    requires rest != [] && Nowhere(piece + sep, sep, 0, |piece|) && CutLeftmost(rest, sep)
    ensures CutLeftmost([piece] + rest, sep)
  {
    hide Nowhere;
    var a := [piece] + rest;
    assert forall j | 0 <= j < |rest| :: a[j + 1] == rest[j];
    forall i | 0 <= i < |a| - 1 ensures Nowhere(a[i] + sep, sep, 0, |a[i]|) {
      if i > 0 {
        assert a[i] == rest[i - 1];
      }
    }
  }

  lemma CutLast(piece: string, sep: string)
    requires Nowhere(piece, sep, 0, |piece|)
    ensures CutLeftmost([piece], sep)
  {
    hide Nowhere;
  }

  lemma {:induction false} PiecesCut(s: string, before: string, occ: seq<nat>, i: nat)
    requires before != "" && Spaced(occ, |before|, |s|) && i <= |occ| && AllLeftmost(s, before, occ)
    ensures CutLeftmost(Pieces(s, occ, |before|, i), before)
    decreases |occ| - i
  {
    hide Stands, Nowhere, Spaced, CutLeftmost;
    var n := |before|;
    var from := End(occ, n, i);
    SpacedAt(s, occ, n, i);
    if i == |occ| {
      NowhereInPart(s, s[from..], from, before, |s| - from);
      CutLast(s[from..], before);
    } else {
      PiecesCut(s, before, occ, i + 1);
      FirstPieceCut(s, before, occ, i);
      CutCons(s[from..occ[i]], Pieces(s, occ, n, i + 1), before);
    }
  }

  lemma FirstPieceCut(s: string, before: string, occ: seq<nat>, i: nat)
    requires before != "" && Spaced(occ, |before|, |s|) && i < |occ| && AllLeftmost(s, before, occ)
    ensures var piece := s[End(occ, |before|, i)..occ[i]]; Nowhere(piece + before, before, 0, |piece|)
  {
    hide Stands, Nowhere, Spaced;
    var from := End(occ, |before|, i);
    SpacedAt(s, occ, |before|, i);
    StandsIsSlice(s, before, occ[i]);
    var piece := s[from..occ[i]];
    assert s[from..occ[i] + |before|] == piece + before;
    NowhereInPart(s, piece + before, from, before, |piece|);
  }

  /**
    What is meant: the string is cut at the leftmost places of the needle, and the pieces are put together
    again with `after` in between.
   */
  lemma MeantMeans(s: string, before: string, after: string)
    ensures before == "" ==> MeantResult(s, before, after, false) == Some(s)
    ensures before == "" ==> MeantResult(s, before, after, true) == None
    ensures before != "" ==>
              var pieces := Pieces(s, Occurrences(s, before, 0), |before|, 0);
              && s == Joined(pieces, before) && CutLeftmost(pieces, before)
              && MeantResult(s, before, after, false) == Some(Joined(pieces, after))
              && MeantResult(s, before, after, true) == if |pieces| == 1 then None else Some(Joined(pieces, after))
  {
    hide Occurrences, Meant, Stands, Leftmost, Pieces, CutLeftmost;
    if before != "" {
      var occ := Occurrences(s, before, 0);
      OccurrencesExactly(s, before, 0, occ);
      assert occ[0..] == occ && s[0..] == s;
      LeftmostFrom(s, before, occ, 0);
      PiecesJoined(s, before, after, occ, 0);
      PiecesCut(s, before, occ, 0);
      if occ == [] {
        OnePiece(Pieces(s, occ, |before|, 0), before, after);
      }
    }
  }

  lemma OnePiece(pieces: seq<string>, before: string, after: string)
    requires |pieces| == 1
    ensures Joined(pieces, before) == Joined(pieces, after)
  {
  }

  /** Such a cut is the only one. */
  lemma {:induction false} CutIsUnique(a: seq<string>, b: seq<string>, sep: string)
    requires sep != "" && a != [] && b != [] && CutLeftmost(a, sep) && CutLeftmost(b, sep)
    requires Joined(a, sep) == Joined(b, sep)
    ensures a == b
  {
    hide Stands, Nowhere;
    if |a| == 1 && |b| == 1 {
    } else if |a| == 1 {
      NotInPiece(b, a[0], sep);
    } else if |b| == 1 {
      NotInPiece(a, b[0], sep);
    } else {
      SameFirst(a[0], Joined(a[1..], sep), b[0], Joined(b[1..], sep), sep);
      CutRest(a, sep);
      CutRest(b, sep);
      CutIsUnique(a[1..], b[1..], sep);
      assert a == [a[0]] + a[1..] && b == [b[0]] + b[1..];
    }
  }

  lemma CutRest(a: seq<string>, sep: string)
    requires |a| > 1 && CutLeftmost(a, sep)
    ensures CutLeftmost(a[1..], sep)
  {
    hide Nowhere;
    assert forall i | 0 <= i < |a| - 1 :: a[1..][i] == a[i + 1];
  }

  lemma SepStands(piece: string, sep: string, rest: string)
    ensures Stands(piece + sep + rest, sep, |piece|)
  {
  }

  /** A string that holds the separator is not a piece without it. */
  lemma NotInPiece(a: seq<string>, piece: string, sep: string)
    requires sep != "" && |a| > 1 && Joined(a, sep) == piece
    ensures !Nowhere(piece, sep, 0, |piece|)
  {
    hide Stands;
    SepStands(a[0], sep, Joined(a[1..], sep));
    assert piece == a[0] + sep + Joined(a[1..], sep);
  }

  lemma SameFirst(p: string, r: string, q: string, t: string, sep: string)
    requires sep != "" && p + sep + r == q + sep + t
    requires Nowhere(p + sep, sep, 0, |p|) && Nowhere(q + sep, sep, 0, |q|)
    ensures p == q && r == t
  {
    NotShorter(p, r, q, t, sep);
    NotShorter(q, t, p, r, sep);
    var s := p + sep + r;
    assert s[..|p|] == p && s[..|q|] == q && s[|p + sep|..] == r && s[|q + sep|..] == t;
  }

  lemma NotShorter(p: string, r: string, q: string, t: string, sep: string)
    requires sep != "" && p + sep + r == q + sep + t && Nowhere(q + sep, sep, 0, |q|)
    ensures |p| >= |q|
  {
    if |p| < |q| {
      var s := p + sep + r;
      SepStands(p, sep, r);
      forall k | 0 <= k < |sep| ensures (q + sep)[|p| + k] == sep[k] {
        assert s[|p| + k] == sep[k] && s == q + sep + t;
      }
      assert Stands(q + sep, sep, |p|);
      assert false;
    }
  }

  /** The text between occurrence `j - 1` and occurrence `j` stands again behind the latter. */
  ghost predicate StandsAgain(s: string, occ: seq<nat>, n: nat, j: nat)
    requires 0 < j < |occ|
  {
    occ[j - 1] + n <= occ[j] <= |s| && Stands(s, s[occ[j - 1] + n..occ[j]], occ[j] + n)
  }

  /** The code does what is meant exactly when in every batch of 128 this holds of all but the first. */
  lemma ReplaceableMeans(s: string, before: string)
    requires before != ""
    ensures var occ := Occurrences(s, before, 0);
            Replaceable(s, before) <==> forall j | 0 < j < |occ| && j % 128 != 0 :: StandsAgain(s, occ, |before|, j)
  {
    hide StandsAgain, Occurrences, GapRepeats;
    var occ := Occurrences(s, before, 0);
    if Replaceable(s, before) {
      forall j | 0 < j < |occ| && j % 128 != 0 ensures StandsAgain(s, occ, |before|, j) {
        GapStands(s, occ, |before|, j);
      }
    } else {
      var j :| 0 <= j < |occ| && j % 128 != 0 && !GapRepeats(s, occ, |before|, j);
      GapStands(s, occ, |before|, j);
    }
  }

  lemma GapStands(s: string, occ: seq<nat>, n: nat, j: nat)
    requires Spaced(occ, n, |s|) && 0 < j < |occ|
    ensures GapRepeats(s, occ, n, j) <==> StandsAgain(s, occ, n, j)
  {
    hide Stands;
    var gap, rest := s[occ[j - 1] + n..occ[j]], s[occ[j] + n..];
    StandsIsSlice(s, gap, occ[j] + n);
    if |gap| <= |rest| {
      assert rest[..|gap|] == s[occ[j] + n..occ[j] + n + |gap|];
    }
  }
}
