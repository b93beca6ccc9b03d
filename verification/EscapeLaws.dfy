/** stringutils.c: escaping and unescaping said of whole texts: which pairs of characters stand for which code. */
module EscapeLaws {
  import opened Escape
  import opened Seqs

  /** The letters of the C escapes, with the codes of the characters they stand for. */
  predicate Names(letter: char, c: char) {
    (letter, c as int) in {('a', 7), ('b', 8), ('t', 9), ('n', 10), ('v', 11), ('f', 12), ('r', 13), ('e', 27)}
  }

  /** What stands behind a backslash for `c`: its letter, or itself when it is neither named nor a letter. */
  ghost predicate StandsFor(x: char, c: char) {
    Names(x, c) || (x == c && x !in "abtnvfre")
  }

  /** A character other than the backslash spells itself, a backslash and a character what that stands for. */
  ghost predicate SpellsOne(unit: string, c: char) {
    unit == [c] != "\\" || (|unit| == 2 && unit[0] == '\\' && StandsFor(unit[1], c))
  }

  ghost predicate Spells(units: seq<string>, v: string) {
    |units| == |v| && forall i | 0 <= i < |v| :: SpellsOne(units[i], v[i])
  }

  lemma UnescapeCharMeans(x: char, c: char)
    ensures UnescapeChar(x) == c <==> StandsFor(x, c)
  {
  }

  lemma EscapeCharMeans(c: char, x: char)
    ensures EscapeChar(c) == x <==> if exists l :: Names(l, c) then Names(x, c) else x == c
  {
    assert Names('a', c) || Names('b', c) || Names('t', c) || Names('n', c) || Names('v', c) || Names('f', c)
           || Names('r', c) || Names('e', c) || forall l :: !Names(l, c);
  }

  /** The characters escaped by default, by their codes. */
  lemma NeedEscapeMeans(c: char)
    ensures c in NEED_ESCAPE <==> c as int in {7, 8, 9, 10, 11, 12, 13, 27, 34, 39, 92}
  {
    assert NEED_ESCAPE[0] as int == 7 && NEED_ESCAPE[1] as int == 8 && NEED_ESCAPE[5] as int == 9;
    assert NEED_ESCAPE[3] as int == 10 && NEED_ESCAPE[7] as int == 11 && NEED_ESCAPE[2] as int == 12;
    assert NEED_ESCAPE[4] as int == 13 && NEED_ESCAPE[6] as int == 27 && NEED_ESCAPE[9] as int == 34;
    assert NEED_ESCAPE[8] as int == 39 && NEED_ESCAPE[10] as int == 92;
  }

  /** Escaping writes each character as it is, or, from the set, as a backslash and what names it or itself. */
  lemma {:induction false} EscapedMeans(s: string, set_: string) returns (units: seq<string>)
    ensures Escaped(s, set_) == Concat(units) && |units| == |s|
    ensures forall i | 0 <= i < |s| ::
              if s[i] !in set_ then units[i] == [s[i]]
              else |units[i]| == 2 && units[i][0] == '\\'
                   && if exists l :: Names(l, s[i]) then Names(units[i][1], s[i]) else units[i][1] == s[i]
  {
    hide EscapeChar, Names;
    if s == "" {
      units := [];
    } else {
      var rest := EscapedMeans(s[1..], set_);
      var unit := if s[0] in set_ then ['\\', EscapeChar(s[0])] else [s[0]];
      EscapeCharMeans(s[0], EscapeChar(s[0]));
      ConcatCons(unit, rest);
      units := [unit] + rest;
    }
  }

  /** A text unescapes, and to `v`, exactly if it spells `v` unit by unit. */
  lemma UnescapedExactly(s: string, v: string)
    ensures NoDangling(s) && Unescaped(s) == v <==> exists units :: Concat(units) == s && Spells(units, v)
  {
    if NoDangling(s) {
      var units := Units(s);
      assert Spells(units, Unescaped(s));
    }
    forall units | Concat(units) == s && Spells(units, v) ensures NoDangling(s) && Unescaped(s) == v {
      UnescapedUnits(units, v);
    }
  }

  lemma {:induction false} Units(s: string) returns (units: seq<string>)
    requires NoDangling(s)
    ensures Concat(units) == s && Spells(units, Unescaped(s))
    decreases |s|
  {
    hide UnescapeChar, StandsFor;
    if s == "" {
      units := [];
    } else {
      var n := if s[0] == '\\' then 2 else 1;
      UnescapedHead(s);
      var rest := Units(s[n..]);
      if n == 2 {
        UnescapeCharMeans(s[1], UnescapeChar(s[1]));
      }
      ConcatCons(s[..n], rest);
      units := [s[..n]] + rest;
    }
  }

  lemma {:induction false} UnescapedUnits(units: seq<string>, v: string)
    requires Spells(units, v)
    ensures NoDangling(Concat(units)) && Unescaped(Concat(units)) == v
  {
    hide UnescapeChar, StandsFor;
    if units == [] {
    } else {
      var unit, rest := units[0], Concat(units[1..]);
      UnescapedUnits(units[1..], v[1..]);
      var s := Concat(units);
      assert s == unit + rest && s[|unit|..] == rest && v == [v[0]] + v[1..];
      if |unit| == 2 {
        UnescapeCharMeans(unit[1], v[0]);
      }
    }
  }
}
