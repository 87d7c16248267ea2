/** The `QString` / `QStringList` operations `MainWindow::parseResult` relies
    on, over `seq<char>`: `indexOf`, `split`, `startsWith`, `contains`,
    `left`, and the three forms of `replace` it calls. */
module QtStrings {

  /** `QString::indexOf(c)`: the first index of `c`, or -1. */
  function IndexOf(s: string, c: char): (r: int)
    ensures -1 <= r < |s|
    ensures r == -1 <==> c !in s
    ensures r >= 0 ==> s[r] == c && c !in s[..r]
  {
    if s == [] then -1
    else if s[0] == c then 0
    else
      var k := IndexOf(s[1..], c);
      assert s == [s[0]] + s[1..];
      if k == -1 then -1
      else
        assert s[..k + 1] == [s[0]] + s[1..][..k];
        k + 1
  }

  /** `QString::split(sep)`, keeping empty parts. */
  function Split(s: string, sep: char): (parts: seq<string>)
    ensures |parts| >= 1
    ensures forall i :: 0 <= i < |parts| ==> sep !in parts[i]
    decreases |s|
  {
    var k := IndexOf(s, sep);
    if k == -1 then [s] else [s[..k]] + Split(s[k + 1..], sep)
  }

  /** `QStringList::join(sep)`, the inverse of `Split`. */
  function Join(parts: seq<string>, sep: char): string
  {
    if parts == [] then ""
    else if |parts| == 1 then parts[0]
    else parts[0] + [sep] + Join(parts[1..], sep)
  }

  /** Splitting loses nothing: joining the parts back gives the text. */
  lemma {:induction false} JoinSplit(s: string, sep: char)
    ensures Join(Split(s, sep), sep) == s
    decreases |s|
  {
    var k := IndexOf(s, sep);
    if k != -1 {
      var head, rest := s[..k], s[k + 1..];
      var tail := Split(rest, sep);
      JoinSplit(rest, sep);
      calc {
        Join(Split(s, sep), sep);
        { assert Split(s, sep) == [head] + tail; }
        Join([head] + tail, sep);
        { assert |[head] + tail| > 1 && ([head] + tail)[1..] == tail; }
        head + [sep] + Join(tail, sep);
        head + [sep] + rest;
        { assert s == s[..k] + [s[k]] + s[k + 1..]; }
        s;
      }
    }
  }

  /** A text comes back as a single part exactly when it holds no separator. */
  lemma {:induction false} SplitSingle(s: string, sep: char)
    ensures |Split(s, sep)| == 1 <==> sep !in s
  {
    var k := IndexOf(s, sep);
    if k != -1 {
      assert |Split(s, sep)| == 1 + |Split(s[k + 1..], sep)|;
    }
  }

  /** `QString::startsWith(p)` (case sensitive). */
  predicate StartsWith(s: string, p: string)
  {
    |p| <= |s| && s[..|p|] == p
  }

  /** `startsWith` is "`s` is `p` followed by some text". */
  lemma StartsWithAppend(s: string, p: string)
    ensures StartsWith(s, p) <==> exists t :: s == p + t
  {
    if StartsWith(s, p) {
      assert s == p + s[|p|..];
    }
  }

  /** `QString::contains(p)`: `p` occurs somewhere in `s`. */
  predicate Contains(s: string, p: string)
    decreases |s|
  {
    StartsWith(s, p) || (s != [] && Contains(s[1..], p))
  }

  /** `p` occurs in `s` at offset `i`. */
  predicate OccursAt(s: string, p: string, i: int)
  {
    0 <= i && i + |p| <= |s| && s[i..i + |p|] == p
  }

  /** `Contains` is the occurrence of `p` at some offset. */
  lemma {:induction false} ContainsAt(s: string, p: string)
    ensures Contains(s, p) <==> exists i :: OccursAt(s, p, i)
    decreases |s|
  {
    if StartsWith(s, p) {
      assert OccursAt(s, p, 0);
    } else if s == [] {
      assert forall i :: !OccursAt(s, p, i);
    } else {
      ContainsAt(s[1..], p);
      if Contains(s[1..], p) {
        var i :| OccursAt(s[1..], p, i);
        assert s[i + 1..i + 1 + |p|] == s[1..][i..i + |p|];
        assert OccursAt(s, p, i + 1);
      }
      forall i | OccursAt(s, p, i) ensures OccursAt(s[1..], p, i - 1) {
        assert i != 0;
        assert s[1..][i - 1..i - 1 + |p|] == s[i..i + |p|];
      }
    }
  }

  /** `QString::left(1)`: the first character, or "" for an empty string. */
  function Left1(s: string): (r: string)
    ensures |r| == if s == [] then 0 else 1
    ensures StartsWith(s, r)
  {
    if s == [] then "" else s[..1]
  }

  /** `QString::replace(c, "")`: every `c` removed. */
  function Remove(s: string, c: char): (r: string)
    ensures c !in r && |r| <= |s|
    ensures forall x :: x in r ==> x in s
    ensures c !in s ==> r == s
  {
    if s == [] then ""
    else (if s[0] == c then "" else [s[0]]) + Remove(s[1..], c)
  }

  /** Removing distributes over concatenation: the characters that are kept
      keep their order. */
  lemma {:induction false} RemoveAppend(a: string, b: string, c: char)
    ensures Remove(a + b, c) == Remove(a, c) + Remove(b, c)
  {
    if a != [] {
      assert (a + b)[1..] == a[1..] + b;
      RemoveAppend(a[1..], b, c);
    } else {
      assert a + b == b;
    }
  }

  /** `QString::replace(QChar from, QChar to)`: character by character. */
  function ReplaceChar(s: string, from: char, to: char): (r: string)
    ensures |r| == |s|
    ensures forall i :: 0 <= i < |s| ==> r[i] == if s[i] == from then to else s[i]
  {
    if s == [] then ""
    else [if s[0] == from then to else s[0]] + ReplaceChar(s[1..], from, to)
  }

  /** `QString::replace(QString before, QString after)`: a left-to-right scan
      replacing non-overlapping occurrences. Every call in the model passes a
      non-empty `before`. */
  function ReplaceAll(s: string, before: string, after: string): string
    requires before != []
    decreases |s|
  {
    if s == [] then ""
    else if StartsWith(s, before) then after + ReplaceAll(s[|before|..], before, after)
    else [s[0]] + ReplaceAll(s[1..], before, after)
  }

  /** A text without the pattern is unchanged; with a shorter replacement the
      text shrinks exactly when it holds the pattern; no characters appear but
      those of the text and of the replacement. */
  lemma {:induction false} ReplaceAllBounds(s: string, before: string, after: string)
    requires before != []
    ensures var r := ReplaceAll(s, before, after);
      && (!Contains(s, before) ==> r == s)
      && (|after| < |before| ==> (Contains(s, before) <==> |r| < |s|))
      && (|after| <= |before| ==> |r| <= |s|)
      && (forall x :: x in r ==> x in s || x in after)
    decreases |s|
  {
    if s != [] {
      if StartsWith(s, before) {
        ReplaceAllBounds(s[|before|..], before, after);
        assert forall x :: x in s[|before|..] ==> x in s;
      } else {
        ReplaceAllBounds(s[1..], before, after);
        assert forall x :: x in s[1..] ==> x in s;
      }
    }
  }

  /** The parts of `parts` with `sep` between each two. */
  function JoinWith(parts: seq<string>, sep: string): string
  {
    if parts == [] then ""
    else if |parts| == 1 then parts[0]
    else parts[0] + (sep + JoinWith(parts[1..], sep))
  }

  /** No proper prefix of `p` is also a suffix of it, so two occurrences of
      `p` can never overlap (`"&amp"` is such a pattern). */
  predicate Unbordered(p: string)
  {
    forall k :: 0 < k < |p| ==> p[..k] != p[|p| - k..]
  }

  /** A pattern without a proper border cannot start inside a part free of
      it and end inside the occurrence that follows the part. */
  lemma NoStartInPart(p: string, before: string, rest: string)
    requires p != [] && Unbordered(before) && !StartsWith(p, before)
    ensures !StartsWith(p + (before + rest), before)
  {
    var s := p + (before + rest);
    if |p| >= |before| {
      assert s[..|before|] == p[..|before|];
    } else {
      var k := |before| - |p|;
      assert s[|p|..|before|] == before[..k];
    }
  }

  /** An occurrence at the start of the text is replaced, and the scan goes
      on after it. */
  lemma ReplaceAtStart(before: string, after: string, rest: string)
    requires before != []
    ensures ReplaceAll(before + rest, before, after) == after + ReplaceAll(rest, before, after)
  {
    assert StartsWith(before + rest, before);
    assert (before + rest)[|before|..] == rest;
  }

  /** A character where no occurrence starts is copied. */
  lemma ReplaceCopies(s: string, before: string, after: string)
    requires before != [] && s != [] && !StartsWith(s, before)
    ensures ReplaceAll(s, before, after) == [s[0]] + ReplaceAll(s[1..], before, after)
  {
  }

  /** One character of a part free of `before` is copied, and the scan of
      the rest of the part goes on as before. */
  lemma ReplacePartStep(p: string, u: string, before: string, after: string, tail: string)
    requires before != [] && p != [] && !StartsWith(p + u, before)
    requires ReplaceAll(p[1..] + u, before, after) == p[1..] + tail
    ensures ReplaceAll(p + u, before, after) == p + tail
  {
    ReplaceCopies(p + u, before, after);
    assert (p + u)[1..] == p[1..] + u;
    assert p + tail == [p[0]] + (p[1..] + tail);
  }

  /** The scan copies a part free of `before` and then replaces the
      occurrence that follows it. */
  lemma {:induction false} ReplaceAfterPart(p: string, before: string, after: string, rest: string)
    requires before != [] && Unbordered(before) && !Contains(p, before)
    ensures ReplaceAll(p + (before + rest), before, after) == p + (after + ReplaceAll(rest, before, after))
  {
    if p == [] {
      assert p + (before + rest) == before + rest;
      ReplaceAtStart(before, after, rest);
    } else {
      ReplaceAfterPart(p[1..], before, after, rest);
      NoStartInPart(p, before, rest);
      ReplacePartStep(p, before + rest, before, after, after + ReplaceAll(rest, before, after));
    }
  }

  /** For a pattern whose occurrences cannot overlap, replacing is exactly
      swapping the separator of a join: every occurrence of `before` becomes
      `after`, and the text between occurrences is kept, in order. */
  lemma {:induction false} ReplaceAllJoin(parts: seq<string>, before: string, after: string)
    requires before != [] && Unbordered(before)
    requires forall i :: 0 <= i < |parts| ==> !Contains(parts[i], before)
    ensures ReplaceAll(JoinWith(parts, before), before, after) == JoinWith(parts, after)
  {
    if |parts| == 1 {
      ReplaceAllBounds(parts[0], before, after);
    } else if |parts| > 1 {
      ReplaceAfterPart(parts[0], before, after, JoinWith(parts[1..], before));
      ReplaceAllJoin(parts[1..], before, after);
    }
  }

  /** The text between the occurrences of `before` that the left-to-right
      scan of `ReplaceAll` meets. */
  function Pieces(s: string, before: string): (parts: seq<string>)
    requires before != []
    ensures |parts| >= 1
    decreases |s|
  {
    if s == [] then [""]
    else if StartsWith(s, before) then [""] + Pieces(s[|before|..], before)
    else
      var r := Pieces(s[1..], before);
      [[s[0]] + r[0]] + r[1..]
  }

  /** An occurrence at the start of the text opens an empty first piece. */
  lemma PiecesAtStart(s: string, before: string, sep: string)
    requires before != [] && s != [] && StartsWith(s, before)
    ensures Pieces(s, before) == [""] + Pieces(s[|before|..], before)
    ensures JoinWith(Pieces(s, before), sep)
            == sep + JoinWith(Pieces(s[|before|..], before), sep)
  {
    var r := Pieces(s[|before|..], before);
    assert ([""] + r)[1..] == r;
  }

  /** A character where no occurrence starts joins the first piece of the
      rest of the text. */
  lemma PiecesCopy(s: string, before: string, sep: string)
    requires before != [] && s != [] && !StartsWith(s, before)
    ensures var r := Pieces(s[1..], before);
      && Pieces(s, before) == [[s[0]] + r[0]] + r[1..]
      && JoinWith(Pieces(s, before), sep) == [s[0]] + JoinWith(r, sep)
  {
    var r := Pieces(s[1..], before);
    var head := [s[0]] + r[0];
    if |r| > 1 {
      var x := sep + JoinWith(r[1..], sep);
      assert ([head] + r[1..])[1..] == r[1..];
      assert head + x == [s[0]] + (r[0] + x);
    }
  }

  /** Joined with `before`, the pieces give back the text. */
  lemma {:induction false} PiecesJoin(s: string, before: string)
    requires before != []
    ensures JoinWith(Pieces(s, before), before) == s
    decreases |s|
  {
    if s != [] {
      if StartsWith(s, before) {
        PiecesJoin(s[|before|..], before);
        PiecesAtStart(s, before, before);
        assert s == before + s[|before|..];
      } else {
        PiecesJoin(s[1..], before);
        PiecesCopy(s, before, before);
        assert s == [s[0]] + s[1..];
      }
    }
  }

  /** The first piece of a text that does not start with `before` is free of
      it when the first piece of the rest of the text is. */
  lemma PiecesHeadFree(s: string, before: string)
    requires before != [] && s != [] && !StartsWith(s, before)
    requires !Contains(Pieces(s[1..], before)[0], before)
    ensures !Contains(Pieces(s, before)[0], before)
  {
    var r := Pieces(s[1..], before);
    PiecesCopy(s, before, before);
    PiecesJoin(s[1..], before);
    var head := [s[0]] + r[0];
    assert head[1..] == r[0];
    if |r| > 1 {
      var x := before + JoinWith(r[1..], before);
      assert [s[0]] + (r[0] + x) == head + x;
      if |head| >= |before| {
        assert s[..|before|] == head[..|before|];
      }
    } else {
      assert head == s;
    }
  }

  /** No piece holds an occurrence of `before`. */
  lemma {:induction false} PiecesFree(s: string, before: string)
    requires before != []
    ensures forall i :: 0 <= i < |Pieces(s, before)| ==> !Contains(Pieces(s, before)[i], before)
    decreases |s|
  {
    if s != [] {
      if StartsWith(s, before) {
        PiecesFree(s[|before|..], before);
        PiecesAtStart(s, before, before);
      } else {
        PiecesFree(s[1..], before);
        PiecesHeadFree(s, before);
        PiecesCopy(s, before, before);
      }
    }
  }

  /** `ReplaceAll` puts `after` exactly where the pieces of the text meet:
      every occurrence the scan meets is replaced, and the text between them
      is kept, in order. */
  lemma {:induction false} ReplaceAllPieces(s: string, before: string, after: string)
    requires before != []
    ensures ReplaceAll(s, before, after) == JoinWith(Pieces(s, before), after)
    decreases |s|
  {
    if s != [] {
      if StartsWith(s, before) {
        ReplaceAllPieces(s[|before|..], before, after);
        PiecesAtStart(s, before, after);
      } else {
        ReplaceAllPieces(s[1..], before, after);
        PiecesCopy(s, before, after);
      }
    }
  }

  /** `"&amp"` has no proper border. */
  lemma AmpUnbordered()
    ensures Unbordered("&amp")
  {
    forall k | 0 < k < 4 ensures "&amp"[..k] != "&amp"[4 - k..] {
      assert "&amp"[..k][0] == '&' != "&amp"[4 - k..][0];
    }
  }

  /** The result of a replacement may contain `before` again: the scan does
      not look back at text it has produced. */
  lemma ReplaceCanRebuild()
    ensures ReplaceAll("&ampamp", "&amp", "&") == "&amp"
  {
    assert StartsWith("&ampamp", "&amp");
    assert "&ampamp"[4..] == "amp";
    assert !StartsWith("amp", "&amp") && "amp"[1..] == "mp";
    assert !StartsWith("mp", "&amp") && "mp"[1..] == "p";
    assert !StartsWith("p", "&amp") && "p"[1..] == "";
  }
}
