/** The artist-list parser `MainWindow::parseResult` and the first-letter
    tally of `MainWindow::createPieGraph` (Qt/mainwindow.cpp), over the
    `Artist` record of Qt/artist.cpp. */
module Artists {
  import opened QtStrings

  /** `Artist(QString link, QString name)`; `getLink`/`getName` are the fields. */
  datatype Artist = Artist(link: string, name: string)

  /** The prefix given to links that are not already absolute. */
  const WIKIPEDIA: string := "https://en.wikipedia.org"

  lemma WikipediaChars()
    ensures '"' !in WIKIPEDIA && ' ' !in WIKIPEDIA
    ensures |WIKIPEDIA| >= 4 && WIKIPEDIA[..4] == "http"
  {
  }

  /** The link of an artist, from the text before the first space with its
      quotes removed: a non-empty relative link is made absolute, "" stays "". */
  function AbsoluteLink(raw: string): (link: string)
    ensures link == "" <==> raw == ""
    ensures link == WIKIPEDIA + raw <==> raw != "" && !StartsWith(raw, "http")
    ensures link == raw || link == WIKIPEDIA + raw
    ensures link != "" ==> StartsWith(link, "http")
    ensures forall x :: x in link ==> x in raw || x in WIKIPEDIA
  {
    WikipediaChars();
    if !StartsWith(raw, "http") && raw != "" then
      assert (WIKIPEDIA + raw)[..4] == WIKIPEDIA[..4];
      WIKIPEDIA + raw
    else raw
  }

  /** The name of an artist, from the text after the first space: `_` becomes
      a space and `&amp` becomes `&`. */
  function DisplayName(rest: string): (name: string)
    ensures '_' !in name && |name| <= |rest|
    ensures var spaced := ReplaceChar(rest, '_', ' ');
      !Contains(spaced, "&amp") ==> name == spaced
  {
    var spaced := ReplaceChar(rest, '_', ' ');
    assert '_' !in spaced by {
      forall i | 0 <= i < |spaced| ensures spaced[i] != '_' { }
    }
    ReplaceAllBounds(spaced, "&amp", "&");
    ReplaceAll(spaced, "&amp", "&")
  }

  /** Each `&amp` of the text after the space, once `_` is a space, becomes
      `&`: the name is that text with its pieces between `&amp`s joined by
      `&` instead. */
  lemma DisplayNameAmp(rest: string)
    ensures var spaced := ReplaceChar(rest, '_', ' ');
      var parts := Pieces(spaced, "&amp");
      JoinWith(parts, "&amp") == spaced && DisplayName(rest) == JoinWith(parts, "&")
  {
    var spaced := ReplaceChar(rest, '_', ' ');
    PiecesJoin(spaced, "&amp");
    ReplaceAllPieces(spaced, "&amp", "&");
  }

  /** The artist `parseResult` builds from a line holding a space: the link
      holds neither quotes nor spaces, the name no underscores. */
  function ParseLine(line: string): (a: Artist)
    requires ' ' in line
    ensures '"' !in a.link && ' ' !in a.link && '_' !in a.name
  {
    var k := IndexOf(line, ' ');
    WikipediaChars();
    Artist(AbsoluteLink(Remove(line[..k], '"')), DisplayName(line[k + 1..]))
  }

  lemma ParseLineOf(line: string, link: string, name: string)
    requires ' ' in line
    requires link == AbsoluteLink(Remove(line[..IndexOf(line, ' ')], '"'))
    requires name == DisplayName(line[IndexOf(line, ' ') + 1..])
    ensures ParseLine(line) == Artist(link, name)
  {
  }

  /** The lines that hold a space, in their original order. */
  function SpacedLines(lines: seq<string>): (r: seq<string>)
    ensures |r| <= |lines|
    ensures forall j :: 0 <= j < |r| ==> ' ' in r[j]
    ensures forall l :: l in r <==> l in lines && ' ' in l
  {
    if lines == [] then []
    else
      var init, last := lines[..|lines| - 1], lines[|lines| - 1];
      assert lines == init + [last];
      SpacedLines(init) + (if ' ' in last then [last] else [])
  }

  /** Selecting the spaced lines of a concatenation selects those of each
      part, in order. */
  lemma {:induction false} SpacedLinesAppend(a: seq<string>, b: seq<string>)
    ensures SpacedLines(a + b) == SpacedLines(a) + SpacedLines(b)
  {
    if b == [] {
      assert a + b == a;
    } else {
      assert (a + b)[..|a + b| - 1] == a + b[..|b| - 1];
      SpacedLinesAppend(a, b[..|b| - 1]);
    }
  }

  /** The artists of a sequence of lines: one per line holding a space,
      parsed by `ParseLine`, in line order. */
  function ParseAll(lines: seq<string>): (artists: seq<Artist>)
    ensures |artists| <= |lines|
  {
    if lines == [] then []
    else
      var init, last := lines[..|lines| - 1], lines[|lines| - 1];
      ParseAll(init) + (if ' ' in last then [ParseLine(last)] else [])
  }

  /** The j-th artist is parsed from the j-th line holding a space, and there
      is no other artist. */
  lemma {:induction false} ParseAllSpaced(lines: seq<string>)
    ensures var spaced := SpacedLines(lines);
      |ParseAll(lines)| == |spaced| &&
      forall j :: 0 <= j < |spaced| ==> ParseAll(lines)[j] == ParseLine(spaced[j])
  {
    if lines != [] {
      ParseAllSpaced(lines[..|lines| - 1]);
    }
  }

  /** One more line adds its artist at the end, when it holds a space. */
  lemma ParseAllStep(lines: seq<string>, i: nat)
    requires i < |lines|
    ensures ParseAll(lines[..i + 1]) ==
            ParseAll(lines[..i]) + if ' ' in lines[i] then [ParseLine(lines[i])] else []
  {
    assert lines[..i + 1][..i] == lines[..i];
  }

  /** The artists of a concatenation of lines are those of each part, in
      order. */
  lemma {:induction false} ParseAllAppend(a: seq<string>, b: seq<string>)
    ensures ParseAll(a + b) == ParseAll(a) + ParseAll(b)
  {
    if b == [] {
      assert a + b == a;
    } else {
      assert (a + b)[..|a + b| - 1] == a + b[..|b| - 1];
      ParseAllAppend(a, b[..|b| - 1]);
    }
  }

  /** `MainWindow::parseResult`: one artist for each line of the text that
      holds a space, in line order. */
  method ParseResult(downloadedFile: string) returns (artists: seq<Artist>)
    ensures artists == ParseAll(Split(downloadedFile, '\n'))
  {
    var lines := Split(downloadedFile, '\n');
    artists := [];
    for i := 0 to |lines|
      invariant artists == ParseAll(lines[..i])
    {
      var line := lines[i];
      ParseAllStep(lines, i);
      var separatorIndex := IndexOf(line, ' ');
      if separatorIndex == -1 {
        continue;
      }
      ghost var raw, rest := Remove(line[..separatorIndex], '"'), line[separatorIndex + 1..];
      var link := Remove(line[..separatorIndex], '"');
      if !StartsWith(link, "http") && link != "" {
        link := WIKIPEDIA + link;
      }
      assert link == AbsoluteLink(raw);
      var artistName := ReplaceChar(line[separatorIndex + 1..], '_', ' ');
      if Contains(artistName, "&amp") {
        artistName := ReplaceAll(artistName, "&amp", "&");
      }
      assert artistName == DisplayName(rest);
      ParseLineOf(line, link, artistName);
      artists := artists + [Artist(link, artistName)];
    }
    assert lines[..|lines|] == lines;
  }

  /** How many of the artists have a name whose `left(1)` is `key`. */
  function CountFirst(artists: seq<Artist>, key: string): (n: nat)
    ensures n <= |artists|
  {
    if artists == [] then 0
    else
      var init, last := artists[..|artists| - 1], artists[|artists| - 1];
      CountFirst(init, key) + (if Left1(last.name) == key then 1 else 0)
  }

  /** A key is counted exactly when some artist's name starts with it. */
  lemma {:induction false} CountFirstPositive(artists: seq<Artist>, key: string)
    ensures CountFirst(artists, key) > 0 <==>
      exists j :: 0 <= j < |artists| && Left1(artists[j].name) == key
  {
    if artists != [] {
      var init := artists[..|artists| - 1];
      CountFirstPositive(init, key);
      assert forall j :: 0 <= j < |init| ==> init[j] == artists[j];
    }
  }

  lemma CountFirstStep(artists: seq<Artist>, i: nat)
    requires i < |artists|
    ensures forall key ::
              CountFirst(artists[..i + 1], key) ==
              CountFirst(artists[..i], key) + if key == Left1(artists[i].name) then 1 else 0
  {
    assert artists[..i + 1][..i] == artists[..i];
  }

  /** The sum of the counts of a map. */
  ghost function SumValues(m: map<string, nat>): nat
    decreases |m|
  {
    if m == map[] then 0
    else
      var k :| k in m;
      assert |m.Keys - {k}| == |m.Keys| - 1;
      m[k] + SumValues(m - {k})
  }

  /** The sum does not depend on the key taken out first. */
  lemma {:induction false} SumValuesRemove(m: map<string, nat>, k: string)
    requires k in m
    ensures SumValues(m) == m[k] + SumValues(m - {k})
    decreases |m|
  {
    var j :| j in m && SumValues(m) == m[j] + SumValues(m - {j});
    if j != k {
      assert |m.Keys - {j}| == |m.Keys| - 1;
      assert |m.Keys - {k}| == |m.Keys| - 1;
      SumValuesRemove(m - {j}, k);
      SumValuesRemove(m - {k}, j);
      assert m - {j} - {k} == m - {k} - {j};
    }
  }

  /** Setting one key moves the sum by the change in its count. */
  lemma SumValuesUpdate(m: map<string, nat>, k: string, v: nat)
    ensures SumValues(m[k := v]) == SumValues(m) - (if k in m then m[k] else 0) + v
  {
    SumValuesRemove(m[k := v], k);
    assert m[k := v] - {k} == m - {k};
    if k in m {
      SumValuesRemove(m, k);
    } else {
      assert m - {k} == m;
    }
  }

  /** The counts of `m` are those of the first `i` artists. */
  ghost predicate TallyOf(m: map<string, nat>, artists: seq<Artist>, i: nat)
    requires i <= |artists|
  {
    && (forall key :: key in m <==> CountFirst(artists[..i], key) > 0)
    && (forall key :: key in m ==> m[key] == CountFirst(artists[..i], key))
    && SumValues(m) == i
  }

  /** One turn of the tally loop: counting artist `i` in. */
  lemma TallyStep(m: map<string, nat>, artists: seq<Artist>, i: nat)
    requires i < |artists| && TallyOf(m, artists, i)
    ensures var firstChar := Left1(artists[i].name);
      TallyOf(m[firstChar := if firstChar in m then m[firstChar] + 1 else 1], artists, i + 1)
  {
    var firstChar := Left1(artists[i].name);
    SumValuesUpdate(m, firstChar, if firstChar in m then m[firstChar] + 1 else 1);
    CountFirstStep(artists, i);
  }

  /** The first-character loop of `MainWindow::createPieGraph`: the keys are
      the `left(1)` of the artists' names, each counted once per artist whose
      name starts with it, so the counts add up to the number of artists. */
  method TallyFirstChars(artists: seq<Artist>) returns (artistCount: map<string, nat>)
    ensures forall key :: key in artistCount <==>
      exists j :: 0 <= j < |artists| && Left1(artists[j].name) == key
    ensures forall key :: key in artistCount ==> artistCount[key] == CountFirst(artists, key)
    ensures SumValues(artistCount) == |artists|
  {
    artistCount := map[];
    for i := 0 to |artists|
      invariant TallyOf(artistCount, artists, i)
    {
      var firstChar := Left1(artists[i].name);
      TallyStep(artistCount, artists, i);
      if firstChar !in artistCount {
        artistCount := artistCount[firstChar := 1];
      } else {
        artistCount := artistCount[firstChar := artistCount[firstChar] + 1];
      }
    }
    assert artists[..|artists|] == artists;
    forall key {
      CountFirstPositive(artists, key);
    }
  }
}
