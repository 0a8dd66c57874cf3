/**
 * The high-score table and its text file (utils/score_manager.py): one
 * `name:score` line per player. Opening, reading and writing the file are
 * not modelled; loading takes the file's contents (or nothing, when the file
 * is missing or unreadable) and saving returns the text that is written.
 */
module ScoreManager {
  import opened Wrappers
  import opened Text

  /**
   * A Python dict from player names to scores: the scores, and the names in
   * insertion order (the order in which the dict is iterated and saved).
   */
  datatype Table = Table(order: seq<string>, scores: map<string, int>)
  {
    /** Every name is listed once, and exactly the names with a score are listed. */
    predicate Valid() {
      && (forall i, j :: 0 <= i < j < |order| ==> order[i] != order[j])
      && (forall n :: n in scores ==> n in order)
      && (forall k :: 0 <= k < |order| ==> order[k] in scores)
    }
  }

  const Empty: Table := Table([], map[])

  /** `t.get(name)`. */
  function Get(t: Table, name: string): Option<int> {
    if name in t.scores then Some(t.scores[name]) else None
  }

  /** `t[name] = score`: an existing name keeps its place, a new one goes last. */
  function Put(t: Table, name: string, score: int): (r: Table)
    ensures Get(r, name) == Some(score)
    ensures forall n :: n != name ==> Get(r, n) == Get(t, n)
    ensures name in t.scores ==> r.order == t.order
    ensures name !in t.scores ==> r.order == t.order + [name]
    ensures t.Valid() ==> r.Valid()
  {
    Table(if name in t.scores then t.order else t.order + [name], t.scores[name := score])
  }

  /**
   * One line of the file, as `load_scores` treats it: strip it, split it at
   * ':' into exactly two parts, and convert the second with `int()`. `None`
   * is a line the ValueError handler skips.
   */
  function ParseLine(line: string): (r: Option<(string, int)>)
    ensures Count(Strip(line), ':') != 1 ==> r.None?
    ensures r.Some? ==> ':' !in r.value.0
    ensures r.Some? ==> exists digits :: Strip(line) == r.value.0 + [':'] + digits && ParseInt(digits) == Some(r.value.1)
  {
    var parts := SplitPair(Strip(line), ':');
    if parts.None? then None
    else
      var v := ParseInt(parts.value.1);
      if v.None? then None else Some((parts.value.0, v.value))
  }

  /**
   * Every line `load_scores` can read is read: when the stripped text is a
   * colon-free name, one colon and text `int()` accepts, the line gives that
   * name and number.
   */
  lemma ParseLineAccepts(line: string, name: string, digits: string)
    requires Strip(line) == name + [':'] + digits && ':' !in name && ':' !in digits
    requires ParseInt(digits).Some?
    ensures ParseLine(line) == Some((name, ParseInt(digits).value))
  {
    SplitPairOf(name, digits, ':');
  }

  /** A line with one colon whose score part `int()` refuses is skipped. */
  lemma ParseLineRefuses(line: string, name: string, digits: string)
    requires Strip(line) == name + [':'] + digits && ':' !in name && ':' !in digits
    requires ParseInt(digits).None?
    ensures ParseLine(line) == None
  {
    SplitPairOf(name, digits, ':');
  }

  /**
   * A score behind a separator character (U+001C to U+001F) is refused by
   * `int()`: `strip()` keeps it inside the line, so the whole line is skipped.
   */
  lemma SeparatorLineSkipped(name: string, c: char, digits: string)
    requires |name| > 0 && ':' !in name && !IsSpace(name[0])
    requires 0x1C <= c as int <= 0x1F
    requires |digits| > 0 && AllDigits(digits)
    ensures ParseLine(name + [':'] + ([c] + digits) + "\n") == None
  {
    var after := [c] + digits;
    var text := name + [':'] + after;
    assert text[0] == name[0] && text[|text| - 1] == digits[|digits| - 1];
    StripNewline(text);
    assert ':' !in after;
    SeparatorRefused(after);
    ParseLineRefuses(text + "\n", name, after);
  }

  /** Feed one line into the table being loaded. */
  function LoadLine(t: Table, line: string): Table {
    var p := ParseLine(line);
    if p.None? then t else Put(t, p.value.0, p.value.1)
  }

  /** The loop of `load_scores` over `lines`, starting from table `t`. */
  function LoadLines(t: Table, lines: seq<string>): (r: Table)
    ensures t.Valid() ==> r.Valid()
    decreases |lines|
  {
    if |lines| == 0 then t else LoadLines(LoadLine(t, lines[0]), lines[1..])
  }

  /** `load_scores()`: `None` stands for a missing or unreadable file. */
  function Load(file: Option<string>): (r: Table)
    ensures file.None? ==> r == Empty
    ensures r.Valid()
  {
    if file.None? then Empty else LoadLines(Empty, ReadLines(Translate(file.value)))
  }

  /** The line `save_scores` writes for one player. */
  function FormatLine(name: string, score: int): string {
    name + ":" + FormatInt(score) + "\n"
  }

  /** The lines `save_scores` writes, in dict order. */
  function Lines(t: Table): (r: seq<string>)
    requires t.Valid()
    ensures |r| == |t.order|
  {
    seq(|t.order|, k requires 0 <= k < |t.order| => FormatLine(t.order[k], t.scores[t.order[k]]))
  }

  function Concat(lines: seq<string>): string
    decreases |lines|
  {
    if |lines| == 0 then "" else lines[0] + Concat(lines[1..])
  }

  /** `save_scores(t)`: the text written to the file. */
  function Save(t: Table): string
    requires t.Valid()
  {
    Concat(Lines(t))
  }

  /** A name that survives the trip through the file. */
  predicate Storable(name: string) {
    && ':' !in name && '\n' !in name && '\r' !in name
    && (|name| > 0 ==> !IsSpace(name[0]))
  }

  /** Loading processes the lines one after another: appending a line feeds it to the table loaded so far. */
  lemma {:induction false} LoadAppend(t: Table, lines: seq<string>, line: string)
    ensures LoadLines(t, lines + [line]) == LoadLine(LoadLines(t, lines), line)
    decreases |lines|
  {
    if |lines| == 0 {
      assert lines + [line] == [line];
    } else {
      assert (lines + [line])[1..] == lines[1..] + [line];
      LoadAppend(LoadLine(t, lines[0]), lines[1..], line);
    }
  }

  /** Loading `a + b` is loading `b` into the table loaded from `a`. */
  lemma {:induction false} LoadSplit(t: Table, a: seq<string>, b: seq<string>)
    ensures LoadLines(t, a + b) == LoadLines(LoadLines(t, a), b)
    decreases |a|
  {
    if |a| == 0 {
      assert a + b == b;
    } else {
      assert (a + b)[1..] == a[1..] + b;
      LoadSplit(LoadLine(t, a[0]), a[1..], b);
    }
  }

  /** A malformed line is skipped without stopping the lines after it. */
  lemma SkipMalformed(t: Table, before: seq<string>, bad: string, after: seq<string>)
    requires ParseLine(bad).None?
    ensures LoadLines(t, before + [bad] + after) == LoadLines(t, before + after)
  {
    LoadSplit(t, before + [bad], after);
    LoadSplit(t, before, after);
    LoadAppend(t, before, bad);
  }

  /** A later well-formed line for a name overwrites whatever the earlier lines stored for it. */
  lemma LaterLineWins(t: Table, lines: seq<string>, line: string)
    requires ParseLine(line).Some?
    ensures Get(LoadLines(t, lines + [line]), ParseLine(line).value.0) == Some(ParseLine(line).value.1)
  {
    LoadAppend(t, lines, line);
  }

  /** One newline-terminated record with no other line break in it. */
  predicate Record(line: string) {
    && |line| > 0 && line[|line| - 1] == '\n'
    && '\n' !in line[..|line| - 1] && '\r' !in line
  }

  /** Records are read back one by one. */
  lemma {:induction false} ReadConcat(lines: seq<string>)
    requires forall k :: 0 <= k < |lines| ==> Record(lines[k])
    ensures ReadLines(Concat(lines)) == lines
    decreases |lines|
  {
    if |lines| > 0 {
      var l := lines[0];
      var body := l[..|l| - 1];
      assert l == body + "\n";
      ReadConcat(lines[1..]);
      ReadLinesCons(body, Concat(lines[1..]));
    }
  }

  /** None of the lines contains a carriage return. */
  lemma {:induction false} ConcatPlain(lines: seq<string>)
    requires forall k :: 0 <= k < |lines| ==> Record(lines[k])
    ensures '\r' !in Concat(lines)
    decreases |lines|
  {
    if |lines| > 0 {
      ConcatPlain(lines[1..]);
    }
  }

  /** The saved line of a storable name parses back to the name and score. */
  lemma ParseFormatLine(name: string, score: int)
    requires Storable(name)
    ensures ParseLine(FormatLine(name, score)) == Some((name, score))
  {
    var digits := FormatInt(score);
    var body := name + [':'] + digits;
    assert FormatLine(name, score) == body + "\n";
    assert body[0] == (if |name| > 0 then name[0] else ':');
    assert body[|body| - 1] == digits[|digits| - 1];
    StripNewline(body);
    SplitPairOf(name, digits, ':');
    ParseFormat(score);
  }

  /** The table made of the first `k` names of `t`. */
  function Prefix(t: Table, k: nat): Table
    requires t.Valid() && k <= |t.order|
  {
    Table(t.order[..k], map n | n in t.order[..k] :: t.scores[n])
  }

  /** Adding the next saved entry to a prefix gives the next prefix. */
  lemma PrefixStep(t: Table, k: nat)
    requires t.Valid() && 0 < k <= |t.order|
    ensures Put(Prefix(t, k - 1), t.order[k - 1], t.scores[t.order[k - 1]]) == Prefix(t, k)
  {
    var name := t.order[k - 1];
    var before := Prefix(t, k - 1);
    assert name !in t.order[..k - 1];
    assert name !in before.scores;
    assert t.order[..k] == t.order[..k - 1] + [name];
    var after := Put(before, name, t.scores[name]);
    assert after.order == Prefix(t, k).order;
    assert after.scores.Keys == Prefix(t, k).scores.Keys;
    assert after.scores == Prefix(t, k).scores;
  }

  /** Loading the first `k` saved lines yields the first `k` entries. */
  lemma {:induction false} LoadPrefix(t: Table, k: nat)
    requires t.Valid() && k <= |t.order|
    requires forall j :: 0 <= j < |t.order| ==> Storable(t.order[j])
    ensures LoadLines(Empty, Lines(t)[..k]) == Prefix(t, k)
    decreases k
  {
    if k == 0 {
      assert Lines(t)[..0] == [];
      assert Prefix(t, 0).scores == map[];
    } else {
      LoadPrefix(t, k - 1);
      LoadNext(t, k);
    }
  }

  /** One more saved line extends the loaded prefix by the next entry. */
  lemma LoadNext(t: Table, k: nat)
    requires t.Valid() && 0 < k <= |t.order|
    requires Storable(t.order[k - 1])
    requires LoadLines(Empty, Lines(t)[..k - 1]) == Prefix(t, k - 1)
    ensures LoadLines(Empty, Lines(t)[..k]) == Prefix(t, k)
  {
    var lines := Lines(t);
    var name := t.order[k - 1];
    var score := t.scores[name];
    var line := lines[k - 1];
    var before := Prefix(t, k - 1);
    TakeOneMore(lines, k);
    LoadAppend(Empty, lines[..k - 1], line);
    LineLoads(before, name, score, line);
    PrefixStep(t, k);
  }

  /** The first `k` elements are the first `k - 1` and one more. */
  lemma TakeOneMore<T>(s: seq<T>, k: nat)
    requires 0 < k <= |s|
    ensures s[..k] == s[..k - 1] + [s[k - 1]]
  {
  }

  /** The saved line of a storable name puts its score into the table. */
  lemma LineLoads(t: Table, name: string, score: int, line: string)
    requires Storable(name) && line == FormatLine(name, score)
    ensures LoadLine(t, line) == Put(t, name, score)
  {
    ParseFormatLine(name, score);
  }

  /**
   * Each saved line is one newline-terminated record without other line
   * breaks, and it parses back to the name and score of its position in the table.
   */
  lemma LinesShape(t: Table)
    requires t.Valid()
    requires forall j :: 0 <= j < |t.order| ==> Storable(t.order[j])
    ensures forall k :: 0 <= k < |Lines(t)| ==> Record(Lines(t)[k])
    ensures forall k :: 0 <= k < |Lines(t)| ==> ParseLine(Lines(t)[k]) == Some((t.order[k], t.scores[t.order[k]]))
  {
    LinesParse(t);
    LinesRecords(t);
  }

  /** Each saved line parses back to the entry it was written from. */
  lemma LinesParse(t: Table)
    requires t.Valid()
    requires forall j :: 0 <= j < |t.order| ==> Storable(t.order[j])
    ensures forall k :: 0 <= k < |Lines(t)| ==> ParseLine(Lines(t)[k]) == Some((t.order[k], t.scores[t.order[k]]))
  {
    var lines := Lines(t);
    forall k | 0 <= k < |lines|
      ensures ParseLine(lines[k]) == Some((t.order[k], t.scores[t.order[k]]))
    {
      ParseFormatLine(t.order[k], t.scores[t.order[k]]);
    }
  }

  /** Each saved line is one newline-terminated record. */
  lemma LinesRecords(t: Table)
    requires t.Valid()
    requires forall j :: 0 <= j < |t.order| ==> Storable(t.order[j])
    ensures forall k :: 0 <= k < |Lines(t)| ==> Record(Lines(t)[k])
  {
    var lines := Lines(t);
    forall k | 0 <= k < |lines|
      ensures Record(lines[k])
    {
      var name := t.order[k];
      var digits := FormatInt(t.scores[name]);
      assert lines[k] == name + [':'] + digits + ['\n'];
      assert lines[k][..|lines[k]| - 1] == name + [':'] + digits;
    }
  }

  /** The prefix of all names is the whole table. */
  lemma PrefixFull(t: Table)
    requires t.Valid()
    ensures Prefix(t, |t.order|) == t
  {
    assert t.order[..|t.order|] == t.order;
    var p := Prefix(t, |t.order|);
    assert p.scores.Keys == t.scores.Keys;
    assert p.scores == t.scores;
  }

  /** Loading all saved lines rebuilds the table. */
  lemma LoadAll(t: Table)
    requires t.Valid()
    requires forall j :: 0 <= j < |t.order| ==> Storable(t.order[j])
    ensures LoadLines(Empty, Lines(t)) == t
  {
    var lines := Lines(t);
    var n := |t.order|;
    assert lines[..n] == lines;
    LoadPrefix(t, n);
    assert LoadLines(Empty, lines) == Prefix(t, n);
    PrefixFull(t);
  }

  /**
   * Round trip: a table whose names contain no ':' or line break and do not
   * start with whitespace is loaded back exactly, order included, from the
   * text it was saved as.
   */
  lemma RoundTrip(t: Table)
    requires t.Valid()
    requires forall j :: 0 <= j < |t.order| ==> Storable(t.order[j])
    ensures Load(Some(Save(t))) == t
  {
    var lines := Lines(t);
    var text := Save(t);
    LinesShape(t);
    ConcatPlain(lines);
    TranslatePlain(text);
    ReadConcat(lines);
    assert ReadLines(Translate(text)) == lines;
    assert Load(Some(text)) == LoadLines(Empty, lines);
    LoadAll(t);
  }

  /** The table a session starts with: the loaded one, with the player added at 0 if absent. */
  function Enroll(t: Table, name: string): (r: Table)
    ensures Get(r, name).Some?
    ensures name in t.scores ==> r == t
    ensures name !in t.scores ==> Get(r, name) == Some(0)
    ensures forall n :: n != name ==> Get(r, n) == Get(t, n)
    ensures t.Valid() ==> r.Valid()
  {
    if name in t.scores then t else Put(t, name, 0)
  }
}
