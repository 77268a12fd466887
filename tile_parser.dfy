/**
 * The post-read part of `parse_input_file`: cleaning the lines, reading
 * landscape rows up to the first line opening with `{`, the tile-count line,
 * the `color:count` visibility lines, and zero-padding the landscape to a
 * rectangle. Integer conversion (`int(...)`) is a parameter `toInt`.
 */
module TileParser {
  import opened Wrappers
  import opened TileProblem

  /** Python's `str.isspace` for one character (also what `\s` matches). */
  predicate IsSpace(c: char) {
    || c == ' '
    || '\U{9}' <= c <= '\U{d}'
    || '\U{1c}' <= c <= '\U{1f}'
    || c == '\U{85}' || c == '\U{a0}' || c == '\U{1680}'
    || '\U{2000}' <= c <= '\U{200a}'
    || c == '\U{2028}' || c == '\U{2029}' || c == '\U{202f}' || c == '\U{205f}' || c == '\U{3000}'
  }

  predicate IsBrace(c: char) {
    c == '{' || c == '}'
  }

  /** Drop the leading characters satisfying `drop`. */
  function StripStart(s: string, drop: char -> bool): (r: string)
    ensures |r| <= |s| && r == s[|s| - |r|..]
    ensures forall k :: 0 <= k < |s| - |r| ==> drop(s[k])
    ensures r != [] ==> !drop(r[0])
  {
    if s != [] && drop(s[0]) then StripStart(s[1..], drop) else s
  }

  /** Drop the trailing characters satisfying `drop`. */
  function StripEnd(s: string, drop: char -> bool): (r: string)
    ensures |r| <= |s| && r == s[..|r|]
    ensures forall k :: |r| <= k < |s| ==> drop(s[k])
    ensures r != [] ==> !drop(r[|r| - 1])
  {
    if s != [] && drop(s[|s| - 1]) then StripEnd(s[..|s| - 1], drop) else s
  }

  /** `s.strip(chars)`: both ends. */
  function StripBy(s: string, drop: char -> bool): (r: string)
    ensures r != [] ==> !drop(r[0]) && !drop(r[|r| - 1])
  {
    StripEnd(StripStart(s, drop), drop)
  }

  /** `s.strip()`. */
  function Strip(s: string): string {
    StripBy(s, IsSpace)
  }

  /** Stripping twice is stripping once. */
  lemma StripIdempotent(s: string, drop: char -> bool)
    ensures StripBy(StripBy(s, drop), drop) == StripBy(s, drop)
  {
    var r := StripBy(s, drop);
    if r != [] {
      assert StripStart(r, drop) == r;
      assert StripEnd(r, drop) == r;
    }
  }

  predicate StartsWith(s: string, c: char) {
    s != [] && s[0] == c
  }

  /**
   * `[line.strip() for line in f if line.strip() and not line.startswith('#')]`:
   * the comment test looks at the unstripped line.
   */
  function CleanLines(raw: seq<string>): (lines: seq<string>)
    ensures |lines| <= |raw|
    ensures forall k :: 0 <= k < |lines| ==> lines[k] != [] && Strip(lines[k]) == lines[k]
  {
    if raw == [] then []
    else
      var rest := CleanLines(raw[1..]);
      var line := Strip(raw[0]);
      if line != [] && !StartsWith(raw[0], '#') then
        StripIdempotent(raw[0], IsSpace);
        [line] + rest
      else rest
  }

  /** Cleaning works line by line: cleaning two blocks is cleaning each. */
  lemma {:induction false} CleanLinesAppend(a: seq<string>, b: seq<string>)
    ensures CleanLines(a + b) == CleanLines(a) + CleanLines(b)
  {
    if a == [] {
      assert a + b == b;
    } else {
      assert (a + b)[1..] == a[1..] + b;
      CleanLinesAppend(a[1..], b);
    }
  }

  /** A line is kept, stripped, exactly when it is not blank and does not begin with `#`. */
  lemma CleanOneLine(line: string)
    ensures CleanLines([line]) == if Strip(line) != [] && !StartsWith(line, '#') then [Strip(line)] else []
  {
    assert [line][1..] == [];
  }

  /** Index of the first character satisfying `stop`, or `|s|`. */
  function FindFirst(s: string, stop: char -> bool): (k: nat)
    ensures k <= |s| && (k < |s| ==> stop(s[k]))
    ensures forall j :: 0 <= j < k ==> !stop(s[j])
  {
    if s == [] || stop(s[0]) then 0 else 1 + FindFirst(s[1..], stop)
  }

  /** `re.split(r'\s+', s)`: the pieces between maximal runs of whitespace. */
  function SplitRuns(s: string): (parts: seq<string>)
    ensures |parts| >= 1
    decreases |s|
  {
    var i := FindFirst(s, IsSpace);
    if i == |s| then [s]
    else
      var rest := StripStart(s[i..], IsSpace);
      assert |rest| < |s[i..]|;
      [s[..i]] + SplitRuns(rest)
  }

  /** No piece of a split holds whitespace. */
  lemma {:induction false} SplitRunsNoSpace(s: string)
    ensures forall k, c :: 0 <= k < |SplitRuns(s)| && c in SplitRuns(s)[k] ==> !IsSpace(c)
    decreases |s|
  {
    var i := FindFirst(s, IsSpace);
    if i < |s| {
      var rest := StripStart(s[i..], IsSpace);
      SplitRunsNoSpace(rest);
      assert SplitRuns(s) == [s[..i]] + SplitRuns(rest);
    }
  }

  /** The characters of `s` that are not whitespace. */
  function NonSpace(s: string): string {
    if s == [] then []
    else (if IsSpace(s[0]) then [] else [s[0]]) + NonSpace(s[1..])
  }

  function Concat(parts: seq<string>): string {
    if parts == [] then [] else parts[0] + Concat(parts[1..])
  }

  lemma {:induction false} NonSpaceAppend(a: string, b: string)
    ensures NonSpace(a + b) == NonSpace(a) + NonSpace(b)
  {
    if a != [] {
      assert (a + b)[1..] == a[1..] + b;
      NonSpaceAppend(a[1..], b);
    } else {
      assert a + b == b;
    }
  }

  lemma {:induction false} NonSpaceOfSpaces(s: string)
    requires forall c :: c in s ==> IsSpace(c)
    ensures NonSpace(s) == []
  {
    if s != [] {
      NonSpaceOfSpaces(s[1..]);
    }
  }

  lemma {:induction false} NonSpaceOfWord(s: string)
    requires forall c :: c in s ==> !IsSpace(c)
    ensures NonSpace(s) == s
  {
    if s != [] {
      NonSpaceOfWord(s[1..]);
      assert s == [s[0]] + s[1..];
    }
  }

  /** A word, then whitespace, then anything: only the word and the tail's text remain. */
  lemma NonSpaceOfWordThenSpaces(word: string, spaces: string, tail: string)
    requires forall c :: c in word ==> !IsSpace(c)
    requires forall c :: c in spaces ==> IsSpace(c)
    ensures NonSpace(word + spaces + tail) == word + NonSpace(tail)
  {
    var prefix := word + spaces;
    NonSpaceAppend(prefix, tail);
    NonSpaceAppend(word, spaces);
    NonSpaceOfSpaces(spaces);
    NonSpaceOfWord(word);
    assert NonSpace(prefix) == word;
  }

  /** Splitting loses exactly the whitespace: gluing the pieces gives the non-space characters. */
  lemma {:induction false} SplitRunsKeepsText(s: string)
    ensures Concat(SplitRuns(s)) == NonSpace(s)
    decreases |s|
  {
    var i := FindFirst(s, IsSpace);
    if i == |s| {
      assert forall c :: c in s ==> !IsSpace(c);
      NonSpaceOfWord(s);
    } else {
      var rest := StripStart(s[i..], IsSpace);
      var skipped := s[i..][..|s[i..]| - |rest|];
      assert s == s[..i] + skipped + rest;
      assert forall c :: c in skipped ==> IsSpace(c);
      assert forall c :: c in s[..i] ==> !IsSpace(c);
      NonSpaceOfWordThenSpaces(s[..i], skipped, rest);
      SplitRunsKeepsText(rest);
      var parts := SplitRuns(s);
      assert parts == [s[..i]] + SplitRuns(rest);
      assert parts[1..] == SplitRuns(rest);
    }
  }

  /** On a stripped, non-empty line (what the landscape loop sees) no piece is empty. */
  lemma {:induction false} SplitRunsOfStripped(s: string)
    requires s != [] && !IsSpace(s[0]) && !IsSpace(s[|s| - 1])
    ensures forall k :: 0 <= k < |SplitRuns(s)| ==> SplitRuns(s)[k] != []
    decreases |s|
  {
    var i := FindFirst(s, IsSpace);
    if i < |s| {
      var rest := StripStart(s[i..], IsSpace);
      assert !IsSpace(s[i..][|s| - 1 - i]);
      assert rest[|rest| - 1] == s[|s| - 1];
      SplitRunsOfStripped(rest);
    }
  }

  /** `s.split(sep)` for a one-character separator: empty pieces included. */
  function SplitOn(s: string, sep: char): (parts: seq<string>)
    ensures |parts| >= 1
    ensures forall k :: 0 <= k < |parts| ==> sep !in parts[k]
    decreases |s|
  {
    var i := FindFirst(s, c => c == sep);
    if i == |s| then [s] else [s[..i]] + SplitOn(s[i + 1..], sep)
  }

  /** `sep.join(parts)`. */
  function Join(parts: seq<string>, sep: char): string
    requires |parts| >= 1
  {
    if |parts| == 1 then parts[0] else parts[0] + [sep] + Join(parts[1..], sep)
  }

  /** Joining the pieces of a split gives back the string. */
  lemma {:induction false} JoinSplitOn(s: string, sep: char)
    ensures Join(SplitOn(s, sep), sep) == s
    decreases |s|
  {
    var i := FindFirst(s, c => c == sep);
    if i < |s| {
      var tail := SplitOn(s[i + 1..], sep);
      JoinSplitOn(s[i + 1..], sep);
      var parts := SplitOn(s, sep);
      assert parts == [s[..i]] + tail;
      assert parts[1..] == tail;
      assert Join(parts, sep) == s[..i] + [sep] + s[i + 1..];
      assert s == s[..i] + [sep] + s[i + 1..];
    }
  }

  /** Splitting a join of separator-free pieces gives back the pieces. */
  lemma {:induction false} SplitOnJoin(parts: seq<string>, sep: char)
    requires |parts| >= 1
    requires forall k :: 0 <= k < |parts| ==> sep !in parts[k]
    ensures SplitOn(Join(parts, sep), sep) == parts
  {
    var s := Join(parts, sep);
    if |parts| == 1 {
      assert FindFirst(s, c => c == sep) == |s|;
    } else {
      var tail := Join(parts[1..], sep);
      assert s == parts[0] + [sep] + tail;
      var i := FindFirst(s, c => c == sep);
      assert forall j :: 0 <= j < |parts[0]| ==> s[j] == parts[0][j];
      assert s[|parts[0]|] == sep;
      assert i == |parts[0]|;
      assert s[..i] == parts[0] && s[i + 1..] == tail;
      SplitOnJoin(parts[1..], sep);
      assert parts == [parts[0]] + parts[1..];
    }
  }

  /**
   * Convert each string in order, as the parser's loops do: every value, or
   * the index of the first string that does not convert.
   */
  function MapAll<T>(xs: seq<string>, f: string -> Option<T>): (r: Result<seq<T>, nat>)
    ensures r.Ok? ==> |r.value| == |xs| && forall k :: 0 <= k < |xs| ==> f(xs[k]) == Some(r.value[k])
    ensures r.Err? ==> r.error < |xs| && f(xs[r.error]).None?
    ensures r.Err? ==> forall k :: 0 <= k < r.error ==> f(xs[k]).Some?
  {
    if xs == [] then Ok([])
    else
      match MapAll(xs[..|xs| - 1], f)
      case Err(k) => Err(k)
      case Ok(vs) =>
        match f(xs[|xs| - 1])
        case None => Err(|xs| - 1)
        case Some(v) => Ok(vs + [v])
  }

  /** Once a prefix fails, the whole fails at the same place. */
  lemma {:induction false} MapAllPrefix<T>(xs: seq<string>, n: nat, f: string -> Option<T>)
    requires n <= |xs| && MapAll(xs[..n], f).Err?
    ensures MapAll(xs, f) == MapAll(xs[..n], f)
    decreases |xs| - n
  {
    if n < |xs| {
      assert xs[..n + 1][..n] == xs[..n];
      MapAllPrefix(xs, n + 1, f);
    } else {
      assert xs[..n] == xs;
    }
  }

  /** One landscape row: `[int(x) for x in re.split(r'\s+', line.strip())]`. */
  function ParseRow(line: string, toInt: string -> Option<int>): (r: Option<seq<int>>)
    ensures r.Some? <==> forall k :: 0 <= k < |SplitRuns(Strip(line))| ==> toInt(SplitRuns(Strip(line))[k]).Some?
    ensures r.Some? ==> |r.value| == |SplitRuns(Strip(line))|
    ensures r.Some? ==> forall k :: 0 <= k < |r.value| ==> toInt(SplitRuns(Strip(line))[k]) == Some(r.value[k])
  {
    match MapAll(SplitRuns(Strip(line)), toInt)
    case Ok(row) => Some(row)
    case Err(_) => None
  }

  /** Index of the first line starting with `{`, or the number of lines. */
  function LandscapeEnd(lines: seq<string>): (end: nat)
    ensures end <= |lines| && (end < |lines| ==> StartsWith(lines[end], '{'))
    ensures forall k :: 0 <= k < end ==> !StartsWith(lines[k], '{')
  {
    if lines == [] || StartsWith(lines[0], '{') then 0 else 1 + LandscapeEnd(lines[1..])
  }

  /**
   * A loop filling a dictionary from the strings `relevant` selects: each
   * converts to a key and a value, a later key overwrites an earlier one,
   * and the first selected string that does not convert stops the loop.
   */
  function Collect<K(==), V>(xs: seq<string>, relevant: string -> bool, f: string -> Option<(K, V)>): (r: Result<map<K, V>, nat>)
    ensures r.Err? ==> r.error < |xs| && relevant(xs[r.error]) && f(xs[r.error]).None?
    ensures r.Err? ==> forall k :: 0 <= k < r.error && relevant(xs[k]) ==> f(xs[k]).Some?
    ensures r.Ok? ==> forall k :: 0 <= k < |xs| && relevant(xs[k]) ==> f(xs[k]).Some?
  {
    if xs == [] then Ok(map[])
    else
      var last := xs[|xs| - 1];
      match Collect(xs[..|xs| - 1], relevant, f)
      case Err(k) => Err(k)
      case Ok(m) =>
        if !relevant(last) then Ok(m)
        else
          match f(last)
          case None => Err(|xs| - 1)
          case Some(e) => Ok(m[e.0 := e.1])
  }

  /** Once a prefix fails, the whole fails at the same place. */
  lemma {:induction false} CollectPrefix<K, V>(xs: seq<string>, n: nat, relevant: string -> bool, f: string -> Option<(K, V)>)
    requires n <= |xs| && Collect(xs[..n], relevant, f).Err?
    ensures Collect(xs, relevant, f) == Collect(xs[..n], relevant, f)
    decreases |xs| - n
  {
    if n < |xs| {
      assert xs[..n + 1][..n] == xs[..n];
      CollectPrefix(xs, n + 1, relevant, f);
    } else {
      assert xs[..n] == xs;
    }
  }

  /**
   * The dictionary holds exactly the keys of the selected strings, each with
   * the value of its last occurrence.
   */
  lemma {:induction false} CollectLastWins<K, V>(xs: seq<string>, relevant: string -> bool, f: string -> Option<(K, V)>, key: K)
    requires Collect(xs, relevant, f).Ok?
    ensures key in Collect(xs, relevant, f).value <==>
      exists k :: 0 <= k < |xs| && relevant(xs[k]) && f(xs[k]).value.0 == key
    ensures forall k ::
      (&& 0 <= k < |xs| && relevant(xs[k]) && f(xs[k]).value.0 == key
       && (forall j :: k < j < |xs| && relevant(xs[j]) ==> f(xs[j]).value.0 != key))
      ==> Collect(xs, relevant, f).value[key] == f(xs[k]).value.1
  {
    if xs != [] {
      var n := |xs| - 1;
      var init := xs[..n];
      assert forall k :: 0 <= k < n ==> init[k] == xs[k];
      CollectLastWins(init, relevant, f, key);
      var m := Collect(init, relevant, f).value;
      if relevant(xs[n]) && f(xs[n]).value.0 == key {
        assert Collect(xs, relevant, f).value == m[key := f(xs[n]).value.1];
      } else {
        assert Collect(xs, relevant, f).value == m || Collect(xs, relevant, f).value == m[f(xs[n]).value.0 := f(xs[n]).value.1];
        if key in Collect(xs, relevant, f).value {
          var k :| 0 <= k < n && relevant(init[k]) && f(init[k]).value.0 == key;
          assert xs[k] == init[k];
        }
      }
    }
  }

  /** The tile-type names, in the order of the supply vector. */
  const TileNames: seq<string> := ["FULL_BLOCK", "OUTER_BOUNDARY", "EL_SHAPE"]

  /** `name, count = item.split('=')`, giving `(name.strip(), int(count))`. */
  function CountEntry(item: string, toInt: string -> Option<int>): (e: Option<(string, int)>)
    ensures e.Some? <==> |SplitOn(item, '=')| == 2 && toInt(SplitOn(item, '=')[1]).Some?
    ensures e.Some? ==> e.value.0 == Strip(SplitOn(item, '=')[0])
    ensures e.Some? ==> e.value.1 == toInt(SplitOn(item, '=')[1]).value
  {
    var parts := SplitOn(item, '=');
    if |parts| != 2 then None
    else
      match toInt(parts[1])
      case None => None
      case Some(n) => Some((Strip(parts[0]), n))
  }

  /** An item written as `name=text`, with a count that converts, is read back as its stripped name and that count. */
  lemma CountEntryRoundTrip(name: string, text: string, v: int, toInt: string -> Option<int>)
    requires '=' !in name && '=' !in text && toInt(text) == Some(v)
    ensures CountEntry(name + "=" + text, toInt) == Some((Strip(name), v))
  {
    var parts := [name, text];
    assert Join(parts, '=') == name + "=" + text by {
      assert parts[1..] == [text];
    }
    SplitOnJoin(parts, '=');
  }

  /** Every tile-count item is read. */
  predicate AnyItem(item: string) {
    true
  }

  /** `lines[i].strip('{}').split(',')`. */
  function TileItems(line: string): seq<string> {
    SplitOn(StripBy(line, IsBrace), ',')
  }

  /** `tile_dict.get(name, 0)`. */
  function GetOrZero(d: map<string, int>, name: string): int {
    if name in d then d[name] else 0
  }

  /** The supply vector `[tile_dict.get(name, 0) for name in ...]` built from the items of the tile-count line. */
  function TileCountsOf(items: seq<string>, count: string -> Option<(string, int)>): (counts: Option<seq<int>>)
    ensures counts.Some? ==> |counts.value| == TileTypes
  {
    match Collect(items, AnyItem, count)
    case Err(_) => None
    case Ok(d) => Some([GetOrZero(d, TileNames[0]), GetOrZero(d, TileNames[1]), GetOrZero(d, TileNames[2])])
  }

  /**
   * Each supply is the count of the last item naming that tile type, and 0
   * when no item names it; the line fails as soon as one item is malformed.
   */
  lemma TileCountsFromItems(items: seq<string>, count: string -> Option<(string, int)>, t: nat)
    requires t < TileTypes
    ensures TileCountsOf(items, count).Some? <==> forall k :: 0 <= k < |items| ==> count(items[k]).Some?
    ensures TileCountsOf(items, count).Some? ==>
      && ((forall k :: 0 <= k < |items| ==> count(items[k]).value.0 != TileNames[t])
          ==> TileCountsOf(items, count).value[t] == 0)
      && (forall k ::
            (&& 0 <= k < |items| && count(items[k]).value.0 == TileNames[t]
             && (forall j :: k < j < |items| ==> count(items[j]).value.0 != TileNames[t]))
            ==> TileCountsOf(items, count).value[t] == count(items[k]).value.1)
  {
    var r := Collect(items, AnyItem, count);
    if r.Ok? {
      CollectLastWins(items, AnyItem, count, TileNames[t]);
    } else {
      assert AnyItem(items[r.error]);
    }
  }

  /** `color, count = map(int, line.strip().split(':'))`. */
  function VisibilityEntry(line: string, toInt: string -> Option<int>): (e: Option<(int, int)>)
    ensures var parts := SplitOn(Strip(line), ':');
      e.Some? <==> |parts| == 2 && toInt(parts[0]).Some? && toInt(parts[1]).Some?
    ensures var parts := SplitOn(Strip(line), ':');
      e.Some? ==> |parts| == 2 && e.value == (toInt(parts[0]).value, toInt(parts[1]).value)
  {
    var parts := SplitOn(Strip(line), ':');
    if |parts| != 2 then None
    else
      match (toInt(parts[0]), toInt(parts[1]))
      case (Some(color), Some(count)) => Some((color, count))
      case _ => None
  }

  /** A line `color:count` with no surrounding whitespace and both numbers converting is read back as that pair. */
  lemma VisibilityEntryRoundTrip(color: string, count: string, c: int, n: int, toInt: string -> Option<int>)
    requires ':' !in color && ':' !in count
    requires color != [] && !IsSpace(color[0]) && count != [] && !IsSpace(count[|count| - 1])
    requires toInt(color) == Some(c) && toInt(count) == Some(n)
    ensures VisibilityEntry(color + ":" + count, toInt) == Some((c, n))
  {
    var line := color + ":" + count;
    assert StripStart(line, IsSpace) == line;
    assert StripEnd(line, IsSpace) == line;
    var parts := [color, count];
    assert Join(parts, ':') == line by {
      assert parts[1..] == [count];
    }
    SplitOnJoin(parts, ':');
  }

  /** The three conversions the parser applies to single lines and items. */
  datatype Converters = Converters(
    row: string -> Option<seq<int>>,
    count: string -> Option<(string, int)>,
    visibility: string -> Option<(int, int)>)

  /** The conversions of `parse_input_file`, built on `int(...)`. */
  function ConvertersFor(toInt: string -> Option<int>): Converters {
    Converters(line => ParseRow(line, toInt), item => CountEntry(item, toInt), line => VisibilityEntry(line, toInt))
  }

  /** Only lines containing `:` are visibility entries; the others are skipped. */
  predicate HasColon(line: string) {
    ':' in line
  }

  /** `max(len(row) for row in landscape)`. */
  function MaxWidth(rows: seq<seq<int>>): (w: nat)
    requires |rows| > 0
    ensures forall k :: 0 <= k < |rows| ==> |rows[k]| <= w
    ensures exists k :: 0 <= k < |rows| && |rows[k]| == w
  {
    if |rows| == 1 then |rows[0]|
    else
      var w := MaxWidth(rows[1..]);
      assert forall k :: 1 <= k < |rows| ==> rows[k] == rows[1..][k - 1];
      if |rows[0]| >= w then |rows[0]| else w
  }

  function Zeros(n: nat): (z: seq<int>)
    ensures |z| == n && forall k :: 0 <= k < n ==> z[k] == 0
  {
    seq(n, _ => 0)
  }

  /**
   * `[row + [0] * (max_width - len(row)) for row in landscape]`: a rectangle
   * as wide as the widest row, each row extended with zeros only.
   */
  function Pad(rows: seq<seq<int>>): (padded: Landscape)
    requires |rows| > 0
    ensures |padded| == |rows| && Rectangular(padded)
    ensures forall k :: 0 <= k < |rows| ==>
      && |padded[k]| == MaxWidth(rows)
      && padded[k][..|rows[k]|] == rows[k]
      && (forall j :: |rows[k]| <= j < MaxWidth(rows) ==> padded[k][j] == 0)
  {
    var w := MaxWidth(rows);
    seq(|rows|, k requires 0 <= k < |rows| => rows[k] + Zeros(w - |rows[k]|))
  }

  /** What the parser returns on success. */
  datatype Input = Input(landscape: Landscape, tileCounts: seq<int>, targetVisible: map<int, int>)

  /** The `ValueError`s the parser raises; line numbers count cleaned lines from 1. */
  datatype ParseError =
    | InvalidLandscape(lineNumber: nat, line: string)
    | InvalidTileCounts(lineNumber: nat, line: string)
    | InvalidVisibility(line: string)
    | NoLandscape

  /** The lines after the landscape and the tile-count line, if there is one. */
  function VisibilityLines(lines: seq<string>): seq<string> {
    var end := LandscapeEnd(lines);
    if end < |lines| then lines[end + 1..] else []
  }

  /**
   * The outcome of the parse, stage by stage, on the cleaned lines. A
   * successful parse yields a non-empty rectangular landscape with one row
   * per line before the `{` line, and a supply vector of three counts.
   */
  function Parse(lines: seq<string>, conv: Converters): (r: Result<Input, ParseError>)
    ensures r.Ok? ==> Rectangular(r.value.landscape) && |r.value.landscape| == LandscapeEnd(lines)
    ensures r.Ok? ==> |r.value.tileCounts| == TileTypes
  {
    var end := LandscapeEnd(lines);
    match MapAll(lines[..end], conv.row)
    case Err(k) => Err(InvalidLandscape(k + 1, lines[k]))
    case Ok(rows) =>
      var counts := if end < |lines| then TileCountsOf(TileItems(lines[end]), conv.count) else Some([0, 0, 0]);
      if counts.None? then Err(InvalidTileCounts(end + 1, lines[end]))
      else
        var rest := VisibilityLines(lines);
        match Collect(rest, HasColon, conv.visibility)
        case Err(k) => Err(InvalidVisibility(rest[k]))
        case Ok(visible) =>
          if rows == [] then Err(NoLandscape)
          else Ok(Input(Pad(rows), counts.value, visible))
  }

  /** Each landscape row is its converted line, extended with zeros to the common width. */
  lemma ParseOkRows(lines: seq<string>, conv: Converters, k: nat)
    requires Parse(lines, conv).Ok? && k < LandscapeEnd(lines)
    ensures conv.row(lines[k]).Some?
    ensures var row, padded := conv.row(lines[k]).value, Parse(lines, conv).value.landscape[k];
      && |row| <= |padded|
      && padded[..|row|] == row
      && forall j :: |row| <= j < |padded| ==> padded[j] == 0
  {
    var end := LandscapeEnd(lines);
    var rows := MapAll(lines[..end], conv.row).value;
    assert lines[..end][k] == lines[k];
  }

  /** A row that does not convert is reported with its (cleaned) line number. */
  lemma ParseBadRow(lines: seq<string>, conv: Converters, k: nat)
    requires k < LandscapeEnd(lines) && conv.row(lines[k]).None?
    requires forall j :: 0 <= j < k ==> conv.row(lines[j]).Some?
    ensures Parse(lines, conv) == Err(InvalidLandscape(k + 1, lines[k]))
  {
    var end := LandscapeEnd(lines);
    assert forall j :: 0 <= j < end ==> lines[..end][j] == lines[j];
  }

  /** Input whose first cleaned line opens the tile counts, or that has no lines, never parses. */
  lemma NoLandscapeFails(lines: seq<string>, conv: Converters)
    requires LandscapeEnd(lines) == 0
    ensures Parse(lines, conv).Err?
  {
    assert lines[..0] == [];
  }

  /**
   * When the tile counts and the visibility lines are well formed, input with
   * no landscape lines fails with exactly the "no landscape data" error.
   */
  lemma NoLandscapeError(lines: seq<string>, conv: Converters)
    requires LandscapeEnd(lines) == 0
    requires 0 < |lines| ==> TileCountsOf(TileItems(lines[0]), conv.count).Some?
    requires Collect(VisibilityLines(lines), HasColon, conv.visibility).Ok?
    ensures Parse(lines, conv) == Err(NoLandscape)
  {
    assert lines[..0] == [];
  }

  /** The supply of a successful parse is the one read from the tile-count line, or all zeros without one. */
  lemma ParseOkSupply(lines: seq<string>, conv: Converters)
    requires Parse(lines, conv).Ok?
    ensures var end := LandscapeEnd(lines);
      Parse(lines, conv).value.tileCounts ==
        if end < |lines| then TileCountsOf(TileItems(lines[end]), conv.count).value else [0, 0, 0]
  {
    var end := LandscapeEnd(lines);
    var counts := if end < |lines| then TileCountsOf(TileItems(lines[end]), conv.count) else Some([0, 0, 0]);
    assert MapAll(lines[..end], conv.row).Ok? && counts.Some?;
    assert Parse(lines, conv).value.tileCounts == counts.value;
  }

  /** Without a tile-count line every supply is zero. */
  lemma NoTileLineZeroSupply(lines: seq<string>, conv: Converters)
    requires Parse(lines, conv).Ok? && LandscapeEnd(lines) == |lines|
    ensures Parse(lines, conv).value.tileCounts == [0, 0, 0]
  {
  }

  /** The landscape `while` loop: rows up to the first `{` line, stopping at the first bad row. */
  method ReadLandscape(lines: seq<string>, parseRow: string -> Option<seq<int>>) returns (r: Result<seq<seq<int>>, nat>)
    ensures r == MapAll(lines[..LandscapeEnd(lines)], parseRow)
  {
    ghost var end := LandscapeEnd(lines);
    var landscape: seq<seq<int>> := [];
    var i := 0;
    while i < |lines| && !StartsWith(lines[i], '{')
      invariant i <= end
      invariant MapAll(lines[..i], parseRow) == Ok(landscape)
    {
      assert lines[..i + 1][..i] == lines[..i];
      var row := parseRow(lines[i]);
      if row.None? {
        assert MapAll(lines[..i + 1], parseRow) == Err(i);
        assert lines[..end][..i + 1] == lines[..i + 1];
        MapAllPrefix(lines[..end], i + 1, parseRow);
        return Err(i);
      }
      landscape := landscape + [row.value];
      i := i + 1;
    }
    return Ok(landscape);
  }

  /** The tile-count loop filling `tile_dict`, then the three lookups. */
  method ReadTileCounts(items: seq<string>, parseItem: string -> Option<(string, int)>) returns (counts: Option<seq<int>>)
    ensures counts == TileCountsOf(items, parseItem)
  {
    var dict: map<string, int> := map[];
    var k := 0;
    while k < |items|
      invariant k <= |items|
      invariant Collect(items[..k], AnyItem, parseItem) == Ok(dict)
    {
      assert items[..k + 1][..k] == items[..k];
      var entry := parseItem(items[k]);
      if entry.None? {
        assert Collect(items[..k + 1], AnyItem, parseItem) == Err(k);
        CollectPrefix(items, k + 1, AnyItem, parseItem);
        return None;
      }
      dict := dict[entry.value.0 := entry.value.1];
      k := k + 1;
    }
    assert items[..k] == items;
    return Some([GetOrZero(dict, TileNames[0]), GetOrZero(dict, TileNames[1]), GetOrZero(dict, TileNames[2])]);
  }

  /** The visibility loop: lines with a `:` fill `target_visible`; the first bad one stops it. */
  method ReadVisibility(rest: seq<string>, parseEntry: string -> Option<(int, int)>) returns (r: Result<map<int, int>, nat>)
    ensures r == Collect(rest, HasColon, parseEntry)
  {
    var visible: map<int, int> := map[];
    var k := 0;
    while k < |rest|
      invariant k <= |rest|
      invariant Collect(rest[..k], HasColon, parseEntry) == Ok(visible)
    {
      assert rest[..k + 1][..k] == rest[..k];
      var line := rest[k];
      if ':' in line {
        var entry := parseEntry(line);
        if entry.None? {
          assert Collect(rest[..k + 1], HasColon, parseEntry) == Err(k);
          CollectPrefix(rest, k + 1, HasColon, parseEntry);
          return Err(k);
        }
        visible := visible[entry.value.0 := entry.value.1];
      }
      k := k + 1;
    }
    assert rest[..k] == rest;
    return Ok(visible);
  }

  /**
   * `parse_input_file` after the lines are read: the three loops in order,
   * the emptiness check and the padding.
   */
  method ParseLines(lines: seq<string>, conv: Converters) returns (r: Result<Input, ParseError>)
    ensures r == Parse(lines, conv)
  {
    var rows := ReadLandscape(lines, conv.row);
    if rows.Err? {
      return Err(InvalidLandscape(rows.error + 1, lines[rows.error]));
    }
    var i := LandscapeEnd(lines);
    var tileCounts := [0, 0, 0];
    if i < |lines| {
      var counts := ReadTileCounts(TileItems(lines[i]), conv.count);
      if counts.None? {
        return Err(InvalidTileCounts(i + 1, lines[i]));
      }
      tileCounts := counts.value;
      i := i + 1;
    }
    var rest := lines[i..];
    var visible := ReadVisibility(rest, conv.visibility);
    if visible.Err? {
      return Err(InvalidVisibility(rest[visible.error]));
    }
    if rows.value == [] {
      return Err(NoLandscape);
    }
    r := Ok(Input(Pad(rows.value), tileCounts, visible.value));
  }

  /** `parse_input_file` on the lines of the file, with `int(...)` as the integer conversion. */
  method ParseInput(raw: seq<string>, toInt: string -> Option<int>) returns (r: Result<Input, ParseError>)
    ensures r == Parse(CleanLines(raw), ConvertersFor(toInt))
  {
    r := ParseLines(CleanLines(raw), ConvertersFor(toInt));
  }
}
