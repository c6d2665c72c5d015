/**
 * `convert` of update.py: turns the raw text of a feed into the sorted,
 * newline-joined list of identifiers that becomes a snapshot's content.
 */
module Normalizer {
  import opened Wrappers
  import opened Text

  /** The per-source line rules, one per arm of the `match` on the source name. */
  datatype Format =
    | FirstTabField       // bruteforceblocker: `line.split('\t')[0]`
    | AddressSlashPrefix  // dshield: `elements[0]/elements[2]` of the tab fields
    | FirstCommaField     // turris: `line.split(',')[0]`
    | AsnJsonLine         // spamhaus_drop*: the value after the first `":`
    | Verbatim            // every other source: the line itself

  /** The arm of the `match` a source name selects, tried in the source's order. */
  function FormatOf(name: string): Format
  {
    if name == "bruteforceblocker" then FirstTabField
    else if name == "dshield" then AddressSlashPrefix
    else if name == "turris" then FirstCommaField
    else if "spamhaus_drop" <= name then AsnJsonLine
    else Verbatim
  }

  /** A line survives the filter: not empty, not a `#` comment, has a `.` or a `:`. */
  predicate Keep(line: string)
  {
    |line| != 0 && line[0] != '#' && ('.' in line || ':' in line)
  }

  /** What one filtered line contributes: an item, nothing, or an IndexError. */
  datatype LineResult = Emit(item: string) | Skip | IndexOutOfRange

  /** The field-extraction rule of a format, applied to a line that passed the filter. */
  function Extract(fmt: Format, line: string): LineResult
  {
    match fmt
    case FirstTabField => Emit(Split(line, "\t")[0])
    case AddressSlashPrefix =>
      var elements := Split(line, "\t");
      if |elements| < 3 then IndexOutOfRange else Emit(elements[0] + "/" + elements[2])
    case FirstCommaField => Emit(Split(line, ",")[0])
    case AsnJsonLine =>
      if Contains(line, "metadata") then Skip
      else
        var parts := Split(Split(line, ",\"")[0], "\":");
        if |parts| < 2 then IndexOutOfRange else Emit(Strip(parts[1], '"'))
    case Verbatim => Emit(line)
  }

  /** The filter followed by the rule. */
  function Step(fmt: Format, line: string): LineResult
  {
    if Keep(line) then Extract(fmt, line) else Skip
  }

  /** The IndexError `convert` raises, with the line that raised it. */
  datatype ConvertError = IndexError(line: string)

  /**
   * The result list after the given lines, in order, or the error of the
   * first line that raises.
   */
  function Collect(fmt: Format, lines: seq<string>): Result<seq<string>, ConvertError>
  {
    if lines == [] then Success([])
    else
      match Collect(fmt, lines[..|lines| - 1])
      case Failure(e) => Failure(e)
      case Success(acc) =>
        var line := lines[|lines| - 1];
        match Step(fmt, line)
        case Emit(v) => Success(acc + [v])
        case Skip => Success(acc)
        case IndexOutOfRange => Failure(IndexError(line))
  }

  /** The list `convert` joins: the collected items of the lines of `data`, sorted. */
  function Converted(name: string, data: string): Result<seq<string>, ConvertError>
  {
    match Collect(FormatOf(name), SplitLines(data))
    case Success(items) => Success(Sort(items))
    case Failure(e) => Failure(e)
  }

  /** The lines that pass the filter, in order: the reference for rules that keep lines whole. */
  function Kept(lines: seq<string>): seq<string>
  {
    if lines == [] then []
    else
      var last := lines[|lines| - 1];
      Kept(lines[..|lines| - 1]) + (if Keep(last) then [last] else [])
  }

  method Convert(name: string, data: string) returns (r: Result<string, ConvertError>)
    ensures r == match Converted(name, data)
                 case Success(items) => Success(Join(items, "\n"))
                 case Failure(e) => Failure(e)
  {
    var fmt := FormatOf(name);
    var lines := SplitLines(data);
    var resultList: seq<string> := [];
    for i := 0 to |lines|
      invariant Collect(fmt, lines[..i]) == Success(resultList)
    {
      var line := lines[i];
      assert lines[..i + 1][..i] == lines[..i];
      if |line| == 0 {
        continue;
      }
      if line[0] == '#' {
        continue;
      }
      if '.' !in line && ':' !in line {
        continue;
      }
      match Extract(fmt, line)
      case Emit(item) =>
        resultList := resultList + [item];
      case Skip =>
      case IndexOutOfRange =>
        assert Collect(fmt, lines[..i + 1]) == Failure(IndexError(line));
        CollectFailurePersists(fmt, lines, i + 1);
        assert Collect(fmt, lines) == Failure(IndexError(line));
        return Failure(IndexError(line));
    }
    assert lines[..|lines|] == lines;
    resultList := Sort(resultList);
    r := Success(Join(resultList, "\n"));
  }

  /** Once a line has raised, later lines do not matter. */
  lemma {:induction false} CollectFailurePersists(fmt: Format, lines: seq<string>, n: nat)
    requires n <= |lines| && Collect(fmt, lines[..n]).Failure?
    ensures Collect(fmt, lines) == Collect(fmt, lines[..n])
    decreases |lines| - n
  {
    if n < |lines| {
      assert lines[..n + 1][..n] == lines[..n];
      CollectFailurePersists(fmt, lines, n + 1);
    } else {
      assert lines[..n] == lines;
    }
  }

  // ---------------------------------------------------------------- list properties

  /**
   * Every collected item comes from a line that is not empty, does not start
   * with `#` and holds a `.` or a `:`, through the format's rule; there are
   * never more items than lines.
   */
  lemma {:induction false} CollectOrigin(fmt: Format, lines: seq<string>)
    requires Collect(fmt, lines).Success?
    ensures var items := Collect(fmt, lines).value;
      |items| <= |lines|
      && forall x :: x in items ==>
           exists line :: line in lines && |line| != 0 && line[0] != '#'
                          && ('.' in line || ':' in line) && Extract(fmt, line) == Emit(x)
    decreases |lines|
  {
    if lines != [] {
      var init := lines[..|lines| - 1];
      CollectOrigin(fmt, init);
      forall line | line in init ensures line in lines {
        var k :| 0 <= k < |init| && init[k] == line;
        assert lines[k] == line;
      }
    }
  }

  /** `convert` raises exactly when some line passes the filter and its rule raises. */
  lemma {:induction false} CollectFailureIff(fmt: Format, lines: seq<string>)
    ensures Collect(fmt, lines).Failure? <==>
            exists line :: line in lines && Keep(line) && Extract(fmt, line) == IndexOutOfRange
    decreases |lines|
  {
    if lines != [] {
      var init := lines[..|lines| - 1];
      var last := lines[|lines| - 1];
      CollectFailureIff(fmt, init);
      assert lines == init + [last];
      forall line | line in lines ensures line in init || line == last {
      }
      forall line | line in init ensures line in lines {
      }
    }
  }

  /** The first-field, first-comma-field and verbatim rules never raise. */
  lemma TotalFormats(fmt: Format, lines: seq<string>)
    requires fmt == FirstTabField || fmt == FirstCommaField || fmt == Verbatim
    ensures Collect(fmt, lines).Success?
  {
    CollectFailureIff(fmt, lines);
  }

  /** The verbatim rule collects exactly the filtered lines, duplicates included. */
  lemma {:induction false} CollectVerbatim(lines: seq<string>)
    ensures Collect(Verbatim, lines) == Success(Kept(lines))
    decreases |lines|
  {
    if lines != [] {
      var init := lines[..|lines| - 1];
      var last := lines[|lines| - 1];
      CollectVerbatim(init);
      if !Keep(last) {
        assert Kept(lines) == Kept(init) + [] == Kept(init);
      }
    }
  }

  /** The list `convert` joins is sorted and holds the collected items, no more, no fewer. */
  lemma ConvertedSorted(name: string, data: string)
    requires Collect(FormatOf(name), SplitLines(data)).Success?
    ensures var items := Collect(FormatOf(name), SplitLines(data)).value;
      Converted(name, data).Success?
      && Sorted(Converted(name, data).value)
      && multiset(Converted(name, data).value) == multiset(items)
  {
  }

  /**
   * For a verbatim source, the list `convert` joins is the filtered lines in
   * sorted order, with nothing dropped and nothing deduplicated.
   */
  lemma ConvertedVerbatim(name: string, data: string)
    requires FormatOf(name) == Verbatim
    ensures Converted(name, data).Success?
    ensures Sorted(Converted(name, data).value)
    ensures multiset(Converted(name, data).value) == multiset(Kept(SplitLines(data)))
    ensures |Converted(name, data).value| <= |SplitLines(data)|
  {
    CollectVerbatim(SplitLines(data));
    CollectOrigin(Verbatim, SplitLines(data));
    var items := Kept(SplitLines(data));
    assert |multiset(Sort(items))| == |Sort(items)| && |multiset(items)| == |items|;
  }

  // ---------------------------------------------------------------- format rules

  /**
   * bruteforceblocker and turris keep the text before the first tab or comma,
   * or the whole line when the separator is absent.
   */
  lemma FirstFieldRules(line: string)
    ensures var r := Extract(FirstTabField, line);
      r.Emit? && r.item <= line && '\t' !in r.item
      && (|r.item| == |line| || line[|r.item|] == '\t')
    ensures var r := Extract(FirstCommaField, line);
      r.Emit? && r.item <= line && ',' !in r.item
      && (|r.item| == |line| || line[|r.item|] == ',')
  {
    FirstField(line, '\t');
    FirstField(line, ',');
  }

  /** dshield maps `e0 TAB e1 TAB e2 ...` to `e0/e2`. */
  lemma AddressSlashPrefixRule(e0: string, e1: string, e2: string, rest: string)
    requires '\t' !in e0 && '\t' !in e1 && '\t' !in e2
    requires rest == [] || rest[0] == '\t'
    ensures Extract(AddressSlashPrefix, e0 + "\t" + e1 + "\t" + e2 + rest) == Emit(e0 + "/" + e2)
  {
    var line := e0 + "\t" + e1 + "\t" + e2 + rest;
    assert line == e0 + ['\t'] + (e1 + ['\t'] + (e2 + rest));
    SplitAtChar(e0, '\t', e1 + ['\t'] + (e2 + rest));
    SplitAtChar(e1, '\t', e2 + rest);
    if rest == [] {
      assert e2 + rest == e2;
      SplitWithoutChar(e2, '\t');
    } else {
      assert e2 + rest == e2 + ['\t'] + rest[1..];
      SplitAtChar(e2, '\t', rest[1..]);
    }
  }

  /** dshield raises exactly when a line has fewer than two tabs (three fields). */
  lemma AddressSlashPrefixFailure(line: string)
    ensures Extract(AddressSlashPrefix, line) == IndexOutOfRange <==> multiset(line)['\t'] < 2
  {
    SplitCount(line, '\t');
  }

  /** dshield on `10.0.0.1 TAB TCP TAB 32` gives `10.0.0.1/32`. */
  lemma AddressSlashPrefixExample()
    ensures Step(AddressSlashPrefix, "10.0.0.1" + "\t" + "TCP" + "\t" + "32") == Emit("10.0.0.1" + "/" + "32")
  {
    var line := "10.0.0.1" + "\t" + "TCP" + "\t" + "32";
    AddressSlashPrefixRule("10.0.0.1", "TCP", "32", "");
    assert line == "10.0.0.1" + "\t" + "TCP" + "\t" + "32" + "";
    assert line[2] == '.';
  }

  /** spamhaus_drop* skips every line that mentions `metadata`. */
  lemma AsnJsonLineMetadata(line: string)
    requires Contains(line, "metadata")
    ensures Step(AsnJsonLine, line) == Skip
  {
  }

  /**
   * spamhaus_drop* raises exactly when a line without `metadata` has no `":`
   * before its first `,"`.
   */
  lemma AsnJsonLineFailure(line: string)
    ensures Extract(AsnJsonLine, line) == IndexOutOfRange <==>
            !Contains(line, "metadata") && !Contains(Split(line, ",\"")[0], "\":")
  {
    SplitSingleIff(Split(line, ",\"")[0], "\":");
  }

  /**
   * On a JSON line `{"key":value,"...` whose key and value hold no quote,
   * colon or comma, spamhaus_drop* yields the value.
   */
  lemma AsnJsonLineRule(key: string, v: string, rest: string)
    requires '"' !in key && ':' !in key && ',' !in key
    requires '"' !in v && ':' !in v && ',' !in v
    requires !Contains("{\"" + key + "\":" + v + ",\"" + rest, "metadata")
    ensures Step(AsnJsonLine, "{\"" + key + "\":" + v + ",\"" + rest) == Emit(v)
  {
    var line := "{\"" + key + "\":" + v + ",\"" + rest;
    var a1 := "{\"" + key;
    BeforeFirstCommaQuote(a1 + "\":" + v, rest);
    assert line == (a1 + "\":" + v) + ",\"" + rest;
    AfterFirstQuoteColon(a1, v);
    StripFacts(v, '"');
    assert line[0] == '{' && ':' in line;
  }

  lemma BeforeFirstCommaQuote(a: string, rest: string)
    requires ',' !in a
    ensures Split(a + ",\"" + rest, ",\"")[0] == a
  {
    forall i | 0 <= i < |a| ensures !MatchAt(a + ",\"" + rest, ",\"", i) {
      assert (a + ",\"" + rest)[i] == a[i];
      assert a[i] in a;
    }
    SplitAt(a, ",\"", rest);
  }

  lemma AfterFirstQuoteColon(a1: string, v: string)
    requires ':' !in a1 && '"' !in v
    ensures var parts := Split(a1 + "\":" + v, "\":"); |parts| >= 2 && parts[1] == v
  {
    var a := a1 + "\":" + v;
    forall i | 0 <= i < |a1| ensures !MatchAt(a, "\":", i) {
      MatchAtPair(a, "\":", i);
      if i + 1 < |a1| {
        assert a[i + 1] == a1[i + 1] && a1[i + 1] in a1;
      } else {
        assert a[i + 1] == '"';
      }
    }
    SplitAt(a1, "\":", v);
    forall i ensures !MatchAt(v, "\":", i) {
      MatchAtPair(v, "\":", i);
      if 0 <= i < |v| {
        assert v[i] in v;
      }
    }
    SplitWithout(v, "\":");
  }

  lemma MatchAtPair(s: string, sep: string, i: int)
    requires |sep| == 2
    ensures MatchAt(s, sep, i) <==> 0 <= i && i + 2 <= |s| && s[i] == sep[0] && s[i + 1] == sep[1]
  {
    if 0 <= i && i + 2 <= |s| {
      assert s[i..i + 2] == [s[i], s[i + 1]];
    }
  }

  // ---------------------------------------------------------------- round trip

  /** No item of any rule holds a line feed when the line does not. */
  lemma ExtractWithoutNewline(fmt: Format, line: string)
    requires '\n' !in line
    ensures Extract(fmt, line).Emit? ==> '\n' !in Extract(fmt, line).item
  {
    match fmt
    case FirstTabField => SplitFieldsFrom(line, "\t");
    case FirstCommaField => SplitFieldsFrom(line, ",");
    case AddressSlashPrefix =>
      SplitFieldsFrom(line, "\t");
    case AsnJsonLine =>
      var head := Split(line, ",\"")[0];
      SplitFieldsFrom(line, ",\"");
      SplitFieldsFrom(head, "\":");
      var parts := Split(head, "\":");
      if |parts| >= 2 {
        StripFacts(parts[1], '"');
      }
    case Verbatim =>
  }

  lemma {:induction false} CollectWithoutNewline(fmt: Format, lines: seq<string>)
    requires forall line :: line in lines ==> '\n' !in line
    requires Collect(fmt, lines).Success?
    ensures forall x :: x in Collect(fmt, lines).value ==> '\n' !in x
    decreases |lines|
  {
    if lines != [] {
      var init := lines[..|lines| - 1];
      assert forall line :: line in init ==> line in lines;
      CollectWithoutNewline(fmt, init);
      ExtractWithoutNewline(fmt, lines[|lines| - 1]);
    }
  }

  /**
   * Reading the lines of what `convert` returns gives back its sorted list,
   * unless that list holds only empty strings (which the join cannot tell apart).
   */
  lemma ConvertRoundTrip(name: string, data: string)
    requires Converted(name, data).Success?
    requires var items := Converted(name, data).value;
      items == [] || exists x :: x in items && x != ""
    ensures SplitLines(Join(Converted(name, data).value, "\n")) == Converted(name, data).value
  {
    var lines := SplitLines(data);
    var collected := Collect(FormatOf(name), lines).value;
    var items := Sort(collected);
    SplitLinesWithout(data);
    CollectWithoutNewline(FormatOf(name), lines);
    forall x | x in items ensures '\n' !in x {
      assert x in multiset(items);
    }
    if items != [] {
      var x :| x in items && x != "";
      var k :| 0 <= k < |items| && items[k] == x;
      if k != |items| - 1 {
        assert LexLe(items[k], items[|items| - 1]);
        LexLeNonEmpty(x, items[|items| - 1]);
      }
    }
    LinesJoin(items);
  }
}
