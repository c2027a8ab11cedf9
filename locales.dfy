/**
 * The locale table the tool window loads from locales.txt when its class is
 * initialised, and the search that selects the device's current locale in it.
 * Reading the resource is left out: the file arrives as its sequence of lines.
 */
module Locales {
  import opened JavaStrings

  /** One entry of the locale chooser: its label, language code and country code. */
  datatype LocaleData = LocaleData(name: string, language: string, county: string)

  /** The guard a line of locales.txt must pass to become an entry. */
  predicate Accepted(line: string) {
    IndexOf(line, "_") > 0 && IndexOf(line, "[") > 0
  }

  /** A line passes the guard exactly when it holds both '_' and '[' and starts with neither. */
  lemma AcceptedMeaning(line: string)
    ensures Accepted(line) <==> '_' in line && '[' in line && line[0] != '_' && line[0] != '['
  {
    IndexOfChar(line, '_');
    IndexOfChar(line, '[');
  }

  /**
   * What an entry cut out of `line` is: the language is the non-empty text before
   * the first '_', the country the text from there up to the first space, and the
   * name the text after the first '[' without the line's last character.
   */
  predicate EntryOfLine(line: string, ld: LocaleData) {
    CodesOfLine(line, ld.language, ld.county) && NameOfLine(line, ld.name)
  }

  /** The line starts with `language_country ` where the language holds no '_' and neither code a space. */
  predicate CodesOfLine(line: string, language: string, county: string) {
    && |language| > 0
    && '_' !in language && ' ' !in language && ' ' !in county
    && language + "_" + county + " " <= line
  }

  /** The name follows the line's first '[' and runs up to, without, the line's last character. */
  predicate NameOfLine(line: string, name: string) {
    var k := |line| - |name| - 2;
    0 <= k && line[k] == '[' && '[' !in line[..k] && line[k + 1..|line| - 1] == name
  }

  /**
   * One pass of the loading loop: a skipped line gives Ok(None), an accepted line
   * its entry, and an accepted line whose substring calls throw gives OutOfBounds.
   */
  function ParseLine(line: string): Result<Option<LocaleData>> {
    var underscore := IndexOf(line, "_");
    var bracket := IndexOf(line, "[");
    if underscore > 0 && bracket > 0 then
      match Substring(line, 0, underscore)
      case OutOfBounds => OutOfBounds
      case Ok(lang) =>
        match Substring(line, underscore + 1, IndexOf(line, " "))
        case OutOfBounds => OutOfBounds
        case Ok(cntry) =>
          match Substring(line, bracket + 1, |line| - 1)
          case OutOfBounds => OutOfBounds
          case Ok(desc) => Ok(Some(LocaleData(desc, lang, cntry)))
    else Ok(None)
  }

  /**
   * A line is skipped unless it passes the guard; an accepted line throws unless
   * its first space comes after its first '_' and a '[' precedes its last
   * character; otherwise its entry is the one EntryOfLine describes.
   */
  lemma ParseLineMeaning(line: string)
    ensures !Accepted(line) ==> ParseLine(line) == Ok(None)
    ensures Accepted(line) ==>
      (ParseLine(line).Ok? <==> ' ' in line && ' ' !in line[..IndexOf(line, "_")] && '[' in line[..|line| - 1])
    ensures Accepted(line) && ParseLine(line).Ok? ==>
      ParseLine(line).value.Some? && EntryOfLine(line, ParseLine(line).value.value)
  {
    if Accepted(line) {
      var u, b, sp := IndexOf(line, "_"), IndexOf(line, "["), IndexOf(line, " ");
      ParseLineCuts(line);
      CountryCutSucceeds(line, u, sp);
      NameCutSucceeds(line, b);
      if u + 1 <= sp && b + 1 <= |line| - 1 {
        CutEntry(line, u, b, sp);
      }
    }
  }

  /** The three substring calls of an accepted line, with their bounds spelled out. */
  lemma ParseLineCuts(line: string)
    requires Accepted(line)
    ensures var u, b, sp := IndexOf(line, "_"), IndexOf(line, "["), IndexOf(line, " ");
      ParseLine(line) ==
        if u + 1 <= sp && b + 1 <= |line| - 1
        then Ok(Some(LocaleData(line[b + 1..|line| - 1], line[..u], line[u + 1..sp])))
        else OutOfBounds
  {
  }

  /** The country's substring call succeeds exactly when the first space follows the first '_'. */
  lemma CountryCutSucceeds(line: string, u: int, sp: int)
    requires u == IndexOf(line, "_") && 0 < u && sp == IndexOf(line, " ")
    ensures u + 1 <= sp <==> ' ' in line && ' ' !in line[..u]
  {
    IndexOfChar(line, '_');
    IndexOfChar(line, ' ');
    if sp != -1 && ' ' !in line[..u] {
      assert line[sp] == ' ';
      assert sp > u;
    }
    if sp > u {
      assert line[..u] <= line[..sp];
    }
  }

  /** The name's substring call succeeds exactly when the first '[' is not the last character. */
  lemma NameCutSucceeds(line: string, b: int)
    requires b == IndexOf(line, "[") && 0 < b
    ensures b + 1 <= |line| - 1 <==> '[' in line[..|line| - 1]
  {
    IndexOfChar(line, '[');
    if '[' in line[..|line| - 1] {
      var k :| 0 <= k < |line| - 1 && line[k] == '[';
      assert b <= k;
    }
    if b < |line| - 1 {
      assert line[..|line| - 1][b] == '[';
    }
  }

  /** The entry cut at the first '_', '[' and space is the one EntryOfLine describes. */
  lemma CutEntry(line: string, u: int, b: int, sp: int)
    requires u == IndexOf(line, "_") && b == IndexOf(line, "[") && sp == IndexOf(line, " ")
    requires 0 < u && u + 1 <= sp && 0 < b && b + 1 <= |line| - 1
    ensures EntryOfLine(line, LocaleData(line[b + 1..|line| - 1], line[..u], line[u + 1..sp]))
  {
    IndexOfChar(line, '_');
    IndexOfChar(line, '[');
    IndexOfChar(line, ' ');
    CutCodes(line, u, sp);
    CutName(line, b);
  }

  lemma CutCodes(line: string, u: int, sp: int)
    requires 0 < u < sp < |line|
    requires line[u] == '_' && '_' !in line[..u] && line[sp] == ' ' && ' ' !in line[..sp]
    ensures CodesOfLine(line, line[..u], line[u + 1..sp])
  {
    var language, county := line[..u], line[u + 1..sp];
    assert language + "_" + county + " " == line[..sp + 1];
    assert language == line[..sp][..u];
    assert county == line[..sp][u + 1..];
  }

  lemma CutName(line: string, b: int)
    requires 0 <= b && b + 1 <= |line| - 1
    requires line[b] == '[' && '[' !in line[..b]
    ensures NameOfLine(line, line[b + 1..|line| - 1])
  {
  }

  /** Prefixing entries to a table that was loaded, or passing on a failure. */
  function Prepend(entries: seq<LocaleData>, table: Result<seq<LocaleData>>): Result<seq<LocaleData>> {
    match table
    case OutOfBounds => OutOfBounds
    case Ok(rest) => Ok(entries + rest)
  }

  /**
   * The table a loop over `lines` builds when `cut` is what one pass does with a
   * line: skip it, add an entry, or throw, which ends the whole load.
   */
  function Table(lines: seq<string>, cut: string -> Result<Option<LocaleData>>): Result<seq<LocaleData>> {
    if lines == [] then Ok([])
    else
      match cut(lines[0])
      case OutOfBounds => OutOfBounds
      case Ok(entry) =>
        Prepend(if entry.Some? then [entry.value] else [], Table(lines[1..], cut))
  }

  /** The locale table of the static initializer, in line order; one throwing line fails the whole load. */
  function LocaleTable(lines: seq<string>): Result<seq<LocaleData>> {
    Table(lines, ParseLine)
  }

  lemma PrependNothing(table: Result<seq<LocaleData>>)
    ensures Prepend([], table) == table
  {
    if table.Ok? {
      assert [] + table.value == table.value;
    }
  }

  lemma PrependTwice(a: seq<LocaleData>, b: seq<LocaleData>, table: Result<seq<LocaleData>>)
    ensures Prepend(a, Prepend(b, table)) == Prepend(a + b, table)
  {
    if table.Ok? {
      assert a + (b + table.value) == (a + b) + table.value;
    }
  }

  /** The static initializer's loop: every accepted line adds its entry to `data`, in order. */
  method LoadLocales(lines: seq<string>) returns (r: Result<seq<LocaleData>>)
    ensures r == LocaleTable(lines)
  {
    var data: seq<LocaleData> := [];
    var i := 0;
    assert lines[i..] == lines;
    PrependNothing(LocaleTable(lines));
    while i < |lines|
      invariant 0 <= i <= |lines|
      invariant LocaleTable(lines) == Prepend(data, LocaleTable(lines[i..]))
    {
      assert lines[i..][0] == lines[i];
      assert lines[i..][1..] == lines[i + 1..];
      match ParseLine(lines[i]) {
        case OutOfBounds =>
          assert LocaleTable(lines[i..]) == OutOfBounds;
          return OutOfBounds;
        case Ok(entry) =>
          var added := if entry.Some? then [entry.value] else [];
          PrependTwice(data, added, LocaleTable(lines[i + 1..]));
          data := data + added;
      }
      i := i + 1;
    }
    assert lines[i..] == [] && data + [] == data;
    r := Ok(data);
  }

  /** Loading fails exactly when some line throws. */
  lemma LocaleTableFails(lines: seq<string>)
    ensures LocaleTable(lines).OutOfBounds? <==>
      exists j :: 0 <= j < |lines| && ParseLine(lines[j]).OutOfBounds?
  {
    TableFails(lines, ParseLine);
  }

  lemma {:induction false} TableFails(lines: seq<string>, cut: string -> Result<Option<LocaleData>>)
    ensures Table(lines, cut).OutOfBounds? <==> exists j :: 0 <= j < |lines| && cut(lines[j]).OutOfBounds?
  {
    if lines != [] {
      TableFails(lines[1..], cut);
      if Table(lines[1..], cut).OutOfBounds? {
        var j :| 0 <= j < |lines[1..]| && cut(lines[1..][j]).OutOfBounds?;
        assert cut(lines[j + 1]).OutOfBounds?;
      }
      if exists j :: 0 <= j < |lines| && cut(lines[j]).OutOfBounds? {
        var j :| 0 <= j < |lines| && cut(lines[j]).OutOfBounds?;
        if j > 0 {
          assert cut(lines[1..][j - 1]).OutOfBounds?;
        }
      }
    }
  }

  /** A table that loads is the first line's entry, if any, followed by the table of the other lines. */
  lemma LocaleTableStep(lines: seq<string>)
    requires lines != [] && LocaleTable(lines).Ok?
    ensures ParseLine(lines[0]).Ok? && LocaleTable(lines[1..]).Ok?
    ensures Accepted(lines[0]) <==> ParseLine(lines[0]).value.Some?
    ensures LocaleTable(lines).value ==
      (if Accepted(lines[0]) then [ParseLine(lines[0]).value.value] else []) + LocaleTable(lines[1..]).value
  {
    ParseLineMeaning(lines[0]);
  }

  /**
   * A loaded table holds one entry per accepted line and nothing else, in the
   * order of the lines: `idx` gives, for each entry, the line it was cut from.
   */
  lemma LocaleTableOrder(lines: seq<string>) returns (idx: seq<nat>)
    requires LocaleTable(lines).Ok?
    ensures |idx| == |LocaleTable(lines).value|
    ensures forall k :: 0 <= k < |idx| ==>
      idx[k] < |lines| && Accepted(lines[idx[k]]) && ParseLine(lines[idx[k]]) == Ok(Some(LocaleTable(lines).value[k]))
    ensures forall k, l :: 0 <= k < l < |idx| ==> idx[k] < idx[l]
    ensures forall j :: 0 <= j < |lines| && Accepted(lines[j]) ==> j in idx
  {
    idx := TableOrder(lines, ParseLine);
    TableFails(lines, ParseLine);
    forall k | 0 <= k < |idx|
      ensures Accepted(lines[idx[k]])
    {
      ParseLineMeaning(lines[idx[k]]);
    }
    forall j | 0 <= j < |lines| && Accepted(lines[j])
      ensures j in idx
    {
      ParseLineMeaning(lines[j]);
    }
  }

  /** `idx` gives, for each entry, the line `cut` made it from, in line order, and covers every such line. */
  predicate IndexesLines(lines: seq<string>, cut: string -> Result<Option<LocaleData>>, entries: seq<LocaleData>, idx: seq<nat>) {
    && |idx| == |entries|
    && (forall k :: 0 <= k < |idx| ==> idx[k] < |lines| && cut(lines[idx[k]]) == Ok(Some(entries[k])))
    && (forall k, l :: 0 <= k < l < |idx| ==> idx[k] < idx[l])
    && (forall j :: 0 <= j < |lines| && cut(lines[j]).Ok? && cut(lines[j]).value.Some? ==> j in idx)
  }

  lemma {:induction false} TableOrder(lines: seq<string>, cut: string -> Result<Option<LocaleData>>) returns (idx: seq<nat>)
    requires Table(lines, cut).Ok?
    ensures IndexesLines(lines, cut, Table(lines, cut).value, idx)
  {
    if lines == [] {
      idx := [];
    } else {
      var rest := TableOrder(lines[1..], cut);
      var tail := Table(lines[1..], cut).value;
      var entries := Table(lines, cut).value;
      var first := cut(lines[0]).value.Some?;
      var off := if first then 1 else 0;
      idx := ShiftIndices(first, rest);
      SplitEntries(cut(lines[0]).value, tail, entries);
      ShiftedEntries(lines, cut, rest, idx, off, tail, entries);
      ShiftedCover(lines, cut, tail, rest, idx, off);
    }
  }

  lemma SplitEntries(entry: Option<LocaleData>, tail: seq<LocaleData>, entries: seq<LocaleData>)
    requires entries == (if entry.Some? then [entry.value] else []) + tail
    ensures |entries| == |tail| + (if entry.Some? then 1 else 0)
    ensures entry.Some? ==> entries[0] == entry.value
    ensures forall k :: 0 <= k < |tail| ==> entries[k + (if entry.Some? then 1 else 0)] == tail[k]
  {
  }

  lemma ShiftedEntries(lines: seq<string>, cut: string -> Result<Option<LocaleData>>, rest: seq<nat>, idx: seq<nat>,
                       off: nat, tail: seq<LocaleData>, entries: seq<LocaleData>)
    requires lines != [] && off <= 1 && |idx| == |rest| + off && |tail| == |rest| && |entries| == |idx|
    requires off == 1 ==> idx[0] == 0 && cut(lines[0]) == Ok(Some(entries[0]))
    requires forall k :: 0 <= k < |rest| ==> idx[k + off] == rest[k] + 1 && entries[k + off] == tail[k]
    requires IndexesLines(lines[1..], cut, tail, rest)
    ensures forall k :: 0 <= k < |idx| ==> idx[k] < |lines| && cut(lines[idx[k]]) == Ok(Some(entries[k]))
  {
    forall k | off <= k < |idx|
      ensures idx[k] < |lines| && cut(lines[idx[k]]) == Ok(Some(entries[k]))
    {
      var m := k - off;
      assert idx[m + off] == rest[m] + 1 && entries[m + off] == tail[m];
      assert lines[idx[k]] == lines[1..][rest[m]];
    }
  }

  lemma ShiftedCover(lines: seq<string>, cut: string -> Result<Option<LocaleData>>, tail: seq<LocaleData>,
                     rest: seq<nat>, idx: seq<nat>, off: nat)
    requires lines != []
    requires |idx| == |rest| + off
    requires cut(lines[0]).Ok? && cut(lines[0]).value.Some? ==> off == 1 && idx[0] == 0
    requires IndexesLines(lines[1..], cut, tail, rest)
    requires forall k :: 0 <= k < |rest| ==> idx[k + off] == rest[k] + 1
    ensures forall j :: 0 <= j < |lines| && cut(lines[j]).Ok? && cut(lines[j]).value.Some? ==> j in idx
  {
    forall j | 0 < j < |lines| && cut(lines[j]).Ok? && cut(lines[j]).value.Some?
      ensures j in idx
    {
      assert lines[1..][j - 1] == lines[j];
      var m :| 0 <= m < |rest| && rest[m] == j - 1;
      assert idx[m + off] == j;
    }
  }

  /** The line numbers of the other lines moved past the first line, which `first` says to include. */
  lemma ShiftIndices(first: bool, rest: seq<nat>) returns (idx: seq<nat>)
    requires forall k, l :: 0 <= k < l < |rest| ==> rest[k] < rest[l]
    ensures |idx| == |rest| + (if first then 1 else 0)
    ensures first ==> idx[0] == 0
    ensures forall k :: 0 <= k < |rest| ==> idx[k + (if first then 1 else 0)] == rest[k] + 1
    ensures forall k, l :: 0 <= k < l < |idx| ==> idx[k] < idx[l]
  {
    var shifted := seq(|rest|, k requires 0 <= k < |rest| => rest[k] + 1);
    idx := if first then [0] + shifted else shifted;
  }

  /** The device locale starts with the entry's language and ends with its country. */
  predicate LocaleMatches(ld: LocaleData, deviceLocale: string) {
    StartsWith(deviceLocale, ld.language) && EndsWith(deviceLocale, ld.county)
  }

  /**
   * The loop of updateFromDevice that picks the chooser index for the device's
   * persist.sys.locale: the first matching entry, and none for a null locale.
   */
  method FindLocaleIndex(locales: seq<LocaleData>, deviceLocale: Option<string>) returns (toSelect: Option<nat>)
    ensures toSelect.None? <==>
      deviceLocale.None? || forall j :: 0 <= j < |locales| ==> !LocaleMatches(locales[j], deviceLocale.value)
    ensures toSelect.Some? ==>
      && deviceLocale.Some?
      && toSelect.value < |locales|
      && LocaleMatches(locales[toSelect.value], deviceLocale.value)
      && forall j :: 0 <= j < toSelect.value ==> !LocaleMatches(locales[j], deviceLocale.value)
  {
    toSelect := None;
    var i := 0;
    while i < |locales|
      invariant 0 <= i <= |locales|
      invariant toSelect.None?
      invariant deviceLocale.Some? ==> forall j :: 0 <= j < i ==> !LocaleMatches(locales[j], deviceLocale.value)
    {
      var ld := locales[i];
      if deviceLocale.Some? && StartsWith(deviceLocale.value, ld.language) && EndsWith(deviceLocale.value, ld.county) {
        toSelect := Some(i);
        break;
      }
      i := i + 1;
    }
  }
}
