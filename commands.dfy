/**
 * The shell command lines the tool window sends to the device: the layout-bounds
 * property, the locale broadcast to the enabler app and the text typed on the device.
 */
module Commands {
  import opened JavaStrings
  import opened ShellWords
  import Locales

  // ---------------------------------------------------------------- layout bounds

  /** The command the "show layout bounds" checkbox sends when it is toggled. */
  function LayoutBoundsCommand(selected: bool): string {
    "setprop debug.layout " + (if selected then "true" else "\"\"")
  }

  /** The value debug.layout holds after the command ran: the shell turns `""` into the empty string. */
  function LayoutBoundsValue(selected: bool): string {
    if selected then "true" else ""
  }

  /** The checkbox state read back from a device's debug.layout property (null when unreadable). */
  predicate LayoutBoundsShown(property: Option<string>) {
    property == Some("true")
  }

  /** The command is `setprop` with two arguments: the property and "true" or an empty quoted word. */
  lemma LayoutBoundsCommandWords(selected: bool)
    ensures Words(LayoutBoundsCommand(selected)) ==
      ["setprop", "debug.layout", if selected then "true" else "\"\""]
  {
    var value := if selected then "true" else "\"\"";
    var ws := ["setprop", "debug.layout"] + [value];
    JoinAppend(["setprop", "debug.layout"], [value]);
    assert Join(["setprop", "debug.layout"]) + " " == "setprop debug.layout ";
    WordsJoin(ws);
  }

  /**
   * Reading the property back restores the checkbox the command came from, whether
   * the value read is the command's third argument as sent or the value the shell
   * stores for it; any value other than exactly "true", null included, clears it.
   */
  lemma LayoutBoundsRoundTrip(selected: bool, property: Option<string>)
    ensures |Arguments(LayoutBoundsCommand(selected))| == 3
    ensures LayoutBoundsShown(Some(Arguments(LayoutBoundsCommand(selected))[2])) == selected
    ensures LayoutBoundsShown(Some(LayoutBoundsValue(selected))) == selected
    ensures property != Some("true") ==> !LayoutBoundsShown(property)
  {
    LayoutBoundsCommandWords(selected);
    var ws := Words(LayoutBoundsCommand(selected));
    assert ws[0] != "" && ws[1] != "" && ws[2] != "";
    FieldsNonEmpty(ws);
  }

  // ---------------------------------------------------------------- locale

  /** The broadcast that asks the enabler app to switch to the chosen locale. */
  function LocaleCommand(ld: Locales.LocaleData): string {
    "am start -a SETMYLOCALE --es language " + ld.language + " --es country " + ld.county
  }

  /** The argument list of the locale broadcast. */
  function LocaleArguments(ld: Locales.LocaleData): seq<string> {
    ["am", "start", "-a", "SETMYLOCALE", "--es", "language", ld.language, "--es", "country", ld.county]
  }

  /** The broadcast is its argument list joined with spaces. */
  lemma LocaleCommandIsJoin(ld: Locales.LocaleData)
    ensures Join(LocaleArguments(ld)) == LocaleCommand(ld)
  {
    var action := ["am", "start", "-a", "SETMYLOCALE", "--es", "language"];
    var extra := ["--es", "country"];
    LocaleArgumentsSplit(ld);
    JoinAround(action, extra, ld.language, ld.county);
    LocaleActionJoin();
    LocaleExtraJoin();
    LocaleCommandSpelling(ld);
    JoinChain(LocaleArguments(ld), action, extra, ld.language, ld.county,
      "am start -a SETMYLOCALE --es language", "--es country", LocaleCommand(ld));
  }

  lemma LocaleArgumentsSplit(ld: Locales.LocaleData)
    ensures LocaleArguments(ld) ==
      ["am", "start", "-a", "SETMYLOCALE", "--es", "language"] + ([ld.language] + (["--es", "country"] + [ld.county]))
  {
  }

  lemma LocaleExtraJoin()
    ensures Join(["--es", "country"]) == "--es country"
  {
    assert ["--es", "country"][1..] == ["country"];
  }

  /** Joining the arguments step by step, with each step's result already known. */
  lemma JoinChain(args: seq<string>, front: seq<string>, middle: seq<string>, a: string, b: string,
                  frontText: string, middleText: string, cmd: string)
    requires |front| >= 1 && |middle| >= 1 && args == front + ([a] + (middle + [b]))
    requires Join(front + ([a] + (middle + [b]))) == Join(front) + " " + (a + " " + (Join(middle) + " " + b))
    requires Join(front) == frontText && Join(middle) == middleText
    requires frontText + " " + (a + " " + (middleText + " " + b)) == cmd
    ensures Join(args) == cmd
  {
  }

  /** Two lists of words with one word after each, joined. */
  lemma JoinAround(front: seq<string>, middle: seq<string>, a: string, b: string)
    requires |front| >= 1 && |middle| >= 1
    ensures Join(front + ([a] + (middle + [b]))) == Join(front) + " " + (a + " " + (Join(middle) + " " + b))
  {
    JoinAppend(middle, [b]);
    JoinAppend([a], middle + [b]);
    JoinAppend(front, [a] + (middle + [b]));
  }

  lemma LocaleActionJoin()
    ensures Join(["am", "start", "-a", "SETMYLOCALE", "--es", "language"]) == "am start -a SETMYLOCALE --es language"
  {
    LocaleActionJoinOf(["am", "start", "-a", "SETMYLOCALE", "--es", "language"]);
  }

  lemma LocaleActionJoinOf(action: seq<string>)
    requires action == ["am", "start", "-a", "SETMYLOCALE", "--es", "language"]
    ensures Join(action) == "am start -a SETMYLOCALE --es language"
  {
    var front, back := action[..3], action[3..];
    assert front + back == action;
    JoinAppend(front, back);
    JoinThree(front[0], front[1], front[2]);
    JoinThree(back[0], back[1], back[2]);
    assert front == [front[0], front[1], front[2]] && back == [back[0], back[1], back[2]];
    assert front[0] == "am" && front[1] == "start" && front[2] == "-a";
    assert back[0] == "SETMYLOCALE" && back[1] == "--es" && back[2] == "language";
    LocaleActionSpelling();
  }

  lemma LocaleActionSpelling()
    ensures "am" + " " + ("start" + " " + "-a") + " " + ("SETMYLOCALE" + " " + ("--es" + " " + "language"))
      == "am start -a SETMYLOCALE --es language"
  {
  }

  lemma JoinThree(a: string, b: string, c: string)
    ensures Join([a, b, c]) == a + " " + (b + " " + c)
  {
    assert [a, b, c][1..] == [b, c];
    assert [b, c][1..] == [c];
    assert Join([b, c]) == b + " " + c;
  }

  lemma LocaleCommandSpelling(ld: Locales.LocaleData)
    ensures "am start -a SETMYLOCALE --es language" + " " + (ld.language + " " + ("--es country" + " " + ld.county)) ==
      LocaleCommand(ld)
  {
  }

  /** The arguments the device sees, when language and country hold no space. */
  lemma LocaleCommandWords(ld: Locales.LocaleData)
    requires ' ' !in ld.language && ' ' !in ld.county
    ensures Words(LocaleCommand(ld)) ==
      ["am", "start", "-a", "SETMYLOCALE", "--es", "language", ld.language, "--es", "country", ld.county]
  {
    LocaleCommandIsJoin(ld);
    WordsJoin(LocaleArguments(ld));
  }

  /**
   * The arguments the device's shell passes for the broadcast: an empty language or
   * country is dropped by field splitting, so its key is left without a value.
   */
  lemma LocaleCommandArguments(ld: Locales.LocaleData)
    requires ' ' !in ld.language && ' ' !in ld.county
    ensures Arguments(LocaleCommand(ld)) ==
      ["am", "start", "-a", "SETMYLOCALE", "--es", "language"] + ((if ld.language == "" then [] else [ld.language]) +
      (["--es", "country"] + (if ld.county == "" then [] else [ld.county])))
  {
    LocaleCommandWords(ld);
    LocaleArgumentsSplit(ld);
    FieldsAround(["am", "start", "-a", "SETMYLOCALE", "--es", "language"], ["--es", "country"], ld.language, ld.county);
  }

  /** Field splitting keeps two lists of non-empty words and drops each word after them that is empty. */
  lemma FieldsAround(front: seq<string>, middle: seq<string>, a: string, b: string)
    requires forall k :: 0 <= k < |front| ==> front[k] != ""
    requires forall k :: 0 <= k < |middle| ==> middle[k] != ""
    ensures Fields(front + ([a] + (middle + [b]))) ==
      front + ((if a == "" then [] else [a]) + (middle + (if b == "" then [] else [b])))
  {
    var fa, fb := Fields([a]), Fields([b]);
    FieldsOne(a);
    FieldsOne(b);
    FieldsNonEmpty(middle);
    FieldsAppend(middle, [b]);
    assert Fields(middle + [b]) == middle + fb;
    FieldsAppend([a], middle + [b]);
    assert Fields([a] + (middle + [b])) == fa + (middle + fb);
    FieldsNonEmpty(front);
    FieldsAppend(front, [a] + (middle + [b]));
  }

  lemma FieldsOne(w: string)
    ensures Fields([w]) == if w == "" then [] else [w]
  {
    assert [w][1..] == [];
  }

  /**
   * A loaded entry reaches the enabler app with its language as the seventh argument.
   * Its country is the tenth argument when it is not empty; an empty country, which
   * a line such as `en_ [English]` gives, leaves nine arguments ending in `country`.
   */
  lemma LoadedLocaleArguments(line: string, ld: Locales.LocaleData)
    requires Locales.ParseLine(line) == Ok(Some(ld))
    ensures |Arguments(LocaleCommand(ld))| == if ld.county == "" then 9 else 10
    ensures Arguments(LocaleCommand(ld))[6] == ld.language
    ensures Arguments(LocaleCommand(ld))[8] == "country"
    ensures ld.county != "" ==> Arguments(LocaleCommand(ld))[9] == ld.county
  {
    Locales.ParseLineMeaning(line);
    assert Locales.EntryOfLine(line, ld);
    LocaleCommandArguments(ld);
  }

  /** The line `en_ [English]` loads with an empty country, and its broadcast carries nine arguments. */
  lemma EmptyCountryBroadcast()
    ensures Locales.ParseLine("en_ [English]") == Ok(Some(Locales.LocaleData("English", "en", "")))
    ensures |Arguments(LocaleCommand(Locales.LocaleData("English", "en", "")))| == 9
  {
    EmptyCountryLine("en_ [English]");
    LocaleCommandArguments(Locales.LocaleData("English", "en", ""));
  }

  lemma EmptyCountryLine(line: string)
    requires line == "en_ [English]"
    ensures Locales.ParseLine(line) == Ok(Some(Locales.LocaleData("English", "en", "")))
  {
    FirstAt(line, '_', 2);
    FirstAt(line, ' ', 3);
    FirstAt(line, '[', 4);
    assert line[..2] == "en" && line[3..3] == "" && line[5..12] == "English";
  }

  /** A character found at k and nowhere before is what indexOf answers. */
  lemma FirstAt(s: string, c: char, k: int)
    requires 0 <= k < |s| && s[k] == c && c !in s[..k]
    ensures IndexOf(s, [c]) == k
  {
    IndexOfChar(s, c);
  }

  /** Every entry loaded from locales.txt splits into ten words with its language and country intact. */
  lemma LoadedLocaleCommandWords(line: string, ld: Locales.LocaleData)
    requires Locales.ParseLine(line) == Ok(Some(ld))
    ensures |Words(LocaleCommand(ld))| == 10
    ensures Words(LocaleCommand(ld))[6] == ld.language
    ensures Words(LocaleCommand(ld))[9] == ld.county
  {
    Locales.ParseLineMeaning(line);
    assert Locales.EntryOfLine(line, ld);
    LocaleCommandWords(ld);
  }

  // ---------------------------------------------------------------- input text

  /** The escaping applied to the text typed on the device, as written: two replace calls. */
  function Escape(text: string): string {
    Replace(Replace(text, '\\', "\\\\"), '\"', "\\")
  }

  /** What one character of the text becomes when `quote` replaces a double quote. */
  function EscapedChar(c: char, quote: string): string {
    if c == '\\' then "\\\\" else if c == '\"' then quote else [c]
  }

  /** Character-by-character escaping, the reference for the two replace calls. */
  function EscapeEach(text: string, quote: string): string {
    if text == [] then [] else EscapedChar(text[0], quote) + EscapeEach(text[1..], quote)
  }

  /** Doubling backslashes, then replacing quotes, escapes each character on its own. */
  lemma {:induction false} TwoReplacesEscapeEach(text: string, quote: string)
    ensures Replace(Replace(text, '\\', "\\\\"), '\"', quote) == EscapeEach(text, quote)
  {
    if text != [] {
      var c := text[0];
      var first := Replace([c], '\\', "\\\\");
      assert [c] + text[1..] == text;
      ReplaceConcat([c], text[1..], '\\', "\\\\");
      ReplaceConcat(first, Replace(text[1..], '\\', "\\\\"), '\"', quote);
      TwoReplacesEscapeEach(text[1..], quote);
      if c == '\\' {
        assert first == "\\\\";
        assert Replace(first, '\"', quote) == "\\\\";
      } else {
        assert first == [c];
      }
    }
  }

  /** Escaping as written leaves no double quote and adds one character per backslash. */
  lemma {:induction false} EscapeShape(text: string)
    ensures '\"' !in Escape(text)
    ensures |Escape(text)| == |text| + Count(text, '\\')
  {
    TwoReplacesEscapeEach(text, "\\");
    EscapeEachShape(text);
  }

  lemma {:induction false} EscapeEachShape(text: string)
    ensures '\"' !in EscapeEach(text, "\\")
    ensures |EscapeEach(text, "\\")| == |text| + Count(text, '\\')
  {
    if text != [] {
      EscapeEachShape(text[1..]);
    }
  }

  /** The command that types `text` on the device. */
  function InputTextCommand(text: string): string {
    "input text \"" + Escape(text) + "\""
  }

  /**
   * The command is `input text "…"` around the escaped text: its only double
   * quotes are the two delimiters, and it is 13 characters longer than the
   * text plus one per backslash.
   */
  lemma InputTextCommandShape(text: string)
    ensures var cmd := InputTextCommand(text);
      && "input text \"" <= cmd
      && cmd[|cmd| - 1] == '\"'
      && |cmd| == |text| + Count(text, '\\') + 13
      && forall k :: 0 <= k < |cmd| && cmd[k] == '\"' ==> k == 11 || k == |cmd| - 1
  {
    EscapeShape(text);
  }

  // ---------------------------------------------------------------- the escaping finding

  /**
   * The shell's reading of a double-quoted word: a backslash before a backslash
   * or a double quote stands for that character; any other backslash is kept.
   */
  function Unescape(s: string): string {
    if |s| >= 2 && s[0] == '\\' && (s[1] == '\\' || s[1] == '\"') then [s[1]] + Unescape(s[2..])
    else if s == [] then []
    else [s[0]] + Unescape(s[1..])
  }

  /**
   * As written, a double quote becomes a lone backslash: two different texts
   * give the same command, and a text ending in a quote gives a command whose
   * closing quote is escaped.
   */
  lemma EscapeLosesQuotes()
    ensures Escape("\"\"") == Escape("\\")
    ensures InputTextCommand("\"") == "input text \"\\\""
    ensures Unescape(Escape("\"")) != "\""
  {
  }

  /** The escaping evidently intended: a double quote becomes backslash, double quote. */
  function EscapeIntended(text: string): string {
    Replace(Replace(text, '\\', "\\\\"), '\"', "\\\"")
  }

  /** The shell recovers exactly the typed text from the intended escaping. */
  lemma UnescapeEscapeIntended(text: string)
    ensures Unescape(EscapeIntended(text)) == text
  {
    TwoReplacesEscapeEach(text, "\\\"");
    UnescapeEscapeEach(text);
  }

  lemma {:induction false} UnescapeEscapeEach(text: string)
    ensures Unescape(EscapeEach(text, "\\\"")) == text
  {
    if text != [] {
      var c := text[0];
      var rest := EscapeEach(text[1..], "\\\"");
      var s := EscapedChar(c, "\\\"") + rest;
      UnescapeEscapeEach(text[1..]);
      if c == '\\' || c == '\"' {
        assert s[0] == '\\' && s[1] == c && s[2..] == rest;
      } else {
        assert s[0] == c && s[1..] == rest;
      }
      assert [c] + text[1..] == text;
    }
  }
}
