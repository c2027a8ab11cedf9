# Android Device Controller tool window, modelled in Dafny

The Android Device Controller plug-in adds a tool window to Android Studio. From it a developer picks a connected device. With that device selected, the window can:

- toggle the device's layout-bounds overlay;
- switch the device's locale, through a small enabler app;
- jump to the source of the activity on screen;
- type text on the device.

All of this lives in `ToolWindowFactory.java`. Each action builds a shell command line, sends it to the device over the debug bridge, and reads back the text the command printed.

This project models the parts of that class that compute something:

- `JavaStrings`: the `java.lang.String` operations the class relies on, with Java's edge cases.
  - `indexOf` answers -1 when the needle is absent.
  - `substring` throws `StringIndexOutOfBoundsException`, modelled as the `OutOfBounds` result.
  - `replace` with a one-character target replaces every occurrence.
- `ShellWords`: how a command line built by joining words with spaces splits back into words, and which of them the device shell passes on as arguments. Its field splitting drops the empty words that a doubled or trailing space leaves. This is the reference that the command builders are checked against.
- `Locales`: the static initializer that loads `locales.txt` into the locale table, and the loop that selects the device's current locale in that table.
  - The lines of the file are an input.
  - One line whose `substring` calls throw makes the whole class initialisation fail.
- `Commands`: the command lines for the layout-bounds checkbox, the locale broadcast and the text input, including how the typed text is escaped.
- `Activity`: cutting the resumed activity's class name out of the output of `dumpsys activity top`.
- `ShellOutput`: the `StringShellOutputReceiver` that collects a command's output. It is a class with one mutable text field.
- `Devices`: building the device combo box, finding the selected device again by name, and the guard and device loop of `executeShellCommand`.

## Model

| member | source | states |
|---|---|---|
| JavaStrings.IndexOf | Plugin/src/de/mobilej/plugin/adc/ToolWindowFactory.java:72 | `indexOf` is -1 exactly when the needle occurs nowhere; otherwise the needle occurs at the result and at no earlier index |
| JavaStrings.IndexOfChar | Plugin/src/de/mobilej/plugin/adc/ToolWindowFactory.java:72-74 | for a one-character needle, `indexOf` is -1 exactly when the character is absent; otherwise it is the position of the character's first occurrence |
| JavaStrings.Substring | Plugin/src/de/mobilej/plugin/adc/ToolWindowFactory.java:73-75 | `substring(b, e)` succeeds exactly when 0 <= b <= e <= length, and then answers the e - b characters starting at b |
| JavaStrings.SubstringFrom | Plugin/src/de/mobilej/plugin/adc/ToolWindowFactory.java:256-259 | `substring(b)` succeeds exactly when 0 <= b <= length, and then answers the rest of the text after its first b characters |
| JavaStrings.StartsWith | Plugin/src/de/mobilej/plugin/adc/ToolWindowFactory.java:335 | `startsWith(p)` holds exactly when p is no longer than the text and agrees with it character by character from the front |
| JavaStrings.EndsWith | Plugin/src/de/mobilej/plugin/adc/ToolWindowFactory.java:335 | `endsWith(p)` holds exactly when p is no longer than the text and agrees with its last characters |
| JavaStrings.Replace | Plugin/src/de/mobilej/plugin/adc/ToolWindowFactory.java:299 | `replace(c, r)` replaces every occurrence of c by r: each occurrence adds the length of r minus one to the length, and c is gone when r does not contain it |
| JavaStrings.ReplaceConcat | Plugin/src/de/mobilej/plugin/adc/ToolWindowFactory.java:299 | `replace` on a concatenation is the concatenation of the replaced pieces |
| Locales.Accepted | Plugin/src/de/mobilej/plugin/adc/ToolWindowFactory.java:72 | the guard `indexOf("_") > 0 && indexOf("[") > 0` of the loading loop; its meaning is stated by Locales.AcceptedMeaning |
| Locales.ParseLine | Plugin/src/de/mobilej/plugin/adc/ToolWindowFactory.java:72-77 | one pass of the loading loop: skip, entry or throw, with the three `substring` cuts of lines 73-75; its meaning is stated by Locales.ParseLineMeaning |
| Locales.LocaleTable | Plugin/src/de/mobilej/plugin/adc/ToolWindowFactory.java:64-84 | the table the static initializer leaves in LOCALES, or a failed initialisation; computed by Locales.LoadLocales and described by Locales.LocaleTableOrder and Locales.LocaleTableFails |
| Locales.AcceptedMeaning | Plugin/src/de/mobilej/plugin/adc/ToolWindowFactory.java:72 | a line passes the guard exactly when it contains both '_' and '[' and starts with neither, i.e. both first occur at an index above 0 |
| Locales.ParseLineMeaning | Plugin/src/de/mobilej/plugin/adc/ToolWindowFactory.java:72-77 | a line failing the guard is skipped. An accepted line throws unless a space exists, none precedes the first '_', and a '[' precedes the last character. Otherwise the entry's language is the text before the first '_', its country the text between that '_' and the first space, and its name the text after the first '[' without the last character |
| Locales.LoadLocales | Plugin/src/de/mobilej/plugin/adc/ToolWindowFactory.java:64-84 | the loading loop appends each line's entry in turn and yields exactly the table `LocaleTable` describes, failure included |
| Locales.LocaleTableFails | Plugin/src/de/mobilej/plugin/adc/ToolWindowFactory.java:71-79 | loading fails exactly when some line's `substring` calls throw |
| Locales.LocaleTableStep | Plugin/src/de/mobilej/plugin/adc/ToolWindowFactory.java:71-79 | in a table that loads, the first line contributes an entry exactly when it passes the guard, and the rest of the table comes from the later lines |
| Locales.LocaleTableOrder | Plugin/src/de/mobilej/plugin/adc/ToolWindowFactory.java:71-83 | a loaded table has one entry per accepted line and no other entries, each parsed from its line, in strictly increasing line order |
| Locales.FindLocaleIndex | Plugin/src/de/mobilej/plugin/adc/ToolWindowFactory.java:332-342 | the selected index is that of the first entry whose language is a prefix and whose country is a suffix of the device locale; nothing is selected for a null locale or when no entry matches |
| Commands.LayoutBoundsCommand | Plugin/src/de/mobilej/plugin/adc/ToolWindowFactory.java:205-206 | the command the checkbox sends; its arguments are stated by Commands.LayoutBoundsCommandWords |
| Commands.LayoutBoundsShown | Plugin/src/de/mobilej/plugin/adc/ToolWindowFactory.java:326-330 | the checkbox is set exactly when the property read back is "true"; see Commands.LayoutBoundsRoundTrip |
| Commands.LocaleCommand | Plugin/src/de/mobilej/plugin/adc/ToolWindowFactory.java:232 | the locale broadcast; its arguments are stated by Commands.LocaleCommandIsJoin and Commands.LocaleCommandWords |
| Commands.Escape | Plugin/src/de/mobilej/plugin/adc/ToolWindowFactory.java:299 | the two `replace` calls as written; their effect is stated by Commands.TwoReplacesEscapeEach and Commands.EscapeShape |
| Commands.InputTextCommand | Plugin/src/de/mobilej/plugin/adc/ToolWindowFactory.java:300 | the command that types the text; its shape is stated by Commands.InputTextCommandShape |
| Commands.LayoutBoundsCommandWords | Plugin/src/de/mobilej/plugin/adc/ToolWindowFactory.java:205-206 | the checkbox command is `setprop` with the arguments `debug.layout` and either `true` (selected) or `""` (cleared) |
| Commands.LayoutBoundsRoundTrip | Plugin/src/de/mobilej/plugin/adc/ToolWindowFactory.java:326-330 | the checkbox command reaches the shell as three arguments. Reading back its third argument, or the value the shell stores for it, restores the checkbox the command came from. Any property other than exactly "true", null included, clears the checkbox |
| Commands.LocaleCommandIsJoin | Plugin/src/de/mobilej/plugin/adc/ToolWindowFactory.java:232 | the locale broadcast is its ten arguments joined with single spaces |
| Commands.LocaleCommandWords | Plugin/src/de/mobilej/plugin/adc/ToolWindowFactory.java:232 | when the language and the country contain no space, the broadcast splits at its spaces into exactly the ten words `am start -a SETMYLOCALE --es language <language> --es country <country>`, empty ones included |
| Commands.LoadedLocaleCommandWords | Plugin/src/de/mobilej/plugin/adc/ToolWindowFactory.java:232 | for every entry loaded from locales.txt, the broadcast splits at its spaces into ten words, the seventh the language and the tenth the country |
| Commands.LocaleCommandArguments | Plugin/src/de/mobilej/plugin/adc/ToolWindowFactory.java:232 | when the language and the country contain no space, the shell passes `am start -a SETMYLOCALE --es language`, then the language unless it is empty, then `--es country`, then the country unless it is empty |
| Commands.LoadedLocaleArguments | Plugin/src/de/mobilej/plugin/adc/ToolWindowFactory.java:232 | for every entry loaded from locales.txt, the language is the seventh argument the shell passes. A non-empty country is the tenth of ten; an empty country leaves nine arguments, the last being `country` with no value |
| Commands.EmptyCountryBroadcast | Plugin/src/de/mobilej/plugin/adc/ToolWindowFactory.java:232 | the line `en_ [English]` loads as language `en` with an empty country, and its broadcast reaches the device with nine arguments |
| Commands.TwoReplacesEscapeEach | Plugin/src/de/mobilej/plugin/adc/ToolWindowFactory.java:299 | doubling backslashes and then replacing double quotes is the same as escaping each character on its own |
| Commands.EscapeShape | Plugin/src/de/mobilej/plugin/adc/ToolWindowFactory.java:299 | the escaped text contains no double quote; its length is the text's length plus its number of backslashes |
| Commands.InputTextCommandShape | Plugin/src/de/mobilej/plugin/adc/ToolWindowFactory.java:300 | the command starts with `input text "` and ends with `"`; those two are its only double quotes; its length is 13 plus the text's length plus its backslash count |
| Commands.EscapeLosesQuotes | Plugin/src/de/mobilej/plugin/adc/ToolWindowFactory.java:299 | as written, `""` and a single backslash escape alike. A single `"` gives the command `input text "\"`, and the shell does not read the escaped text back as the original |
| Commands.UnescapeEscapeIntended | Plugin/src/de/mobilej/plugin/adc/ToolWindowFactory.java:299 | with a double quote escaped as backslash followed by double quote, the shell reads back exactly the typed text |
| Activity.ActivityStart | Plugin/src/de/mobilej/plugin/adc/ToolWindowFactory.java:256 | the name starts 9 characters after the first "ACTIVITY "; with no marker it starts at 8 |
| Activity.ActivityToken | Plugin/src/de/mobilej/plugin/adc/ToolWindowFactory.java:256-257 | the component name is cut out exactly when the start is within the output and a space follows it; the name is the space-free text up to the first such space |
| Activity.QualifiedClassName | Plugin/src/de/mobilej/plugin/adc/ToolWindowFactory.java:258-262 | splitting the component at '/' succeeds exactly when it contains a '/' |
| Activity.QualifiedClassNameOf | Plugin/src/de/mobilej/plugin/adc/ToolWindowFactory.java:258-262 | `pkg/cls` with no '/' in `pkg` gives `cls`, prefixed by `pkg` when `cls` starts with '.' |
| Activity.ActivityClassName | Plugin/src/de/mobilej/plugin/adc/ToolWindowFactory.java:256-262 | a class name is found exactly when a component name is cut out and it contains a '/' |
| Activity.ClassToOpen | Plugin/src/de/mobilej/plugin/adc/ToolWindowFactory.java:250-262 | a null output, or one that makes the extraction throw, leads nowhere; otherwise the button looks up the extracted class name |
| Activity.ActivityClassNameOf | Plugin/src/de/mobilej/plugin/adc/ToolWindowFactory.java:256-262 | the dump `… ACTIVITY pkg/cls …`, with that marker the first one, leads to `cls`, qualified by `pkg` when `cls` starts with '.' |
| ShellOutput.Decode | Plugin/src/de/mobilej/plugin/adc/ToolWindowFactory.java:104 | each byte becomes one character whose code is the byte's unsigned value |
| ShellOutput.EncodeDecode | Plugin/src/de/mobilej/plugin/adc/ToolWindowFactory.java:104 | under one-byte-per-character decoding, no byte is lost: encoding the decoded text gives the bytes back |
| ShellOutput.DecodeEncode | Plugin/src/de/mobilej/plugin/adc/ToolWindowFactory.java:104 | decoding the encoding of a text of characters below 256 gives the text back |
| ShellOutput.DecodeConcat | Plugin/src/de/mobilej/plugin/adc/ToolWindowFactory.java:103-105 | under one-byte-per-character decoding, decoding works chunk by chunk, so the collected text does not depend on how the output is split |
| ShellOutput.StringShellOutputReceiver.constructor | Plugin/src/de/mobilej/plugin/adc/ToolWindowFactory.java:92 | a new receiver holds the empty text |
| ShellOutput.StringShellOutputReceiver.Reset | Plugin/src/de/mobilej/plugin/adc/ToolWindowFactory.java:94-96 | after reset the receiver holds the empty text |
| ShellOutput.StringShellOutputReceiver.GetResult | Plugin/src/de/mobilej/plugin/adc/ToolWindowFactory.java:98-100 | answers the text collected so far and changes nothing |
| ShellOutput.StringShellOutputReceiver.AddOutput | Plugin/src/de/mobilej/plugin/adc/ToolWindowFactory.java:103-105 | appends exactly the decoded `bytes[i..i+n]`; the earlier text stays as a prefix, and the text grows by `n` characters |
| ShellOutput.StringShellOutputReceiver.Flush | Plugin/src/de/mobilej/plugin/adc/ToolWindowFactory.java:107-110 | flushing does nothing: the receiver holds nothing back, and the method changes no state |
| ShellOutput.StringShellOutputReceiver.IsCancelled | Plugin/src/de/mobilej/plugin/adc/ToolWindowFactory.java:113-115 | the receiver never cancels |
| ShellOutput.ReceiveTwoChunks | Plugin/src/de/mobilej/plugin/adc/ToolWindowFactory.java:412-414 | under one-byte-per-character decoding, output that arrives in two chunks after a reset reads back as the decoding of the whole output |
| Devices.DeviceComboItems | Plugin/src/de/mobilej/plugin/adc/ToolWindowFactory.java:388-394 | the combo box lists "-- none --" and then each device name in bridge order: one item more than there are devices |
| Devices.GetSelectedDevice | Plugin/src/de/mobilej/plugin/adc/ToolWindowFactory.java:459-467 | answers the first device whose name equals the selection, or null when no device has that name |
| Devices.ShellCommandAllowed | Plugin/src/de/mobilej/plugin/adc/ToolWindowFactory.java:398-404 | a command is sent only while a user action runs and the selected index is not 0, the placeholder; used by Devices.ExecuteShellCommand |
| Devices.ExecuteShellCommand | Plugin/src/de/mobilej/plugin/adc/ToolWindowFactory.java:397-425 | null unless a user action is running and a device other than the placeholder is selected. Otherwise the result is the output of the last device with the selected name whose run did not throw, or null if there is none |

## Left out

- Swing and IntelliJ wiring is not modelled, because it is UI and threading. This covers panel layout, listeners, progress indicators, `invokeLater` hand-offs, and enabling and disabling the controls.
- The debug-bridge connection and the device-change callbacks are not modelled, because they are I/O through ddmlib.
- `Devices.ExecuteShellCommand`: the device I/O is a parameter, one output per device, none when the run threw. Also not modelled:
  - the follow-up `am start -a POKESYSPROPS` broadcast, whose output is not part of the result;
  - the stack traces printed for exceptions.
- Devices are represented by their names (`toString`) and their position in the bridge's list.
- The first combo item shown before any device is listed is taken from the resource bundle, line 188. Its text is not modelled.
- `getSysPropFromDevice` is not modelled, because it is device I/O. The property it reads is an input, null when unreadable.
- `installEnablerApk` is not modelled, because it is temp-file copying, package installation and a shell grant, all of them I/O.
- Opening the class found by "go to activity" (`findClass`, the editor, the warning dialog) is not modelled, because it is IDE API. The model ends with the class name that is looked up.
- `Locales.LoadLocales`: the lines of `locales.txt` are an input. The following are not modelled:
  - reading the resource;
  - `LineReader`'s line splitting;
  - an `IOException` midway, which would keep the entries read so far;
  - a missing resource.
- `ShellOutput.Decode`: `new String(bytes, i, n)` uses the platform's default charset. The model decodes one character per byte, as ISO-8859-1 does; multi-byte charsets are not modelled.
- ShellOutput.DecodeConcat, ShellOutput.ReceiveTwoChunks, ShellOutput.EncodeDecode: split independence and the byte round trip hold for the one-byte-per-character decoding of the model only. With a multi-byte default charset such as UTF-8, the plug-in decodes each chunk on its own. A character whose bytes are split across two `addOutput` calls then comes out as two or more replacement characters (U+FFFD), and malformed bytes are not recovered.
- ShellOutput.StringShellOutputReceiver.AddOutput: a range outside the array is excluded by a precondition. In the plug-in, `new String(bytes, i, n)` throws `IndexOutOfBoundsException` for it. The debug bridge never passes such a range.
- Devices.GetSelectedDevice, Devices.ExecuteShellCommand: the selection is a string, never null. In the plug-in, `getSelectedItem()` is null when nothing is selected (index -1). That index passes the placeholder guard, and `selDevice.equals` then throws `NullPointerException` as soon as a device exists. The model does not capture this throw.
- Characters are Unicode scalar values, whereas Java strings count UTF-16 code units. Lengths and indexes differ for characters outside the Basic Multilingual Plane. For example, a locale line whose last character is such a character keeps a lone high surrogate at the end of the name in the plug-in, while Locales.NameOfLine drops the whole character.
- `ShellWords.Arguments` models only the shell's field splitting at spaces; quote removal and the shell's other expansions are not modelled. For that reason, the empty value of the layout-bounds command is stated as the word `""`, and `Commands.LayoutBoundsValue` gives the value the shell stores for it.
- Commands.LayoutBoundsRoundTrip: the third argument is read back as the word `""` itself rather than the empty string that quote removal leaves. Both differ from "true", and the lemma states the round trip for both.
- `Commands.Unescape` models only the backslash escapes inside a double-quoted shell word. `Commands.EscapeIntended` therefore does not protect `$` or backquotes; the plug-in does not either.
- The Enabler app (`SystemPropPokerActivity.java`, `SetLocaleActivity.java`) is not part of this model. It calls into Android platform internals by reflection.
- `Configuration.java` is not part of this model. It is IDE settings plumbing over a storage service whose source is not available.

## Findings

| source | as written | input that shows it | evidently intended | confidence | as-written member | corrected member |
|---|---|---|---|---|---|---|
| Plugin/src/de/mobilej/plugin/adc/ToolWindowFactory.java:299 | `replace("\"", "\\")` turns every double quote into a lone backslash | the text `"` gives `input text "\"`: the closing quote is escaped and the quote itself is lost. The texts `""` and `\` give the same command | a double quote becomes backslash followed by double quote, so the shell reads back exactly the typed text | not executed | Commands.EscapeLosesQuotes | Commands.UnescapeEscapeIntended |
