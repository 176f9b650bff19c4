# BravoLights configuration parser and light controller, in Dafny

BravoLights drives the lights of a flight-simulator hardware panel from the simulator's
state. Its configuration is an INI-like text: section headers such as `[Default, A320]`
name one or more sections at once, and assignments `key = value`, `key &= value`,
`key += value` and `key |= value` set a key in every section of the latest header. The
composing operators combine the value with what the section named `Default` already
holds for that key (`d AND v` for `&=`, `d OR v` for `+=` and `|=`).

This project models the parser (`IniFile`, `IniSection`) and the global light controller
(`GlobalLightController`) and proves their behaviour:

- `wrappers.dfy` — `Option`.
- `text.dfy` (module `Text`) — whitespace, `Trim`, `TrimStart`, `TrimEnd`, character search
  and `Split` on one character, with `Trim` characterised uniquely and `Split` proved to be
  undone by joining.
- `scanner.dfy` (module `LineScanner`) — a hand-written scanner standing in for the two
  regular expressions `\[(.*)\]` and `^(.*?)\s*([+|&]?=)\s*(.*)$`, proved to return what
  their leftmost, greedy (lazy for the key) match captures, and `Classify`, which sorts a
  raw line into comment, blank, header, assignment or unrecognised in the order the loop
  body tests them.
- `config.dfy` (module `ConfigModel`) — the meaning of `LoadConfigLines` as a value: a fold
  of the classified lines into a `Builder` holding the name → section-id registry, one
  key/value store per section id, the id of the `Default` section and the current target
  list. Section identity is the id, so "is this the `Default` section" is a comparison of
  ids, as the original compares references. The merge, broadcast, ordering, header and
  skipping rules are proved here as lemmas.
- `ini.dfy` (module `Ini`) — the classes `IniSection` (a mutable dictionary) and `IniFile`.
  `LoadConfigLines` works as the original does: it walks the lines with a local dictionary
  of section objects, a target list of objects and a reference to the `Default` object,
  calls `Set` and `TryGetValue` on the objects, compares them by reference, and swaps the
  dictionary field in at the end. It is proved to leave behind exactly the document
  `ConfigModel.Load` describes, made of new section objects. The two queries are proved to
  answer from that document.
- `lighting.dfy` (module `Lighting`) — `GlobalLightController` with its four flags, the
  four setters and `Check`, writing to the `LightsEnabled` property of the USB logic.

The loop body of `LoadConfigLines` is split into methods (`LoadLine`, `OpenSections`,
`OpenSection`, `Broadcast`, `MergeInto`) that take and return the loop's local variables; each is the
corresponding block of the original loop.

## Model

| member | source | states |
|---|---|---|
| `Text.Trim` | BravoLights/IniFile.cs:37 | The trimmed line is the raw line less whitespace-only text at both ends, and neither of its ends is whitespace. |
| `Text.TrimUnique` | BravoLights/IniFile.cs:37 | Any way of cutting whitespace from both ends that leaves unpadded text gives exactly `Trim`'s result, so `Trim` is pinned down completely. |
| `Text.Split` | BravoLights/IniFile.cs:55 | Splitting on `,` gives at least one piece, no piece holds a `,`, and joining the pieces with `,` gives back the text. |
| `Text.SplitJoin` | BravoLights/IniFile.cs:55 | Splitting undoes joining `,`-free pieces, so the pieces are exactly the maximal `,`-free runs, empty ones included. |
| `LineScanner.OpAt` | BravoLights/IniFile.cs:13 | The operator group `[+|&]?=` starts at a position exactly when there is a `=` there, or one of `+`, `|`, `&` followed by `=`. |
| `LineScanner.MatchKeyValue` | BravoLights/IniFile.cs:13 | The assignment pattern matches exactly the lines that contain `=`; the key never contains `=` and never ends in whitespace; the value never starts with whitespace. |
| `LineScanner.KeyValueCaptures` | BravoLights/IniFile.cs:13 | The scanner's result is a split the pattern can make: key, whitespace, the operator at the first `=`, then the rest after the greedy `\s*`. |
| `LineScanner.KeyValueShortest` | BravoLights/IniFile.cs:13 | Whenever the pattern can match at all the scanner matches, and its key is no longer than any key the pattern could capture, as the lazy `(.*?)` demands. |
| `LineScanner.KeyValueTrims` | BravoLights/IniFile.cs:77-79 | The key is the text before the operator with trailing whitespace removed; the value is the text after the first `=` with leading whitespace removed (it may itself contain `=`). |
| `LineScanner.MatchSection` | BravoLights/IniFile.cs:12 | The header pattern matches exactly the lines with a `[` followed later by a `]`, and captures the text between the first `[` and the last `]`. |
| `LineScanner.TrimAll` | BravoLights/IniFile.cs:58-60 | Each header name is its piece of the split text, trimmed, in order. |
| `LineScanner.SectionNames` | BravoLights/IniFile.cs:54-60 | A header yields one name per `,`-separated piece of its bracketed text (at least one), each its piece trimmed; no name contains `,` and none starts or ends with whitespace. |
| `LineScanner.Classify` | BravoLights/IniFile.cs:37-79 | A trimmed line is a comment iff it starts with `;`, blank iff empty, otherwise a header iff it holds a bracket pair (tested before `=`, so `k = a[1]` is a header), otherwise an assignment iff it holds `=`, and unrecognised otherwise; a header carries the names of its bracketed text, an assignment the pattern's three captures. |
| `LineScanner.AssignmentShape` | BravoLights/IniFile.cs:74-79 | An assignment line is its key, whitespace, the operator, whitespace and the value, in that order; the key is `=`-free and unpadded, and the value is unpadded. |
| `ConfigModel.Start` | BravoLights/IniFile.cs:30-33 | Before the first line there is no section, no `Default` section and an empty target list. |
| `ConfigModel.OpenName` | BravoLights/IniFile.cs:60-68 | An unseen name is registered under a new id with an empty store and becomes the `Default` id when it is named so; a seen name keeps its id and no store changes; either way its id joins the target list. |
| `ConfigModel.OpenNames` | BravoLights/IniFile.cs:58-69 | Opening a header's names adds exactly one target per name and creates at most one section per name, never dropping one. |
| `ConfigModel.OpenNamesIndex` | BravoLights/IniFile.cs:58-67 | After a header the registered names are the earlier ones plus the header's names, and earlier names keep their ids. |
| `ConfigModel.OpenNamesTarget` | BravoLights/IniFile.cs:58-69 | The header appends one id per listed name, in order, so a name repeated in the same header contributes the same section twice. |
| `ConfigModel.OpenNamesFresh` | BravoLights/IniFile.cs:61-64 | A name a header registers for the first time gets a section that header creates, never an existing one. |
| `ConfigModel.OpenNamesStores` | BravoLights/IniFile.cs:61-64 | Opening names leaves every existing section's content alone, and the sections it creates are empty. |
| `ConfigModel.OpenHeader` | BravoLights/IniFile.cs:54-70 | After a header the target list is exactly the sections of its names, in header order; the old target list is gone. |
| `ConfigModel.Compose` | BravoLights/IniFile.cs:86-95 | `&=` gives `d AND v`, `+=` and `|=` give `d OR v`: the stored text starts with the `Default` value and ends with the assigned value. |
| `ConfigModel.Consulted` | BravoLights/IniFile.cs:82-84 | The `Default` value is consulted exactly for a composing operator, once a `Default` section exists, on a section other than it, when it holds the key; nothing else is ever read. |
| `ConfigModel.Stored` | BravoLights/IniFile.cs:82-100 | The value is stored verbatim for `=`, before any `Default` section, on `Default` itself, or when `Default` lacks the key; otherwise it is composed with the value `Default` holds. |
| `ConfigModel.ApplyTo` | BravoLights/IniFile.cs:82-100 | An assignment on one section sets that key there and changes no other key and no other section. |
| `ConfigModel.ApplyAll` | BravoLights/IniFile.cs:80-101 | An assignment broadcast to the target list leaves every unlisted section unchanged. |
| `ConfigModel.ApplyAllEffect` | BravoLights/IniFile.cs:80-101 | Each listed section ends with the key set to what was written at its last occurrence in the list, with `Default` as the sections handled before it left it. |
| `ConfigModel.ApplyAllSetsKey` | BravoLights/IniFile.cs:80-100 | Whatever the operator, every section of the target list holds the key after the assignment. |
| `ConfigModel.PlainAssignVerbatim` | BravoLights/IniFile.cs:82 | `=` stores the value verbatim in every target section, whatever `Default` holds, replacing any earlier value and keeping the section's other keys. |
| `ConfigModel.NoDefaultVerbatim` | BravoLights/IniFile.cs:83 | Before any `Default` section exists every operator stores the value verbatim. |
| `ConfigModel.DefaultGetsVerbatim` | BravoLights/IniFile.cs:83 | The `Default` section itself always receives the value verbatim; it never composes with itself. |
| `ConfigModel.ComposeWithEarlierDefault` | BravoLights/IniFile.cs:82-99 | On a section other than `Default`, `&=` stores `d AND v` and `+=`, `|=` store `d OR v` when `Default` holds `d`, and `v` verbatim when it lacks the key. |
| `ConfigModel.DefaultFirstThenCompose` | BravoLights/IniFile.cs:80-95 | With `Default` listed first, `Default` receives `v` and a later section composes with that fresh value: `v AND v` or `v OR v`. |
| `ConfigModel.BroadcastExample` | BravoLights/IniFile.cs:56-101 | `[Default, X]` then `foo &= B` yields `Default.foo = B` and `X.foo = B AND B`, and no other section or key. |
| `ConfigModel.Classified` | BravoLights/IniFile.cs:35-37 | Every raw line is classified on its own, in order. |
| `ConfigModel.Step` | BravoLights/IniFile.cs:37-102 | A skipped line changes nothing; an assignment keeps the registry, the `Default` id, the target list and the number of sections; a header replaces the target list with one entry per listed name. |
| `ConfigModel.Execute` | BravoLights/IniFile.cs:35-103 | The lines are folded in order; a text with no header or assignment leaves the state as it was (see also `ConfigModel.SkippedLinesChangeNothing` and `ConfigModel.ExecuteAppend`). |
| `ConfigModel.SkippedLinesChangeNothing` | BravoLights/IniFile.cs:39-49 | Comments, blank lines and lines that match neither pattern change nothing: dropping them all gives the same outcome. |
| `ConfigModel.NoHeaderNoSections` | BravoLights/IniFile.cs:30 | Lines without any header leave no section at all: the target list starts empty, so assignments go nowhere. |
| `ConfigModel.ExecuteAppend` | BravoLights/IniFile.cs:35 | The lines are processed in order: two runs of lines one after the other give the same as their concatenation. |
| `ConfigModel.LeadingLinesDropped` | BravoLights/IniFile.cs:30 | Lines before the first header, assignments included, are dropped: the outcome is as if the text started at that header. |
| `ConfigModel.StepKeepsIndex` | BravoLights/IniFile.cs:61-66 | No line unregisters a name or moves it to another section, and no line rebinds `Default`. |
| `ConfigModel.SectionsStayBound` | BravoLights/IniFile.cs:61-66 | Once a name has a section it keeps it to the end of the text; `Default` is bound once, when it is first created. |
| `ConfigModel.RegisteredNames` | BravoLights/IniFile.cs:58-67 | The registered sections are exactly the names that occur in some header line. |
| `ConfigModel.OpenNamesOwnSections` | BravoLights/IniFile.cs:61-64 | Opening names never lets two different names share a section. |
| `ConfigModel.ExecuteOwnSections` | BravoLights/IniFile.cs:61-64 | After any lines, different names have different sections. |
| `ConfigModel.LatestHeader` | BravoLights/IniFile.cs:51-69 | Finds the header line whose names are the current targets: it is a header and no header follows it; without one, there is no header at all. |
| `ConfigModel.ExecuteKeysTraced` | BravoLights/IniFile.cs:35-103 | After any lines, a section holds a key exactly when an assignment line followed a header naming it with no header in between, and the targets are exactly the sections of the latest header's names. |
| `ConfigModel.Document` | BravoLights/IniFile.cs:105 | The document has one entry per registered name, holding the content of that name's section. |
| `ConfigModel.Load` | BravoLights/IniFile.cs:28-106 | The loaded document has a section for exactly the names that occur in some header line. |
| `ConfigModel.HasSection` | BravoLights/IniFile.cs:108-115 | A section is reported iff it exists and holds at least one key. |
| `ConfigModel.LoadedSections` | BravoLights/IniFile.cs:105-115 | After a load the sections are exactly the names named in headers, and `HasSection` holds exactly for those whose section has a key. |
| `ConfigModel.SectionsWithKeys` | BravoLights/IniFile.cs:28-115 | After a load, `HasSection` holds for a name exactly when an assignment line follows a header naming it with no other header in between; a section named only in headers that no assignment follows is not reported. |
| `ConfigModel.GetValue` | BravoLights/IniFile.cs:117-128 | The stored value when both the section and the key exist, nothing (null) otherwise. |
| `Ini.IniSection.constructor` | BravoLights/IniFile.cs:133-137 | A new section holds no key. |
| `Ini.IniSection.IsEmpty` | BravoLights/IniFile.cs:139-142 | True exactly when the section holds no key. |
| `Ini.IniSection.Set` | BravoLights/IniFile.cs:144-147 | The key now maps to the value; every other key keeps its value. |
| `Ini.IniSection.TryGetValue` | BravoLights/IniFile.cs:149-152 | Finds a value exactly when the key is present, and then it is the stored one. |
| `Ini.OpenSection` | BravoLights/IniFile.cs:60-68 | One header name: the registered object is reused, or a new empty object is registered (and remembered as `Default` when so named); the object joins the target list; the objects mirror `ConfigModel.OpenName`. |
| `Ini.OpenSections` | BravoLights/IniFile.cs:54-70 | The header branch clears the target list and opens each trimmed name in turn; the objects mirror `ConfigModel.OpenNames` over the trimmed names. |
| `Ini.Broadcast` | BravoLights/IniFile.cs:80-101 | The assignment branch leaves every section object holding exactly what `ConfigModel.ApplyAll` describes for the target list. |
| `Ini.MergeInto` | BravoLights/IniFile.cs:82-100 | One target section: the objects end holding exactly what `ConfigModel.ApplyTo` describes for that section, so the stored text is `ConfigModel.Stored`'s, which consults `Default` only as `ConfigModel.Consulted` allows. |
| `Ini.LoadLine` | BravoLights/IniFile.cs:37-102 | One raw line changes the local state exactly as `ConfigModel.Step` on its classification does. |
| `Ini.DocumentMirrors` | BravoLights/IniFile.cs:105 | The section objects, read by name, hold the document the builder describes. |
| `Ini.IniFile.constructor` | BravoLights/IniFile.cs:10 | A new configuration has no section. |
| `Ini.IniFile.LoadConfigLines` | BravoLights/IniFile.cs:28-106 | Afterwards the configuration is exactly `ConfigModel.Load` of the lines, whatever it held before, and every section in it is a new object. |
| `Ini.IniFile.HasSection` | BravoLights/IniFile.cs:108-115 | Answers `ConfigModel.HasSection` on the current document. |
| `Ini.IniFile.GetValueOrNull` | BravoLights/IniFile.cs:117-128 | Answers `ConfigModel.GetValue` on the current document. |
| `Lighting.LightsShouldBeOn` | BravoLights/GlobalLightController.cs:34 | The lights may be on only while connected and with none of the other three flags set, and then they are. |
| `Lighting.GlobalLightController.constructor` | BravoLights/GlobalLightController.cs:12-27 | All four flags start false and the USB logic is left as it was: nothing is pushed at construction. |
| `Lighting.GlobalLightController.Check` | BravoLights/GlobalLightController.cs:29-36 | Writes to the USB logic exactly what the flags ask for. |
| `Lighting.GlobalLightController.SetSimulatorInMainMenu` | BravoLights/GlobalLightController.cs:18 | Stores the flag, keeps the other three, pushes what the flags ask for (off while in the main menu), and setting the same value pushes the same result again. |
| `Lighting.GlobalLightController.SetReadingConfiguration` | BravoLights/GlobalLightController.cs:21 | Stores the flag, keeps the other three, pushes what the flags ask for (off while reading the configuration), and setting the same value pushes the same result again. |
| `Lighting.GlobalLightController.SetApplicationExiting` | BravoLights/GlobalLightController.cs:24 | Stores the flag, keeps the other three, pushes what the flags ask for (off while exiting), and setting the same value pushes the same result again. |
| `Lighting.GlobalLightController.SetSimulatorConnected` | BravoLights/GlobalLightController.cs:27 | Stores the flag, keeps the other three, pushes what the flags ask for (off while disconnected), and setting the same value pushes the same result again. |

## Left out

- `LoadConfigFromFile` (BravoLights/IniFile.cs:15-26): reading the file and re-wrapping its exceptions are I/O. The model starts from the lines as a sequence of strings.
- A null line array or null lines: they cannot occur with Dafny's sequences and strings.
- Culture-sensitive comparison in `line.StartsWith(";")`: it is modelled as "the first character is `;`", which ignores the culture's treatment of ignorable characters.
- Whitespace is one fixed character class, shared by `String.Trim` and the regular expressions' `\s`. It is written out as .NET defines it for both, with no culture.
- C# strings are sequences of UTF-16 code units and may hold lone surrogates; Dafny strings are sequences of Unicode scalar values, so such lines cannot be represented here. None of the characters the parser tests (`;`, `[`, `]`, `,`, `=`, `+`, `|`, `&`, whitespace) is a surrogate.
- Regular-expression `.` does not match a line feed in .NET. The scanner lets the captured text hold any character. This differs only for a line with a line feed inside it, which lines read from a file never contain.
- Other regular-expression engine details, such as timeouts and backtracking limits, are not modelled.
- The composed `AND`/`OR` strings are never evaluated or validated. They are opaque text here, as they are to the parser.
- The atomicity and visibility to other threads of the `sections` swap (BravoLights/IniFile.cs:105) are not modelled. The model only shows that the field is assigned once, after all lines are processed.
- NLog logging (BravoLights/GlobalLightController.cs:8, 31-32) is left out.
- The USB hardware interface `IUsbLogic` is not part of this model. It is reduced to the one property the controller writes, `LightsEnabled`.
- The property getters of the controller read the flag fields directly.
- `TryGetValue`'s boolean result plus `out` parameter, and `GetValueOrNull`'s null, are modelled as `Option` (`None` for absent).
- Size limits of .NET collections and strings are not modelled: sequences and maps are unbounded here.
