# keyux core: hot-key hints, the keyboard heuristic and plugin start-up

keyux is a JavaScript library of keyboard-UX helpers. Its entry module,
`index.js`, holds three pieces of logic of its own, and this project models
and verifies those three in Dafny:

- `getHotKeyHint(window, code, overrides)` turns a key-combination code such
  as `ctrl+shift+s` into the text shown to the user. It works in four steps:
  1. A reverse lookup in the user's overrides: the first key whose value is
     the code replaces the code.
  2. The code is split on `+`.
  3. Each token is title-cased.
  4. The output depends on the platform:
     - on most platforms the tokens are joined with ` + `;
     - on a Mac (`navigator.platform` starts with `Mac`) they are run
       together, and four regular-expression rewrites replace `Meta`,
       `Shift`, `Alt` and `Ctrl` by the glyphs ⌘ ⇧ ⌥ ⌃, each glyph followed
       by a thin space (U+2009, `HotKeyHint.ThinSpace`).

  Module `HotKeyHint` in `hotkey_hint.dfy`.
- `likelyWithKeyboard(window)` guesses from the user agent whether a
  physical keyboard is present. Module `Keyboard` in `keyboard.dfy`.
- `startKeyUX(window, plugins)` calls every plugin with the window. It
  returns one function that calls every teardown the plugins returned.
  Module `Plugins` in `plugins.dfy`. The plugins are foreign code, so a
  `Host` object records every call into them as an event trace, and the
  returned function is a `Stop` object.

The JavaScript string operations these rely on are modelled in
`strings.dfy` (module `Strings`):

- `indexOf` and `includes`;
- the last occurrence of a substring;
- `split` on one character, with JavaScript's behaviour on empty pieces;
- `join`;
- ASCII `toUpperCase` of one character (the first of a token) and `toLowerCase` of a string.

`env.dfy` (module `Env`) holds the window, reduced to the two `navigator`
strings that are read.

Decisions where the code is more precise than a plain reading:

- **A token that is empty throws.** An empty code, a leading or trailing `+`,
  or `++` makes `part[0]` `undefined`. Calling `toUpperCase` on it throws a
  `TypeError`. The model returns `ThrowsTypeError` for this case; it is not
  made a precondition.
- **The Mac rewrite is not always "glyph at the front of the whole string".**
  A `.` in a JavaScript regular expression does not match a line terminator
  (`\n`, `\r`, U+2028, U+2029). So `/(.*)K(.*)/` matches inside the first
  *line* that contains `K`, and the greedy `(.*)` splits at the last `K` in
  that line. The glyph goes at the start of that line. For a code without
  line terminators, the glyph goes at the very front. `HotKeyHint.Replace`
  models the general case, and `HotKeyHint.ReplaceSingleLine` states the
  common one.

## Model

| member | source | states |
|---|---|---|
| HotKeyHint.Resolve | index.js:20-26 | the resolved code is the code itself when no override value equals it, and otherwise a key whose value is the code |
| HotKeyHint.FirstMatch | index.js:21-25 | the position found is the first override, in list order, whose value equals the code; none is found exactly when no value equals it |
| HotKeyHint.ResolveCode | index.js:20-26 | the lookup loop with its early `break` yields the key of the first override whose value is the code, or the code itself |
| HotKeyHint.ResolveFirstWins | index.js:21-25 | once an override matches, overrides enumerated after it never change the resolved code |
| HotKeyHint.ResolveNoMatch | index.js:20-26 | when no value matches, the code is unchanged, the same as with no overrides |
| HotKeyHint.TitleCase | index.js:29 | a title-cased token keeps its length and every character after the first; its first character is the same letter up to case and is not a lower-case ASCII letter |
| HotKeyHint.TitleCaseAll | index.js:27-29 | every token keeps its length and every character after the first, and gets its first character upper-cased; the call throws exactly when some token is empty |
| HotKeyHint.TitleCaseAllIsMap | index.js:29 | without empty tokens, the result is the token-wise `map` of title-casing (`TitleCaseEach`), with no throw |
| HotKeyHint.PrettyParts | index.js:27-29 | the tokens throw exactly when some `+`-separated piece is empty, and otherwise there is one title-cased token per piece |
| HotKeyHint.PrettyPartsOfJoin | index.js:27-29 | a code built from non-empty, `+`-free tokens yields exactly those tokens title-cased, in order |
| HotKeyHint.PrettyPartsHaveNoPlus | index.js:28-29 | no title-cased token contains `+` |
| HotKeyHint.FirstTokenEmptyIff | index.js:28 | the first token is empty exactly when the code is empty or starts with `+` |
| HotKeyHint.LaterEmptyTokenIff | index.js:28 | a later token is empty exactly when the code ends with `+` or contains `++` |
| HotKeyHint.EmptyTokenIff | index.js:28-29 | some token is empty exactly when the code is empty, starts or ends with `+`, or contains `++` |
| HotKeyHint.IsMac | index.js:30 | the Mac branch is taken exactly when the platform string starts with `Mac` |
| HotKeyHint.MacIntelIsMac | index.js:30 | the platform `MacIntel` takes the Mac branch |
| HotKeyHint.LineEnd | index.js:33-36 | the first line of a string ends at its first line terminator, or at its end |
| HotKeyHint.Replace | index.js:33-36 | one rewrite either keeps the length or removes one keyword and adds the glyph and its thin space; `ReplaceEarlierLine` and `ReplaceFirstLine` state what it does over several lines |
| HotKeyHint.ReplaceEarlierLine | index.js:33-36 | a first line without the keyword is kept, terminator included, and the rewrite goes on in the lines after it |
| HotKeyHint.ReplaceFirstLine | index.js:33-36 | in the first line that holds the keyword, its last occurrence there is removed and the glyph and a thin space go at the start of that line; the later lines are kept even where they hold the keyword |
| HotKeyHint.ReplaceAbsent | index.js:33-36 | a rewrite whose keyword does not occur leaves the text unchanged |
| HotKeyHint.ReplaceSingleLine | index.js:33-36 | on one line containing the keyword, the rewrite removes the keyword's last occurrence and puts the glyph and a thin space at the very front |
| HotKeyHint.ReplaceLength | index.js:33-36 | a rewrite that fires removes one keyword occurrence and adds two characters; one that does not fire changes nothing |
| HotKeyHint.ReplaceAfterPrefix | index.js:33-36 | when the text before a key ends with the keyword's last occurrence, the keyword is removed and the glyph comes first |
| HotKeyHint.ReplaceNowhere | index.js:33-36 | a text with no character that can start the keyword is left unchanged |
| HotKeyHint.ReplaceKeyword | index.js:33-36 | on one line, a keyword that cannot overlap itself and is followed by a key free of it is removed, and the glyph and a thin space go in front of everything before it |
| HotKeyHint.ReplaceKeywordAfter | index.js:34-36 | the same rewrite when glyphs placed by an earlier rewrite already stand in front |
| HotKeyHint.ReplaceMetaShift | index.js:33-34 | the Meta rewrite and then the Shift rewrite of modifiers run together give ⇧, then ⌘, then the rest |
| HotKeyHint.ReplaceAltCtrl | index.js:35-36 | the Alt rewrite and then the Ctrl rewrite put ⌥ and then ⌃ in front of the glyphs already placed |
| HotKeyHint.MacHint | index.js:31-36 | the four rewrites of the run-together tokens never make the text longer, since every keyword is longer than its glyph and thin space |
| HotKeyHint.MacHintNoModifier | index.js:31-36 | with no modifier name present, the Mac hint is the tokens run together |
| HotKeyHint.MacHintCommand | index.js:31-33 | `Meta` followed by a plain key reads ⌘, a thin space, then the key |
| HotKeyHint.MacHintFront | index.js:31-36 | whatever order the modifiers come in, a one-line code naming `Meta`, `Shift`, `Alt` and `Ctrl` gets ⌃ ⌥ ⇧ ⌘, each followed by a thin space, at its front, and the hint is eight characters shorter than the tokens run together |
| HotKeyHint.RewriteStage | index.js:33-36 | on one line, a rewrite whose keyword's first letter does not occur in the first `m` characters puts its glyph and a thin space in front of those `m` characters and shortens the line by the keyword's length less two |
| HotKeyHint.ReplaceKeepsOther | index.js:33-36 | on one line, a rewrite for one keyword keeps every occurrence of another keyword when neither one's first letter occurs in the other (true of the four modifier names), so the later rewrites still find theirs |
| HotKeyHint.MacHintStacking | index.js:31-36 | `Ctrl`,`Alt`,`Shift`,`Meta` and a plain key give ⌃ ⌥ ⇧ ⌘, each followed by a thin space, and then the key: each rewrite puts its glyph in front of the earlier ones |
| HotKeyHint.Format | index.js:27-39 | formatting the resolved code throws a TypeError on every platform exactly when the code is empty, starts or ends with `+`, or contains `++` |
| HotKeyHint.GetHotKeyHint | index.js:19-40 | the whole call: the lookup loop followed by the formatting of the resolved code |
| HotKeyHint.NonMacRoundTrip | index.js:37-38 | off the Mac, splitting the hint on ` + ` gives back one part per `+`-separated token, in order, each part the title-cased token |
| HotKeyHint.NonMacExample | index.js:37-38 | `ctrl+shift+s` on `Win32` reads `Ctrl + Shift + S` |
| HotKeyHint.MacExample | index.js:30-36 | `meta+s` on `MacIntel` reads ⌘, a thin space, `S` |
| HotKeyHint.StackingParts | index.js:27-29 | `ctrl+alt+shift+meta+s` has the title-cased tokens `Ctrl`,`Alt`,`Shift`,`Meta`,`S` |
| HotKeyHint.MacStackingExample | index.js:30-36 | `ctrl+alt+shift+meta+s` on `MacIntel` reads ⌃ ⌥ ⇧ ⌘ `S`, with a thin space after each glyph |
| Keyboard.SomeIncluded | index.js:16 | `some` over the device list is true exactly when the agent includes one of the devices |
| Keyboard.LikelyWithKeyboard | index.js:14-17 | the answer is false exactly when the lower-cased user agent contains `iphone`, `ipad` or `android` |
| Keyboard.LikelyWithKeyboardIgnoresCase | index.js:15-16 | two user agents that differ only in letter case get the same answer |
| Keyboard.LowerEqualIffSameIgnoringCase | index.js:15 | two user agents lower-case to the same string exactly when they differ only in ASCII letter case |
| Keyboard.AndroidAnyCaseHasNoKeyboard | index.js:15-16 | `android`, spelled in any mix of case anywhere in the user agent, means no keyboard |
| Keyboard.NoDeviceTokenHasKeyboard | index.js:15-16 | a user agent containing none of the three device names means a keyboard |
| Plugins.Host.CallPlugin | index.js:8 | a plugin call is recorded, counted, and returns a teardown tied to that call, or throws for a throwing plugin |
| Plugins.Host.CallUnbind | index.js:10 | a teardown call is recorded |
| Plugins.StartKeyUX | index.js:7-12 | the plugins are called in list order with the same window, each once; the collected teardowns follow plugin order; the first plugin that throws ends the start-up with the earlier plugins still set up |
| Plugins.Stop.Call | index.js:9-11 | the stop function calls every collected teardown in collection order |
| Plugins.StartThenStopTwice | index.js:7-12 | the stop function keeps no state: calling it twice runs every teardown twice |
| Plugins.FirstThrowing | index.js:8 | the plugin at which `map` stops is the first one that throws |
| Plugins.SetupsInOrder | index.js:8 | the i-th setup event calls the i-th plugin with the window |
| Plugins.UnbindsInOrder | index.js:8 | the i-th collected teardown comes from the i-th plugin and the i-th call |
| Plugins.TeardownsInOrder | index.js:10 | the i-th teardown event calls the i-th collected teardown |
| Plugins.TeardownMatchesSetup | index.js:8-10 | teardown order equals setup order, not the reverse: the i-th teardown undoes the i-th setup |
| Strings.IndexOf | index.js:30 | `indexOf` gives the first occurrence, or -1 exactly when there is none |
| Strings.LastIndexOf | index.js:33-36 | the last occurrence of a keyword, or none exactly when it does not occur |
| Strings.Lower | index.js:15 | `toLowerCase` keeps the length and leaves no ASCII capital letter |
| Strings.Split | index.js:28 | `split` gives at least one piece, and no piece contains the separator |
| Strings.JoinSplit | index.js:28 | joining the pieces of `split` with the separator gives back the string |
| Strings.JoinLength | index.js:38 | a join is as long as its parts together plus one separator between each two neighbours |
| Strings.SplitJoin | index.js:28 | splitting a join of separator-free pieces gives back the pieces |
| Strings.SplitOnJoinSpacedPlus | index.js:38 | splitting a ` + ` join of `+`-free pieces on ` + ` gives back the pieces |

## Left out

- The re-exports of `hotkey.js`, `hidden.js`, `press.js`, `menu.js` and `jump.js` (index.js:1-5). These are DOM event-listener behaviours, and those files are not part of this model.
- The default `overrides = {}` of `getHotKeyHint`: callers pass the empty list instead, which resolves to the code itself (`HotKeyHint.ResolveNoMatch`).
- The real `window`, `navigator` and `globalThis`, and the `globalThis` default argument of `likelyWithKeyboard`. The window is a value with its `userAgent` and `platform` strings, passed in explicitly.
- What plugins and teardowns do to the page, such as registering listeners. Only the order of calls into them is kept.
- Teardown identity: each collected teardown is identified by the plugin call that returned it (`Unbind(plugin, call)`). Two calls that return the same function object are not recognised as the same function; a stop call still runs one teardown per collected slot, as the source does.
- Plugins.Stop.Call: a teardown that throws is not modelled; every teardown is assumed to return normally.
- Plugins.StartKeyUX: whether a plugin throws is fixed per plugin identity (`Host.throwing`). A plugin that throws on one call and not on another is not modelled.
- Unicode case mapping. `toUpperCase` and `toLowerCase` map ASCII letters only. Characters are Unicode scalar values, not UTF-16 code units.
- The enumeration order of `for...in`, which puts integer-like keys first and includes inherited properties. The overrides are an already ordered list of (key, value) string pairs, and values are compared as strings.
- A general regular-expression engine. Only the fixed pattern `(.*)K(.*)` is modelled, for keywords without line terminators (`HotKeyHint.Replace` requires this; the four keywords satisfy it).
