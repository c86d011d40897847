# manjaro-hello: locale, page, autostart and saved-state logic

`manjaro-hello` is the welcome window of a Linux distribution. Almost all of
its one Python file is GTK glue. This Dafny project models the part that
decides and keeps state:

- which locale to activate (`get_best_locale`);
- which page file to show (`get_page`);
- how the autostart switch creates or removes the autostart link and
  comments or uncomments the i3 autostart line (`set_autostart`);
- how a language change records each widget's original text once and
  re-translates every widget from it (`set_locale`);
- how `~` is expanded in paths (`fix_path`) and how the saved state defaults
  to `{"locale": None}` at start-up (`__init__`, `read_json`).

The filesystem is abstract. It has a set of paths for which
`os.path.isfile` holds, a partial map from the paths that `open` can read
to their decoded text, and the set of paths that `open` can open for
writing. The environment is passed in as parameters: the system
locale, the home directory, the gettext translation function, JSON decoding,
and whether a link system call succeeds.

Two modules:

- `StrReplace` (`str_replace.dfy`) models Python's `str.replace` and `in` on
  strings. Its lemmas are general facts about replacement: no match means no
  change; a replacement of a different length changes the length; a
  one-character replacement equals a per-character expansion; and marking
  every occurrence of a pattern, then unmarking it, gives back the original.
- `ManjaroHello` (`manjaro_hello.dfy`) holds the program's pure decisions as
  functions and lemmas. It also has the class `Hello`, whose methods change
  `save`, `default_texts`, the widget texts, `autostart` and the filesystem.

Behaviour of the code worth noting:

- Only `OSError` is caught when the saved state is read. Malformed JSON
  raises; it does not fall back to the default.
- The catalog is looked up under the raw system locale, with its underscore.
  The underscore becomes a hyphen only in the result. So with only an `en-US`
  catalog, system locale `en_US` does not resolve to `en-US`
  (`ExampleHyphenatedCatalogNotConsulted`).
- `"{}".format(None)` is `"None"`. A missing saved locale therefore checks
  the catalog directory `None`, and the resolved locale can be `None`.
- A system locale of `None` raises `TypeError` in the code. It does not fall
  through to the default. The model takes the system locale as a string.

## Model

| member | source | states |
|---|---|---|
| StrReplace.ReplaceAll | src/manjaro_hello.py:186-188 | `str.replace` scans left to right over non-overlapping matches; a replacement at least as long as the pattern never shortens the string, and one no longer never lengthens it |
| StrReplace.ExpandChar | src/manjaro_hello.py:244-245 | reference per-character expansion: if the replacement has no `c`, the result has no `c`; a string without `c` is unchanged; a one-character replacement keeps the length |
| StrReplace.ReplaceCharIsExpand | src/manjaro_hello.py:245 | replacing a one-character pattern is exactly the per-character expansion |
| StrReplace.ReplaceWithoutMatch | src/manjaro_hello.py:186 | replacing a pattern that does not occur returns the input unchanged |
| StrReplace.ReplaceChangesLength | src/manjaro_hello.py:186-188 | when the pattern occurs, a shorter replacement strictly shortens the string and a longer one strictly lengthens it |
| StrReplace.ContainsChangesLength | src/manjaro_hello.py:186-188 | the same for a pattern known only to occur somewhere in the string |
| StrReplace.ReplaceKeepsPattern | src/manjaro_hello.py:188 | if the pattern occurs and the replacement contains the pattern, the result still contains it |
| StrReplace.MarkedHasNoLeadingPattern | src/manjaro_hello.py:188 | after every occurrence gets a leading mark character that the pattern lacks, the result never starts with the pattern |
| StrReplace.UnmarkAfterMark | src/manjaro_hello.py:186-188 | marking every occurrence of a pattern and then unmarking every marked occurrence restores any string |
| ManjaroHello.FixPath | src/manjaro_hello.py:243-246 | every `~` becomes the home directory (equal to the per-character expansion); a path without `~` is unchanged; the result has no `~` if the home directory has none |
| ManjaroHello.ReadJson | src/manjaro_hello.py:256-261 | the result is `None` exactly when the `~`-expanded path cannot be opened, and otherwise the decoded contents of that file |
| ManjaroHello.Format | src/manjaro_hello.py:96 | `"{}".format(v)` gives the string itself for a string, and gives `"None"` exactly for `None` and for the string `"None"` |
| ManjaroHello.InitialSave | src/manjaro_hello.py:32-34 | a falsy document (`None`, JSON `null`, `{}`) becomes `{"locale": None}`; a truthy one is kept; the saved state is never empty |
| ManjaroHello.Truthy | src/manjaro_hello.py:33 | the `not self.save` test: the saved document is falsy exactly when it is `None`, JSON `null` or `{}` |
| ManjaroHello.MissingSaveFileDefaults | src/manjaro_hello.py:32-34 | a saved-state file that cannot be opened gives `{"locale": None}` |
| ManjaroHello.EmptySaveFileDefaults | src/manjaro_hello.py:32-34 | a saved-state file that decodes to `null` or `{}` gives `{"locale": None}` |
| ManjaroHello.CatalogPath | src/manjaro_hello.py:93 | the catalog path is the locale path, then the locale, then `/LC_MESSAGES/manjaro-hello.mo`, with the locale recoverable at a fixed position |
| ManjaroHello.CatalogPathInjective | src/manjaro_hello.py:93 | two locales with the same catalog path are the same locale |
| ManjaroHello.Prefix2 | src/manjaro_hello.py:107-108 | `s[:2]` is a prefix of `s` of length min(2, len(s)) |
| ManjaroHello.Hyphenate | src/manjaro_hello.py:102-105 | the hyphenated system locale has the same length, contains no `_`, equals the `_`→`-` expansion, and is the locale itself when it has no `_` |
| ManjaroHello.HyphenateAt | src/manjaro_hello.py:103 | each `_` becomes `-` and every other character is kept, position by position |
| ManjaroHello.BestLocale | src/manjaro_hello.py:88-110 | the result is one of: the default locale; the saved locale with a catalog; the hyphenated system locale whose raw catalog exists; the two-letter prefix with a catalog. It is `None` only if nothing was saved and a `None` catalog exists |
| ManjaroHello.SavedLocaleWins | src/manjaro_hello.py:94-97 | a saved locale that is the default, or that has a catalog, is the result whatever the system locale is |
| ManjaroHello.SystemLocaleNext | src/manjaro_hello.py:99-105 | with no usable saved locale, a system locale whose raw catalog exists gives that locale with every `_` turned into `-` |
| ManjaroHello.PrefixThenDefault | src/manjaro_hello.py:106-110 | otherwise the result is the two-letter prefix if its catalog exists, and the default locale if not |
| ManjaroHello.BestLocaleSupported | src/manjaro_hello.py:93-110 | for a saved string locale, the result is never `None`; it is the default, a locale with a catalog, or the hyphenated form of a system locale whose catalog exists |
| ManjaroHello.ExampleNoSupportedSystemLocale | src/manjaro_hello.py:99-110 | nothing saved, system locale `de_DE`, only an `en` catalog: the result is `en` |
| ManjaroHello.ExampleHyphenatedSystemLocale | src/manjaro_hello.py:101-103 | an `en_US` catalog with system locale `en_US` gives `en-US` |
| ManjaroHello.ExampleHyphenatedCatalogNotConsulted | src/manjaro_hello.py:101-110 | an `en-US` catalog alone with system locale `en_US` gives the default locale |
| ManjaroHello.PagePath | src/manjaro_hello.py:201-203 | the page path is the data path, `pages/`, the locale, `/` and the page name, with the locale and the name recoverable at fixed positions |
| ManjaroHello.PagePathInjective | src/manjaro_hello.py:201-203 | for one page name, two locales with the same page path are the same locale |
| ManjaroHello.GetPage | src/manjaro_hello.py:194-208 | the saved locale's page file is read if it is a file; otherwise the default locale's; the translated "Can't load page." is returned when the chosen file cannot be read; nothing else is ever returned |
| ManjaroHello.UnreadablePageDoesNotFallBack | src/manjaro_hello.py:201-208 | a saved-locale page that exists but cannot be read gives the placeholder, even if the default page is readable |
| ManjaroHello.CommentOut | src/manjaro_hello.py:187-188 | disabling never shortens the configuration. It strictly lengthens every configuration that contains the autostart line, and it leaves every other configuration unchanged. `DisableUnchangedIff`, `DisableTwiceNotIdempotent` and `EnableAfterDisableRestores` build on it |
| ManjaroHello.Uncomment | src/manjaro_hello.py:185-186 | enabling never lengthens the configuration. It strictly shortens every configuration that contains the commented line, and it leaves every other configuration unchanged |
| ManjaroHello.PatchI3 | src/manjaro_hello.py:185-188 | the patch leaves the configuration unchanged exactly when the line it looks for (commented when enabling, plain when disabling) is absent; a disable is undone by an enable |
| ManjaroHello.EnableAfterDisableRestores | src/manjaro_hello.py:181-189 | commenting out the i3 autostart line and then uncommenting it restores any configuration |
| ManjaroHello.EnableUnchangedIff | src/manjaro_hello.py:185-186 | enabling leaves the configuration unchanged if and only if it has no `#exec --no-startup-id manjaro-hello` |
| ManjaroHello.DisableUnchangedIff | src/manjaro_hello.py:187-188 | disabling leaves the configuration unchanged if and only if it has no `exec --no-startup-id manjaro-hello` |
| ManjaroHello.DisableTwiceNotIdempotent | src/manjaro_hello.py:187-188 | for a configuration that contains the line, disabling it twice gives a different result from disabling it once |
| ManjaroHello.DisableTwiceExample | src/manjaro_hello.py:181-188 | the line disabled once is `#`+line; disabled twice it is `##`+line |
| ManjaroHello.LinkStep | src/manjaro_hello.py:173-177 | after a successful step the link is present exactly when enabling. No other path changes. Nothing happens when the link state already matches. An `OSError` occurs exactly when a system call was needed and failed |
| ManjaroHello.I3Step | src/manjaro_hello.py:179-189 | the set of files is unchanged; an existing configuration is rewritten by the enable or disable patch; an `OSError` occurs exactly when the configuration exists but cannot be opened for both reading and writing (mode `"r+"`); no configuration means no change |
| ManjaroHello.I3ConfigPath | src/manjaro_hello.py:179 | the i3 configuration is the file `/.i3/config` under the home directory |
| ManjaroHello.ReadOnlyI3ConfigKeepsLinkChange | src/manjaro_hello.py:179-192 | an i3 configuration that is readable but not writable makes the call fail with an `OSError`; only the link change is kept |
| ManjaroHello.AutostartEffect | src/manjaro_hello.py:173-192 | it completes exactly when both steps do, and then the link is present iff enabling. Only the link path can change in the file set. When the link state already matches, the file set is unchanged |
| ManjaroHello.EnableTwiceCreatesNothing | src/manjaro_hello.py:173-190 | after a completed enable, a second enable completes without `OSError` whether or not a link system call would succeed, and it leaves the set of files (one link) as it is |
| ManjaroHello.DisableThenEnableRestoresI3 | src/manjaro_hello.py:173-190 | a completed disable followed by a completed enable restores the i3 configuration and leaves the link present |
| ManjaroHello.AutostartEffectAsWritten | src/manjaro_hello.py:179 | as written, `set_autostart` never completes: it either logs an `OSError` from the link step or raises `AttributeError` right after it |
| ManjaroHello.AsWrittenEnableNeverCompletes | src/manjaro_hello.py:173-192 | enabling with no link and no i3 configuration completes in the corrected model but raises `AttributeError` as written |
| ManjaroHello.CacheTexts | src/manjaro_hello.py:156-159 | the recorded texts cover the earlier ones and every visited widget; an earlier record is never overwritten; a new record is the widget's text at that time |
| ManjaroHello.Retranslated | src/manjaro_hello.py:160 | every visited widget shows the translation of its recorded text; other widgets keep their text |
| ManjaroHello.SecondLocaleChangeUsesOriginals | src/manjaro_hello.py:156-160 | a second language change records nothing new, and it translates each widget's original text, not the first translation |
| ManjaroHello.TranslatablesDistinct | src/manjaro_hello.py:128-155 | the widget table `Translatables` names the 20 widgets of the `elts` table, each exactly once, as the sets of the source do |
| ManjaroHello.Hello.constructor | src/manjaro_hello.py:31-78 | `save` is the defaulted result of reading the saved-state file; `default_texts` is empty; `autostart` holds iff the autostart link is a file |
| ManjaroHello.Hello.SetLocale | src/manjaro_hello.py:112-160 | on an `OSError` from loading the translation nothing changes. Otherwise `save["locale"]` becomes the new locale, and `default_texts` and the widget texts become `CacheTexts` and `Retranslated` of the old state |
| ManjaroHello.Hello.RetranslateWidgets | src/manjaro_hello.py:156-160 | the nested loops leave `default_texts` equal to `CacheTexts` and the widget texts equal to `Retranslated` of the state before the loops |
| ManjaroHello.Hello.SetAutostart | src/manjaro_hello.py:168-192 | the new filesystem and the outcome are those of `AutostartEffect`. On success `autostart` equals the request and the link is present iff enabling. On an `OSError` `autostart` is unchanged. The saved state and texts never change |

## Findings

| source | as written | input that shows it | evidently intended | confidence | as-written member | corrected member |
|---|---|---|---|---|---|---|
| src/manjaro_hello.py:179 | `set_autostart` reads `self.home_path`, which is never assigned. The `AttributeError` is not caught by `except OSError`, so the i3 configuration is never patched and `self.autostart` is never updated | any call whose link step succeeds, e.g. enabling with no link present | take the home directory of the user (as `fix_path` does with `os.path.expanduser("~")`) and finish the toggle | not executed; high | ManjaroHello.AutostartEffectAsWritten, ManjaroHello.AsWrittenEnableNeverCompletes | ManjaroHello.AutostartEffect |

## Left out

- GTK work is not modelled: the window, the builder, widget lookup, the logo, images, the live-system buttons and the page stack (src/manjaro_hello.py:36-86, 211-231). These are toolkit glue.
- `__init__` calls `set_active_id(get_best_locale())` (line 66). Through the GTK "changed" signal this applies the locale. The signal dispatch is toolkit behaviour, so the constructor does not call `SetLocale`.
- Setting each page label to `get_page(page)` at the end of `set_locale` (lines 162-166) is widget layout and is not modelled. `GetPage` models the text that would be shown.
- The gettext calls (lines 64-65, 118-119) and the global `_` are a foreign library. Translation is the parameter `tr`. A failure to load the catalog is the flag `translationFails`.
- JSON parsing and serialisation (lines 249-276) are library calls. Decoding is the parameter `decode`. A malformed file, which raises in the source, is not modelled. Writing the saved state at exit (`on_delete_window`, `write_json`, lines 237-240, 264-276) is not modelled.
- Loading the preferences, including the `--dev` path overrides (lines 19-29), is not modelled. The preferences are a parameter.
- `webbrowser.open_new_tab` and `subprocess.Popen` (lines 219, 235) start external processes. They are not modelled.
- Real filesystem semantics are not modelled. `os.path.isfile` follows symbolic links, a dangling link can make `os.symlink` raise, and the contents of the new link are not tracked. The link is only a member of the set of files, and a failed system call is the flag `linkOk`.
- ManjaroHello.I3Step: the only i3 `OSError` modelled is failing to open the file in mode `"r+"` (not readable or not writable). A failing `write` or `truncate` after a successful open is not modelled.
- ManjaroHello.GetPage: the contents of a readable file are its decoded text. A file whose bytes do not decode makes `f.read()` raise `UnicodeDecodeError`. That is a `ValueError`, not an `OSError`, so it escapes `get_page` (lines 204-208) and `set_autostart` (lines 182-192) in the source. The model does not represent decoding failures, and reading always succeeds on a path in the contents map. The same holds for ManjaroHello.I3Step and ManjaroHello.ReadJson.
- ManjaroHello.BestLocale: `locale.getdefaultlocale()[0]` can be `None`, which raises `TypeError` in the source. The model takes the system locale as a string.
- ManjaroHello.CatalogPath: the catalog path is built with `str.format`. If the preferences' `locale_path` itself contains braces, `format` would also act on them. That case is not modelled.
- StrReplace.ReplaceAll: the empty pattern is excluded. The program never replaces it.
- ManjaroHello.Hello.constructor: a truthy saved document without a "locale" key makes the source raise `KeyError` at line 94 during `__init__`. The constructor requires the key. Saved documents other than `null` or an object of strings and nulls are not modelled.
- ManjaroHello.Hello.RetranslateWidgets: each widget has one translatable text. The model does not track which property (`comments`, `label` or `tooltip_text`) holds it. Widgets are visited in a fixed order, whereas the source iterates over Python sets.
