# Changelog widget — a Dafny model

This project models the logic of OtterGui's `Changelog` window. The window holds
release notes as a list of sections, one per version, oldest first. It reads the
"last seen version" that the host application keeps for it. From that value it
decides whether to open. It draws the sections newest first, with some headers
expanded. An "Understood" button records that the user has seen every section.

Two modules:

- `ChangelogEntry` (`entry.dfy`) holds the `Entry` value (text, colour, indent
  level). It holds `Line`, the Markdown line the debug export writes for one
  entry, and `Append`, which builds that line with the exporter's loop. `ParseLine`
  reads such a line back. It is the partner that the round-trip lemma ties to `Line`.
- `Widgets` (`changelog.dfy`) holds the class `Changelog`. Its fields are the
  sections, the cached `lastVersion`, `forceOpen` and `isOpen`. The host's get and
  set accessors are modelled as one integer field, `stored`. Every call of the set
  accessor is logged in `writes`. A ghost `history` records the builder calls.
  `Valid()` ties `sections` to `Sections(history)`, an independent reference
  definition: one section per `NextVersion`, holding exactly the entries added
  after it and before the next one. `Decide` and `DefaultOpen` are the open
  decision and the header-expansion rule as functions. Lemmas about several
  successive checks use them.

The "Understood" click is an input of the frame, so `Draw` takes it as a
parameter. ImGui's drawing calls become the list of `Header` values that the
entries pane shows.

Two successive open checks over the same sections usually agree, with one
exception. On a fresh install with `ForceOpen` set, the first check stays closed
and writes the section count back. The second check then opens the window.
`RecheckIsStable` states this behaviour of the code.

The expansion rule `idx >= lastVersion` also expands index 0 when the stored
value is 0. So with two sections and a stored 0, both headers start expanded, not
just the newest. `DefaultOpen`'s contract states this: any stored value at or
below 0 expands every header.

A stored value is meant to be the sentinel or a section count, and every value
the window itself writes is one (`StoredInRange`). The code also accepts a
negative value from the host: with no sections at all, it then opens an empty
window. `OpensIffUnseenSection` therefore leaves out only that case: a negative
value with no sections.

## Model

| member | source | states |
|---|---|---|
| `ChangelogEntry.Append` | Widgets/Changelog.cs:136-153 | appending an entry gives the text so far followed by exactly `Line(e)`; the loop emits one four-space unit per indent level |
| `ChangelogEntry.Line` | Widgets/Changelog.cs:138-152 | a line starts with "> ", ends with a newline, and has length 2 + (2 + 4·level if level > 0) + (4 if coloured) + 2 + \|text\| + 1 |
| `ChangelogEntry.LineIndent` | Widgets/Changelog.cs:139-144 | at a positive level the indent is `level` four-space units between two backticks; at level 0 the character after "> " is the bullet's `*` or `-`, not a backtick |
| `ChangelogEntry.LineSeesOnlyHighlight` | Widgets/Changelog.cs:145-150 | the colour reaches the line only through `Color != 0`: all non-zero colours give the same line, which is four characters (the bold markers) longer than, and different from, the uncoloured line |
| `ChangelogEntry.LineRoundTrip` | Widgets/Changelog.cs:136-153 | parsing an entry's line gives back its text, its level and whether it is coloured |
| `ChangelogEntry.LineDeterminesEntry` | Widgets/Changelog.cs:136-153 | two entries with the same line agree on text, level and colouredness |
| `Widgets.AddToLast` | Widgets/Changelog.cs:103 | adding to the last section keeps the count and every earlier section, keeps the last title, and appends the entry to the last section's entries |
| `Widgets.SectionCount` | Widgets/Changelog.cs:95-111 | the number of sections equals the number of `NextVersion` calls |
| `Widgets.SectionsAfterVersion` | Widgets/Changelog.cs:95-99 | starting a version appends one empty section titled as given and changes no earlier section |
| `Widgets.SectionsAfterAdd` | Widgets/Changelog.cs:101-111 | once a version exists, adding an entry changes only the last section, by appending that entry |
| `Widgets.FlattenSections` | Widgets/Changelog.cs:95-111 | the sections' entries, concatenated, are every registered entry in registration order |
| `Widgets.Decide` | Widgets/Changelog.cs:43-52 | the decision writes back exactly when the stored value is the sentinel, and then writes the section count and stays closed; it opens only when forced or the stored value is below the count |
| `Widgets.OpensIffUnseenSection` | Widgets/Changelog.cs:43-52 | unless the stored value is negative with no sections, the window opens unforced iff some section index is unseen (at least the stored value); a fresh install never opens |
| `Widgets.RecheckIsStable` | Widgets/Changelog.cs:41-53 | a second check over the same sections writes nothing; it opens as the first did, except that after a fresh install it opens iff forced |
| `Widgets.AcknowledgedStaysClosed` | Widgets/Changelog.cs:49-52 | with the section count stored, the window opens only when forced, and nothing is written |
| `Widgets.DefaultOpen` | Widgets/Changelog.cs:73 | the newest header is always expanded; with a stored value at or below 0 every header is; an older header is expanded iff it is unseen; with the count stored only the newest is |
| `Widgets.Changelog.constructor` | Widgets/Changelog.cs:30-39 | a new window has no sections, is closed, is not forced open, and has made no write; the stored value is in range iff the host gave the sentinel or 0 |
| `Widgets.Changelog.SetLastVersion` | Widgets/Changelog.cs:22 | the set accessor persists its value and logs one write |
| `Widgets.Changelog.NextVersion` | Widgets/Changelog.cs:95-99 | appends `(title, [])` to the sections, keeps the reference invariant and the stored-value range, and returns the window itself |
| `Widgets.Changelog.AddEntry` | Widgets/Changelog.cs:103 | appends an entry to the last section, keeping the reference invariant and the stored-value range |
| `Widgets.Changelog.RegisterHighlight` | Widgets/Changelog.cs:101-105 | appends `Entry(text, color, level)` to the last section, with colour `0xFF6060FF` and level 0 by default; needs a section; keeps the stored-value range |
| `Widgets.Changelog.RegisterEntry` | Widgets/Changelog.cs:107-111 | appends `Entry(text, 0, level)` to the last section; needs a section; keeps the stored-value range |
| `Widgets.Changelog.PreOpenCheck` | Widgets/Changelog.cs:41-53 | caches the stored value; on the sentinel closes and writes the section count once; otherwise opens iff forced or the stored value is below the count, with no write; afterwards the stored value is in range if it was, or if it was the sentinel |
| `Widgets.Changelog.DrawEntries` | Widgets/Changelog.cs:65-83 | one header per section, newest first: header j shows section \|sections\|-1-j with that absolute index, its title and entries, expanded iff the index is at least `lastVersion` or it is the newest; indices strictly decrease |
| `Widgets.Changelog.Understood` | Widgets/Changelog.cs:87-92 | writes the section count once iff it differs from the cached `lastVersion`; always clears `forceOpen`; the stored value is in range afterwards if it was, or if a write happened |
| `Widgets.Changelog.Draw` | Widgets/Changelog.cs:63-93 | a frame shows one header per section, newest first, each with its absolute index, title, entries and line-73 expansion; a click writes and stores the count iff it differs from the cached value and clears `forceOpen`; without a click nothing changes; the stored-value range is kept |

## Left out

- ImGui drawing: tree nodes, bullets, wrapped text, child windows, ID and colour
  pushes, button layout. `Draw` returns the headers instead. Whether a header is
  currently expanded is ImGui's state, toggled by the user; only its default is modelled.
- `Entry.Draw`: indentation by `1 + SubText` units and the colour push are
  drawing calls with no result to state.
- `PreDraw`: floating-point window sizing over the host's UI scale.
- The constructor's label, window flags, `Position`, `RespectCloseHotkey` and
  `ShowCloseButton`: host window configuration.
- `HeaderColor` and `DefaultHeaderColor`: presentation only.
- `CopyToClipboard`: a debug-only export that reads the mouse, the wall clock and
  writes the clipboard, swallowing every error. Only its per-entry `Entry.Append` is modelled.
- The first value the host's get accessor returns is not constrained: the code
  accepts any integer, negative or above the section count. `StoredInRange` holds
  whenever the host's value is the sentinel or lies in `[0, |sections|]`, and after
  every write by the window. A negative value, or one above the current count, lies
  outside it until enough sections exist or the window writes.
- The host's accessors are modelled as the field `stored` and the write log
  `writes`. Any persistence behind them is not part of this model.
- `lastVersion` and `stored` are unbounded integers. C#'s 32-bit `int` is not
  modelled. The only arithmetic, `Count - 1`, cannot overflow. A list's count also
  stays below `int.MaxValue`, so a written count never equals the sentinel. That is
  why `RecheckIsStable` and `AcknowledgedStaysClosed` require
  `count != FreshInstallVersion`.
- `Widgets.Changelog.RegisterHighlight`, `Widgets.Changelog.RegisterEntry`: calling them before any
  section exists throws in the code (`Last()` on an empty list). The model makes
  this a precondition instead of modelling the exception.
- The inner entry lists are updated in place in the code. The model replaces the
  section value; the lists are private, so no alias can observe the difference.
