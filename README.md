# Icon picker (`icon-select` form control) in Dafny

This project models the logic inside the amis `icon-select` form control,
`IconSelectControl` in `packages/amis/src/renderers/Form/IconSelect.tsx`.
The control shows the chosen icon. It opens a modal for browsing a
categorised icon catalog and writes the chosen icon back into the form.
Two parts of it carry logic, and both are modelled.

- **The value codec** (`icon_codec.dfy`, on top of `svg_text.dfy`). It
  covers the translation between the committed form value and the in-modal
  `IconChecked` record:
  - `getSvgName` and `getSvgId` read the `data-name="…"` and `data-id="…"`
    attributes.
  - `getValueBySvg` decodes a value and strips `'` characters.
  - Confirming in `returnSvg` mode annotates the first `<svg` tag. With
    `noSize` it also deletes the first `width="…"` and then the first
    `height="…"`.
  - Confirming in structured mode prefixes the id with `svg-`.
  - Reopening strips a leading `svg-` from the id.
  - The module also holds the selection toggle and the category lookup
    `getIconsByType`.

  The regular expressions are modelled with their ECMAScript meaning:
  - `.` does not match a line terminator (`\n`, `\r`, U+2028, U+2029).
    A `data-name="…"` whose value crosses a line break is therefore skipped,
    and the search moves on to a later occurrence.
  - The replacement text given to `replace` expands `$$`, `$&`, `` $` `` and
    `$'`.
  - `width="` also matches inside `stroke-width="`.

  The searches for one match are specified by reference predicates
  (`FirstOccurrence`, `FirstQuoted`, `FirstDeleted`: the leftmost match), and
  each such function's contract ties its result to them. The global
  `replace(/'/g, '')` is specified by `RemoveAll`'s contract (no `'` is left,
  every other character keeps its multiplicity, text without `'` is kept)
  together with `RemoveAllAppend`, which fixes the order of what is kept.

  The round-trip lemmas need a name and an id that the decoder can read back
  (`PlainAttribute`): no `"`, no `$`, no line terminator, and no `=` as the
  last character. A name ending in `data-id=` would put a `data-id="` inside
  the annotated tag ahead of the real one. An `=` anywhere else is allowed.
- **The modal and selection state machine** (`icon_select.dfy`). The class
  `IconSelectControl` has the five state fields of the source. It has one
  method per handler. `setState` merges a partial record, so every method
  states both the fields it sets and the fields it keeps. The host's props
  (`disabled`, `returnSvg`, `noSize`, the committed `value`) are method
  parameters. Each `onChange` call is the method's `emitted` result.

Three behaviours of the code, kept as they are:
- When the modal opens on a structured (object) value, the code takes the
  object as it is. It does not pass it through `getValueBySvg`, so its `svg`
  keeps its `'` characters. Only string values are decoded.
- `handleClear` does not test `disabled`. Only the rendering hides the clear
  button on a disabled control.
- `getIconsByType` returns `[]` only for an empty catalog. An index past the
  end of a non-empty catalog makes the code read `.children` of `undefined`,
  which throws. `IconsByType` returns `None` for that case.

## Model

| member | source | states |
|---|---|---|
| `SvgText.Find` | packages/amis/src/renderers/Form/IconSelect.tsx:217-218 | the index found is the leftmost occurrence of the pattern; `None` exactly when the pattern occurs nowhere |
| `SvgText.Substitution` | packages/amis/src/renderers/Form/IconSelect.tsx:217-220 | a replacement text without `$` is inserted unchanged (`$$`, `$&`, `` $` ``, `$'` are expanded as `String.prototype.replace` does) |
| `SvgText.SubstitutionPlainPrefix` | packages/amis/src/renderers/Form/IconSelect.tsx:217-220 | a `$`-free prefix of the replacement text passes through before the expansion of the rest |
| `SvgText.ReplaceFirst` | packages/amis/src/renderers/Form/IconSelect.tsx:217-220 | `replace(/<svg/, t)` changes only the leftmost occurrence, into the expansion of `t`, and leaves text without an occurrence unchanged |
| `SvgText.RemoveAll` | packages/amis/src/renderers/Form/IconSelect.tsx:114-120 | `replace(/'/g, '')` leaves no `'`, keeps every other character with its multiplicity, and is the identity on text without `'` |
| `SvgText.RemoveAllAppend` | packages/amis/src/renderers/Form/IconSelect.tsx:114-120 | removing `'` from a concatenation is removing it from each part: with the one-character cases, every other character stays in its place and order |
| `SvgText.QuoteEnd` | packages/amis/src/renderers/Form/IconSelect.tsx:90 | the lazy `.*?"` stops at the first quote and fails when a line terminator comes first |
| `SvgText.MatchQuoted` | packages/amis/src/renderers/Form/IconSelect.tsx:90 | the search for `/M.*?"/` returns a match and no earlier start matches, or reports that no start matches |
| `SvgText.MatchQuotedIsFirst` | packages/amis/src/renderers/Form/IconSelect.tsx:90 | the leftmost match is unique and it is what the search returns |
| `SvgText.Capture` | packages/amis/src/renderers/Form/IconSelect.tsx:90 | `/M(.*?)"/.exec(s)?.[1] \|\| ''` is the text between the leftmost match's marker and its quote, or `''` when nothing matches |
| `SvgText.CaptureOf` | packages/amis/src/renderers/Form/IconSelect.tsx:88-102 | markup whose first marker is followed by `v"`, with `v` free of quotes and line breaks, yields exactly `v` |
| `SvgText.DeleteFirstQuoted` | packages/amis/src/renderers/Form/IconSelect.tsx:221-223 | `replace(/M.*?"/, '')` deletes exactly the leftmost match and keeps everything before and after it; no match leaves the text unchanged (`FirstDeleted`) |
| `SvgText.FirstDeletedUnique` | packages/amis/src/renderers/Form/IconSelect.tsx:221-223 | the text left by deleting the leftmost match is determined by the input |
| `IconCodec.GetSvgName` | packages/amis/src/renderers/Form/IconSelect.tsx:88-94 | markup gives the text between the first matching `data-name="` and its quote, or `''`; an object gives its non-empty name, else its id; nothing gives `''` |
| `IconCodec.GetSvgId` | packages/amis/src/renderers/Form/IconSelect.tsx:96-102 | markup gives the text between the first matching `data-id="` and its quote, or `''`; an object gives its id |
| `IconCodec.GetValueBySvg` | packages/amis/src/renderers/Form/IconSelect.tsx:104-121 | null exactly for a falsy value; any `svg` in the result has no `'`; an object keeps every field but `svg`; markup gives `{name: getSvgName, id: getSvgId, svg: markup without '}` |
| `IconCodec.DecodeWithoutAttributes` | packages/amis/src/renderers/Form/IconSelect.tsx:104-121 | markup without `data-name="`/`data-id="` decodes to an empty name and id |
| `IconCodec.Annotate` | packages/amis/src/renderers/Form/IconSelect.tsx:214-220 | no checked svg gives `''`; otherwise, for a `$`-free name and id, the first `<svg` becomes `<svg data-name="N" data-id="I"`, with a missing name written `undefined`, and the rest is kept |
| `IconCodec.StripSize` | packages/amis/src/renderers/Form/IconSelect.tsx:221-223 | the leftmost `width="…"` match is deleted, then the leftmost `height="…"` match of what remains (`FirstDeleted` twice) |
| `IconCodec.EncodeSvg` | packages/amis/src/renderers/Form/IconSelect.tsx:213-224 | with no checked icon the emitted markup is `''`; otherwise it is the annotated markup, with its size attributes stripped exactly when `noSize` is set |
| `IconCodec.NoSizeLayout` | packages/amis/src/renderers/Form/IconSelect.tsx:213-224 | with `noSize`, markup `<svg` + pad + `width="w"` + pad' + `height="h"` + rest (quote-free pads) becomes the annotated tag + pad + pad' + rest: both size attributes are gone and nothing else changes |
| `IconCodec.StripKeepsTag` | packages/amis/src/renderers/Form/IconSelect.tsx:221-223 | `noSize` never cuts into the inserted tag, whatever follows it: no `width="…"`/`height="…"` match starts inside it, since its last character is a `"` and a size marker's only `"` is its last |
| `IconCodec.NoSizeRoundTrip` | packages/amis/src/renderers/Form/IconSelect.tsx:213-224 | decoding the markup emitted with `noSize` gives back the icon's name and id, for any markup that opens with `<svg` (any attributes, in any order) and a plain name and id |
| `IconCodec.DecodeTagged` | packages/amis/src/renderers/Form/IconSelect.tsx:88-121 | markup holding `<svg data-name="N" data-id="I"`, with neither marker before it, decodes to name `N` and id `I` |
| `IconCodec.AnnotatedRoundTrip` | packages/amis/src/renderers/Form/IconSelect.tsx:213-224 | decoding the markup emitted in `returnSvg` mode gives back the icon's name and id (markup with a `<svg` tag and no attribute before it, plain name and id) |
| `IconCodec.StrokeWidthQuirk` | packages/amis/src/renderers/Form/IconSelect.tsx:221-223 | `noSize` turns `<path stroke-width="2"/>` into `<path stroke-/>`: the first `width="` is inside `stroke-width` |
| `IconCodec.LineBreakInName` | packages/amis/src/renderers/Form/IconSelect.tsx:88-94 | a `data-name` value that spans a line break is not read: the name is `''` |
| `IconCodec.DollarInName` | packages/amis/src/renderers/Form/IconSelect.tsx:217-220 | a name holding `$&` is written with the matched `<svg` in place of `$&` |
| `IconCodec.EncodeStructured` | packages/amis/src/renderers/Form/IconSelect.tsx:225-231 | `''` exactly when no icon with a non-empty id is checked; otherwise the icon with `id = 'svg-' + id` and name, svg and other fields unchanged |
| `IconCodec.StripSvgPrefix` | packages/amis/src/renderers/Form/IconSelect.tsx:415 | one leading `svg-` is removed; an id without it is unchanged |
| `IconCodec.StripOnlyLeading` | packages/amis/src/renderers/Form/IconSelect.tsx:415 | only a leading `svg-` is stripped, and only once (`svg-svg-home` gives `svg-home`) |
| `IconCodec.ReopenSelection` | packages/amis/src/renderers/Form/IconSelect.tsx:396-419 | closing seeds null; opening seeds null unless the (decoded) value has a non-empty id, and then the value with `svg-` stripped from its id: an object keeps its other fields, markup gives the decoded name and svg and no other properties |
| `IconCodec.StructuredRoundTrip` | packages/amis/src/renderers/Form/IconSelect.tsx:410-418 | reopening on the value confirmed in structured mode (line 229 adds `svg-`) gives back the selected icon with its catalog id |
| `IconCodec.ClickIcon` | packages/amis/src/renderers/Form/IconSelect.tsx:244-248 | deselects exactly when the clicked id is the selected one; otherwise the clicked icon becomes the selection |
| `IconCodec.ClickTwice` | packages/amis/src/renderers/Form/IconSelect.tsx:244-248 | two clicks on one icon end with no selection exactly when the selection did not already have its id; from none they end at none |
| `IconCodec.IconsByType` | packages/amis/src/renderers/Form/IconSelect.tsx:387-394 | an empty catalog gives `[]`; otherwise the active category's icons, and a failure exactly when the index is past the end |
| `IconSelect.IconSelectControl.constructor` | packages/amis/src/renderers/Form/IconSelect.tsx:71-77 | a new control is closed, has no selection, no search text, category 0 and no refresh in flight |
| `IconSelect.IconSelectControl.ToggleModel` | packages/amis/src/renderers/Form/IconSelect.tsx:396-419 | with no argument flips `showModal` and keeps the selection; with one sets `showModal` and seeds the selection; always clears the search and keeps the category |
| `IconSelect.IconSelectControl.HandleClick` | packages/amis/src/renderers/Form/IconSelect.tsx:123-130 | a disabled control is unchanged; otherwise the modal opens with the search cleared and the selection seeded from the value |
| `IconSelect.IconSelectControl.HandleClear` | packages/amis/src/renderers/Form/IconSelect.tsx:132-137 | emits `''` and changes no state |
| `IconSelect.IconSelectControl.HandleIconTypeClick` | packages/amis/src/renderers/Form/IconSelect.tsx:179-184 | only `activeTypeIndex` changes |
| `IconSelect.IconSelectControl.HandleClickIconInModal` | packages/amis/src/renderers/Form/IconSelect.tsx:244-248 | only the selection changes, as `ClickIcon` says |
| `IconSelect.IconSelectControl.HandleSearchValueChange` | packages/amis/src/renderers/Form/IconSelect.tsx:292-296 | only `searchValue` changes |
| `IconSelect.IconSelectControl.HandleConfirm` | packages/amis/src/renderers/Form/IconSelect.tsx:212-235 | emits the selection encoded in the configured mode, then closes with no selection and no search text; the category is kept |
| `IconSelect.IconSelectControl.HandleLocalUpload` | packages/amis/src/renderers/Form/IconSelect.tsx:237-242 | emits the uploaded icon as it is and closes the modal |
| `IconSelect.ConfirmThenReopen` | packages/amis/src/renderers/Form/IconSelect.tsx:212-235 | open, select, confirm in structured mode, reopen on the committed value: the same icon is selected again under its catalog id |
| `IconSelect.ClickSameIconTwice` | packages/amis/src/renderers/Form/IconSelect.tsx:244-248 | two clicks on one icon from no selection leave no selection and the modal as it was |

## Left out

- Rendering (`render`, `renderInputArea`, `renderIconTypes`, `renderIconList`, `renderModalContent`) and so the derived category list and the "no data" message: they produce UI, and their only logic is the state they read.
- Search filtering with `matchSorter`: a foreign library whose ranking is not visible. Only the `searchValue` setter is modelled.
- The 300 ms `debounce` around `handleSearchValueChange`: timer scheduling.
- `handleRefreshIconList` and the `isRefreshLoading` transitions: asynchronous plumbing over the `IconSelectStore` module. `IconSelectStore` is not part of this model; its catalog is an input (`seq<Group>`).
- The `@FormItem` and `@autobind` decorators, `classnames` and the `amis-ui` components: framework wiring.
- `preventDefault` and `stopPropagation` in `handleClear`: DOM event plumbing.
- An absent `onChange` prop: every handler returns what it would emit, and a host without `onChange` drops it.
- Form values other than absent, a string or an icon object (numbers, for one), and object properties that are not strings: `extra` stands for the properties a spread copies, with string values.
- Catalog icons are taken to be objects with string ids. The case of a `null` icon, or one without an id, compared with an empty selection (`undefined === undefined`) is not modelled.
- The source works on UTF-16 code units and the model on Unicode scalar values. The markers are ASCII, so the matches found are the same.
- `NoSizeLayout` gives the exact output only for markup that opens with `<svg` and carries `width` before `height`, with quote-free text between them; for any other markup `StripSize`'s contract states the output.
- `NoSizeRoundTrip` is proved for markup that opens with `<svg`. Markup with text before the tag is not covered with `noSize`: a `width="` or `height="` match that starts before the tag can run into the inserted attributes.
