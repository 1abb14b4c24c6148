# Species and profile edit controllers

This project models the editing logic of a species/profile cataloguing web UI. Each editable
record has an edit dialog, which is a small state machine. It holds whether the dialog is
open (`openEdit`) and an error text (`editError`). The profile dialog also holds a second
error text, `inputError`. On submit, the controller:

1. looks up the session, and redirects if there is none;
2. compares the signed-in user with the record's owner. The owner is `author` for a species
   and `id` for a profile;
3. for a profile only, checks that the display name is not empty;
4. issues one update of the editable columns, keyed by the record's `id`. It then closes the
   dialog, clears the errors and refreshes the view.

The project also models the two `profileSchema` normalisers (trim the display name; a blank
biography becomes `null`) and the 150-character description preview on a species card.

Modules:

- `Wrappers`: `Option` for nullable values. `Nullish` for values that may also be
  `undefined`. `Written` says what an update payload field does to a column: `undefined` is
  dropped when the payload is serialised, and `null` is written.
- `JsText`: ECMAScript `String.prototype.trim` over the WhiteSpace and LineTerminator code
  points, and `slice(0, n)`. `Trim` is characterised independently of its recursion by
  `TrimPadded`.
- `EditFlow`: the user identifier, the four submit outcomes, and the two error texts.
- `EditSpecies`: the six-value `Kingdom` enumeration and its parse. Also the species row,
  the six editable columns, the store's effect of an update (`ApplyUpdate`, `Replay`), and
  the `SpeciesEditor` class.
- `EditProfile`: the two normalisers, the profile row, the store's effect of an update, and
  the `ProfileEditor` class.
- `SpeciesCard`: the card's description line.

How the external world is represented:

- The session lookup is a parameter, `session: Option<UserId>`.
- Each update call is recorded in the controller's `updates` log. The log entry holds the
  match id, the payload, and the caller whose session the request carries.
- `router.refresh()` increments the `refreshes` counter.
- `redirect("/")` is the `Redirected` outcome. Because `redirect` throws, a redirected
  submit changes nothing.

Behaviour of the code worth noting:

- Species submits have no required-field check.
- An empty profile display name sets a visible `inputError`. It is not a silent no-op.
- Closing the profile dialog does not clear `inputError`.
- Both forms are created by `useForm()` with no default values and no schema resolver
  (app/species/edit-species.tsx:73, app/user/edit-profile.tsx:93). A form field holds
  `undefined` until its `onChange` fires; the inputs' `defaultValue` props fill only the page.
  An `undefined` payload field is dropped when the update is serialised, so its column keeps
  its value. A species saved after changing only the common name writes only `common_name`
  (`EditSpecies.OnlyCommonNameWritten`). `kingdom` is written only if the select was used.
- The profile form is likewise handed to `editInfo` as raw field values, not transformed
  ones. `ProfileEditor.EditInfo` accepts any `ProfileFields`, which covers both.
  `ParseProfileForm` states what the check means once the schema has been applied: a
  whitespace-only name is refused.
- The profile biography input is not connected to the form
  (app/user/edit-profile.tsx:118-123): it has no `FormField` and no field binding. So
  `input.biography` is always `undefined`, the payload drops it, and the dialog never
  changes a profile's biography.

## Model

| member | source | states |
|---|---|---|
| `JsText.Trim` | app/user/edit-profile.tsx:27 | the result has no whitespace at either end, is no longer than the input, and is empty exactly when the input is all whitespace |
| `JsText.TrimIsInfix` | app/user/edit-profile.tsx:27 | the result is an infix of the input with only whitespace before and after it |
| `JsText.TrimPadded` | app/species/species-card.tsx:23 | a trimmed string surrounded by any whitespace trims back to itself; this pins down `trim` independently of how it is computed |
| `JsText.TrimIdempotent` | app/user/edit-profile.tsx:27 | trimming twice equals trimming once |
| `Wrappers.Written` | app/species/edit-species.tsx:57-64 | a payload field holding a value stores it, `null` clears the column, and `undefined` (dropped when the payload is serialised) keeps the column's value |
| `JsText.SliceTo` | app/species/species-card.tsx:23 | `slice(0, n)` is a prefix of length min(n, length) |
| `EditSpecies.ParseKingdom` | app/species/edit-species.tsx:74 | the parse accepts a string exactly when it is the name of one of the six kingdoms, and returns that kingdom; any other string is rejected |
| `EditSpecies.KingdomOptionsAccepted` | app/species/edit-species.tsx:122-136 | the selector offers six distinct options covering every kingdom, and the parse accepts each offered value as itself |
| `EditSpecies.Patched` | app/species/edit-species.tsx:57-64 | each of the six editable columns is written by its payload field: a value is stored, `null` clears the column, and `undefined` keeps it; `id` and `author` are never written |
| `EditSpecies.UntouchedFormWritesNothing` | app/species/edit-species.tsx:57-65 | saving a dialog whose fields were never changed leaves the row as it was |
| `EditSpecies.OnlyCommonNameWritten` | app/species/edit-species.tsx:57-65 | when only the common name was changed, only `common_name` is written; every other column, `kingdom` included, keeps its value |
| `EditSpecies.PatchedIdempotent` | app/species/edit-species.tsx:57-64 | applying the same payload twice equals applying it once |
| `EditSpecies.ApplyUpdate` | app/species/edit-species.tsx:55-65 | `update(...).eq("id", x)` turns each row whose id is x into that row patched by the payload; other rows are untouched; no row's id or author changes; no row appears or disappears |
| `EditSpecies.ApplyUpdateIdempotent` | app/species/edit-species.tsx:55-65 | issuing the same update twice, as a double submit would, leaves the table as issuing it once |
| `EditSpecies.ReplayKeepsOwners` | app/species/edit-species.tsx:54-65 | no sequence of updates adds or removes rows or changes any row's id or author |
| `EditSpecies.ReplayTouchesOnlyMatch` | app/species/edit-species.tsx:54-65 | a log of updates all keyed by one id leaves every other row as it was |
| `EditSpecies.SpeciesEditor.constructor` | app/species/edit-species.tsx:29-30 | the dialog starts closed with no error, no update issued and no refresh |
| `EditSpecies.SpeciesEditor.HandleClickToOpenEdit` | app/species/edit-species.tsx:34-36 | opening sets `openEdit` and changes nothing else, so `editError` is kept |
| `EditSpecies.SpeciesEditor.HandleToCloseEdit` | app/species/edit-species.tsx:37-40 | closing clears `openEdit` and sets `editError` to "" and changes nothing else |
| `EditSpecies.SpeciesEditor.EditInfo` | app/species/edit-species.tsx:44-71 | no session: redirect, no state change. Caller is the author: exactly one update, keyed by the species id, with the six form fields; then the dialog is closed, the error is "", and one refresh follows. Otherwise: no update, no refresh, `openEdit` kept, and `editError` is the wrong-account text. Form fields the user never changed are `undefined` in the payload. The invariant kept: every issued update targets this species, was issued by its author, and was followed by a refresh |
| `EditProfile.DisplayNameTransform` | app/user/edit-profile.tsx:23-27 | a string becomes its trimmed form, which is empty exactly when the input is whitespace only; `null` becomes `undefined`, never `null` |
| `EditProfile.DisplayNameOfPadded` | app/user/edit-profile.tsx:23-27 | a trimmed display name surrounded by any whitespace normalises to itself |
| `EditProfile.DisplayNameIdempotent` | app/user/edit-profile.tsx:23-27 | transforming a transformed display name gives it back unchanged |
| `EditProfile.BiographyTransform` | app/user/edit-profile.tsx:28-31 | an empty or whitespace-only string becomes `null`; any other string becomes its trimmed form, which is non-empty; `null` becomes `undefined` |
| `EditProfile.BiographyIdempotentOnText` | app/user/edit-profile.tsx:28-31 | when the transform yields text, transforming that text yields the same text |
| `EditProfile.BiographyOfPadded` | app/user/edit-profile.tsx:28-31 | a non-empty trimmed biography surrounded by any whitespace normalises to itself |
| `EditProfile.HasDisplayName` | app/user/edit-profile.tsx:72 | the loose check `display_name != ""` fails exactly on a present empty string; `undefined` and `null` pass it |
| `EditProfile.ParseProfileForm` | app/user/edit-profile.tsx:22-32 | the schema's output never has a `null` display name or an empty-string biography, and the required-field check on it fails exactly when the entered name is whitespace only |
| `EditProfile.Patched` | app/user/edit-profile.tsx:73-79 | an update writes `display_name` and `biography` when present or `null`, leaves each untouched when `undefined`, and never writes `id` or `email` |
| `EditProfile.ApplyUpdate` | app/user/edit-profile.tsx:73-79 | each row whose id matches becomes that row patched by the payload; other rows are untouched; no row appears, disappears, or changes its id or email |
| `EditProfile.SchemaUpdateKeepsDisplayName` | app/user/edit-profile.tsx:72-79 | a schema-normalised payload never clears a row's display name, and writes a non-empty one when the check passes on an entered name |
| `EditProfile.ProfileEditor.constructor` | app/user/edit-profile.tsx:36-42 | the dialog starts closed with both errors empty, no update issued and no refresh |
| `EditProfile.ProfileEditor.HandleClickToOpenEdit` | app/user/edit-profile.tsx:48-50 | opening sets `openEdit` and keeps both errors |
| `EditProfile.ProfileEditor.HandleToCloseEdit` | app/user/edit-profile.tsx:52-55 | closing clears `openEdit` and `editError` but leaves `inputError` as it was |
| `EditProfile.ProfileEditor.EditInfo` | app/user/edit-profile.tsx:59-91 | no session: redirect, no state change. Owner with a display name other than "": exactly one update keyed by the profile id with the two form fields, whose biography is always `undefined` because its input is not bound to the form; then the dialog is closed, both errors are "", and one refresh follows. Owner with "": no update, dialog and `editError` kept, and `inputError` is the required-fields text. Not the owner, whatever the display name: no update, `openEdit` and `inputError` kept, and `editError` is the wrong-account text. The invariant kept: every issued update targets this profile, was issued by its owner, passed the check, and was followed by a refresh |
| `SpeciesCard.CardDescription` | app/species/species-card.tsx:23 | a null or empty description gives ""; any other, even whitespace only, gives the trimmed first 150 characters followed by "..."; the result is at most 153 characters long |
| `SpeciesCard.ShortDescriptionShownWhole` | app/species/species-card.tsx:23 | a description of at most 150 characters gives its trimmed form followed by "..." |
| `SpeciesCard.BlankDescriptionShowsEllipsis` | app/species/species-card.tsx:23 | a whitespace-only description gives exactly "..." |

## Left out

- Supabase calls (`getSession`, `.from().update().eq()`): the session is a parameter, and each update call is logged. The store's effect is the pure `ApplyUpdate`. The `{ data, error }` result is ignored by the code, so backend failures are not modelled.
- Row-level security or any other check inside the store is not modelled. The log records the caller, but `ApplyUpdate` does not consult it.
- `redirect` and `router.refresh` are an outcome tag and a counter, not navigation.
- JSX rendering, react-hook-form field binding, the dialog, select and input components, and `next/image`: UI-library plumbing. In particular, the species error paragraph always shows a fixed text when `editError` is non-empty (app/species/edit-species.tsx:193).
- The kingdom selector's change handler: a failed parse throws inside the handler, so the field keeps its value. The model only gives the parse result.
- The `total_population` coercion `+event.target.value` is JavaScript number/NaN semantics (floating point). `totalPopulation` is an optional integer.
- The species form schema `speciesSchema` is defined in app/species/add-species-dialog.tsx, which is not part of this model; it is imported only as a type, so no schema runs on the species form.
- The database schema (`lib/schema`) is not part of this model. Identifiers are strings, and every editable column (a profile's display name and a species' kingdom included) is nullable.
- `SliceTo`, `CardDescription`: JavaScript's `slice` counts UTF-16 code units, while the model counts Unicode code points. The two agree on text inside the Basic Multilingual Plane. A description with characters outside it is cut at a different place, and the model cannot represent a split surrogate pair.
- `IsWhitespace` lists the Unicode space separators of current Unicode versions; an engine built on a different Unicode version may differ.
- `BiographyIdempotentOnText`: applying the biography transform twice equals applying it once only when the first result is text. A blank biography becomes `null`, and the transform maps `null` to `undefined` through optional chaining.
- Async interleavings (a double submit, or a late response after cancel) are not modelled: each submit is atomic and sequential. `ApplyUpdateIdempotent` covers the table's side of a repeated identical update.
- app/species/species-card-detailed-view.tsx and app/user/profile-dialog.tsx (a plain open/close toggle and verbatim rendering), app/user/page.tsx (a server-side session fetch and table select), and app/user/profile-card.tsx (rendering only).
