# Presence status service — Dafny model

The service shows one current presence status (by default "Tilgjengelig", "Møte" or
"Ute på oppdrag"). The status is chosen from an allow-list that is fixed at start-up.
Anyone can read the status together with the path of an image derived from it. A
caller who presents the shared token can change it through `GET /set?status=…` or
`POST /set` with a JSON body. The state is kept in memory and written to
`status.json` on every successful change.

The model has these modules:

- `Chars`: the character classes the service relies on, modelled on Python's
  `str.isspace`, `str.isalnum`, `str.isupper` and `str.lower`.
- `Text`: `str.strip`, `str.split(sep)` and `str.split(sep, 1)`, with their
  characterising properties (the split pieces join back to the input, strip removes
  only surrounding whitespace).
- `Slug`: `slugify` as its four stages. `SlugSpec` is an independent per-character
  reference for it. The module also holds the image path `/static/content/<slug>.png`.
- `Auth`: `check_auth` as a pure predicate over the configured token, the
  `Authorization` header and the `token` query parameter.
- `Config`: the allow-list comprehension over `ALLOWED_STATUSES`, and the stripped
  `AUTH_TOKEN`. Environment variables are passed in as `Option<string>`.
- `Store`: `load_status`, the `/set` request semantics as a state-transition function
  `Step`, and its iteration `Run`. The class `StatusService` holds the mutable state
  (`status`, `updatedAt`, the persisted `file`) and has the `GET /api/status`,
  `GET /set` and `POST /set` handlers as methods. The two `/set` handlers are proved
  equal to `Step`, and the `/api/status` handler is proved equal to `View`.

The clock is a parameter (`now`). The contents of `status.json` are a `file:
Option<Record>` (`None` while the file does not exist).

The `/set` handlers only ever store an allowed status. `load_status`, however, takes
an existing `status.json` as it is (app.py:27-29). So `StatusService.constructor`
establishes `Valid()` only when there is no file, or when the file's status is
allowed. The `/set` handlers preserve `Valid()` in every case.

## Model

| member | source | states |
|---|---|---|
| Chars.LowerSpec | app.py:46 | lower-casing leaves no upper-case letter, keeps alphanumerics alphanumeric, shifts upper-case letters by 0x20 and fixes everything else |
| Text.TrimStartSpec | app.py:20 | the left strip is a suffix of the input, what it cuts off is all whitespace, and it does not start with whitespace |
| Text.TrimEndSpec | app.py:20 | the right strip is a prefix of the input, what it cuts off is all whitespace, and it does not end with whitespace |
| Text.Strip | app.py:20 | the stripped string has no whitespace at either end |
| Text.StripChars | app.py:20 | every character of the stripped string occurs in the input |
| Text.StripInfix | app.py:20 | the stripped string is a contiguous piece of the input, and what is cut off on both sides is whitespace only |
| Text.StripEmpty | app.py:20 | a piece strips to the empty string exactly when it is all whitespace |
| Text.Split | app.py:16-19 | splitting yields one piece more than there are separators, no piece contains the separator, and joining the pieces with the separator gives back the input |
| Text.SplitOnce | app.py:55 | a single split yields two pieces exactly when the separator occurs, the first piece holds no separator, and the pieces join back to the input |
| Text.SplitOnceAfterWord | app.py:55 | when the input starts with a separator-free word and the separator, the single split yields that word and exactly the rest after the separator |
| Slug.TranslateChar | app.py:41-45 | every character outside the six Norwegian letters translates to itself |
| Slug.LowerAllSpec | app.py:46 | lower-casing keeps the length and lower-cases each character in place |
| Slug.HyphenateSpacesSpec | app.py:47 | keeps the length, turns each space into a hyphen and leaves every other character alone |
| Slug.KeepSlugCharsSpec | app.py:48 | the filter never lengthens the string, every character it lets through is an alphanumeric, `-` or `_` of the input, and every such character of the input is let through |
| Slug.KeepSlugCharsInsert | app.py:48 | the filter keeps characters in their order: a character between two parts stays in place exactly when it is alphanumeric, `-` or `_`, and is dropped otherwise |
| Slug.SlugifyAppend | app.py:39-48 | the slug of a concatenation is the concatenation of the slugs |
| Slug.SlugifyChar | app.py:39-48 | the slug of one character is its per-character contribution `CharSlug`; the Norwegian letters are translated before lower-casing, so Æ/Ø/Å become "ae"/"o"/"a" |
| Slug.SlugifyMatchesSpec | app.py:39-48 | the four-stage pipeline equals the per-character reference `SlugSpec` on every label |
| Slug.SlugifyInsert | app.py:39-48 | inserting a character contributes exactly its `CharSlug`: a space becomes "-", and any other disallowed character is dropped without replacement |
| Slug.SlugifyAlphabet | app.py:46-48 | with Latin-1 character classes, every slug character is a lower-case alphanumeric other than æ/ø/å, `-` or `_`; no space, `/` or `.` survives |
| Slug.SlugifyIdempotent | app.py:39-48 | with Latin-1 character classes, slugifying a slug gives the same slug |
| Slug.ImagePath | app.py:74 | the image path starts with `/static/content/`, ends with `.png`, holds exactly the slug in between, and that part holds no `/` or `.` |
| Auth.SplitAfterScheme | app.py:55 | the second part of the single space split of a `Bearer …` header is everything after `Bearer ` |
| Auth.CheckAuth | app.py:50-59 | a request passes exactly when no token is configured, or the header equals `Bearer ` + token, or the `token` query value equals the token |
| Config.NonEmptyKeeps | app.py:20 | the filter lets through only non-empty strings of its input |
| Config.KeptPositionsEntries | app.py:15-21 | the filter has one entry per kept position, and entry k is the string at the k-th kept position |
| Config.KeptPositionsComplete | app.py:20 | every non-empty string's position is among the kept positions |
| Config.NonEmptyIsEmpty | app.py:20 | the filter yields nothing exactly when every string is empty |
| Config.StrippedNonEmpty | app.py:15-21 | the comprehension yields at most as many entries as pieces, each non-empty and without surrounding whitespace |
| Config.StrippedNonEmptyKeepsOrder | app.py:15-21 | entry k is the stripped piece at the k-th kept position, kept positions strictly increase, and every piece with non-empty stripped form is kept |
| Config.BlankPieces | app.py:15-21 | every comma-separated piece strips to nothing exactly when the variable holds only commas and whitespace |
| Config.ParseAllowList | app.py:15-21 | every allow-list entry is non-empty, has no surrounding whitespace and contains no comma |
| Config.AllowListEmpty | app.py:15-21 | the allow-list is empty exactly when the variable holds only commas and whitespace |
| Config.LoadConfig | app.py:15-22 | the loaded allow-list consists of well-formed entries and the token has no surrounding whitespace |
| Store.Load | app.py:26-31 | start-up succeeds exactly when the file exists or the allow-list is non-empty; an existing file is taken as is; the default is the first allow-list entry stamped with the start-up time |
| Store.PostedStatus | app.py:94-95 | a POST body fails with a server error exactly when it is truthy and not an object, and yields a status exactly when it is an object whose `status` member is a string, namely that string |
| Store.Step | app.py:78-101 | 401 exactly when credentials fail; 500 exactly when the credentials pass and the POST body is a truthy non-object; 400 exactly when the credentials pass and the status is missing or not allowed, and it echoes the allow-list; every non-200 answer leaves the state unchanged; success exactly when the requested status is allowed, and then the state becomes that status stamped with the request time; the result is allowed or the old state |
| Store.RunKeepsAllowed | app.py:78-101 | from an allowed status, no sequence of `/set` requests reaches a status outside the allow-list |
| Store.RunFromStartup | app.py:26-31 | started without a file and with a non-empty allow-list, the default state and every state reached from it show an allowed status |
| Store.RunWithoutTokenChangesNothing | app.py:50-59 | with a token configured, any sequence of requests that do not present it leaves the state as it was |
| Store.View | app.py:69-76 | the status document reports the state's status, the configured allow-list and the state's `updated_at` (0 when absent); for an allowed state the status is among the allowed ones; the image is `/static/content/` followed by exactly the slug of the status and `.png` |
| Store.SetThenView | app.py:69-76 | after a successful set, the status document reports the requested, allowed status, the request time, and `/static/content/` + slug + `.png` as image |
| Store.StatusService.constructor | app.py:26-37 | the service starts with the loaded or default state and the existing file; the status is allowed when there was no file or the file's status is allowed |
| Store.StatusService.GetStatus | app.py:69-76 | the handler returns the status document of the current state, and while the service is valid the reported status is one of the reported allowed statuses |
| Store.StatusService.SetGet | app.py:78-88 | the handler's response and new state are those of `Step`; the file is rewritten with the new state exactly on success; an allowed status stays allowed |
| Store.StatusService.SetPost | app.py:90-101 | the same as `SetGet` for a JSON body, including the server error for a truthy non-object body |
| Store.StatusService.Commit | app.py:83-88 | an allowed status replaces the state, stamped with the time, and is saved and echoed; anything else changes nothing and answers with the allow-list |

## Left out

- Character classes are exact for code points up to U+00FF. Python's `isalnum`, `isupper` and `lower` on letters beyond Latin-1 are not modelled: such letters count as neither alphanumeric nor upper-case, so the model drops them from a slug. Whitespace follows Python's full `isspace` set.
- Slug.SlugifyIdempotent: holds only for the model's Latin-1 character classes. Python lower-cases U+212B (ANGSTROM SIGN) to `å` and keeps it as alphanumeric, so `slugify("\u212B")` is `"å"`, and slugifying that again gives `"a"`. U+212A (KELVIN SIGN, lowered to `k`) and U+0178 (lowered to `ÿ`) are further letters outside Latin-1 whose lower-case form lies inside it.
- Slug.SlugifyAlphabet: holds only for the model's Latin-1 character classes. In Python the slug of U+212B is `"å"`, so an `å` can survive; the lemma's exclusion of æ/ø/å relies on letters beyond U+00FF being dropped.
- No lemma evaluates `slugify` on the three default labels, because the verifier's cost of unfolding the functions over string literals is too high. The general lemmas `SlugifyChar` and `SlugifyInsert` give their per-character results (for example "Ute på oppdrag" gives "ute-pa-oppdrag").
- No lemma evaluates the default `ALLOWED_STATUSES` literal into its three entries, for the same reason.
- Store.PostedStatus: JSON numbers are whole numbers, so `0.0` as a falsy body is not modelled. A `status` member that is not a string is folded into "no status"; both lead to the same 400.
- The contents of `status.json` are a `Record`. JSON encoding and decoding are not modelled, and neither are a corrupt file, a file missing `status`, extra members echoed back after a change, or a failing write after the in-memory state has already changed.
- Flask routing, `abort`, `jsonify`, the static file routes (`/`, `/control.html`) and the creation of the data and content directories are not modelled.
- Request headers and parameters are reduced to the `Authorization` value, the `token` parameter and the `status` parameter or body.
- `os.getenv` and `time.time` are parameters.
- Concurrency between requests is not modelled. Requests are applied one at a time (`Run`).
- Store.StatusService.constructor: `Valid()` is only promised when there is no file or the file's status is allowed, because the source does not validate a loaded status.
