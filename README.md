# Upload validation and rate limiting, modelled in Dafny

The uploader accepts a file over HTTP and stores it in a remote
source-control repository. Before anything is stored, the upload route
limits each client to a fixed number of requests per time window, checks the
file's declared size and extension, and turns the client's filename into a
safe path segment. The repository holds two drifting copies of these helpers:
`lib/` (used by `app/api/upload/route.ts`) and `src/lib/` (used by
`src/app/api/upload/route.ts`). This project models both copies, each as its
own module, and proves what they promise.

Modules:

- `Wrappers` — `Option`, standing for a value that may be `null`.
- `Text` — the JavaScript string built-ins the helpers use, restricted to
  ASCII: `toLowerCase`, `lastIndexOf`, `substring` (with its argument
  clamping and swapping), `trim`, and decimal rendering of whole numbers;
  `IndexOf` (the first position of a character) is how the model expresses
  `split(',')[0]`, and `Without` removes every occurrence of one character.
- `FileMeta` — the file record `(name, size)`, the 100 MiB default limit,
  the six-entry extension denylist and the extension both validators compute
  (identical in the two copies).
- `LibUtils` — `validateFile` (missing, too large, empty, denylisted),
  the permissive `sanitizeFilename` (drops `..`, keeps `_`, at most 200
  characters) and `getClientIp`.
- `SrcUtils` — `validateFile` without the empty check, and the strict
  `sanitizeFilename` (collapses `_` runs, keeps dots, at most 100 characters).
- `RateWindow` — the fixed-window decision of `checkRateLimit` (identical in
  both copies) as a function `Check` over the table of records, a series of
  calls `Run`, and the invariants and counting facts about them.
- `LibRateLimit`, `SrcRateLimit` — the module-level `rateLimitMap` as a class
  `RateLimiter` whose `records` map field `CheckRateLimit` updates in place,
  and each copy's `getRateLimitInfo` (unclamped in `lib/`, clamped at 0 in
  `src/lib/`). `Date.now()` is the parameter `now`.

The model follows the code, also where the two copies depart from what
their names suggest: the `src/lib/` validator has no empty-file check; the `src/lib/`
sanitizer does not remove `..`; `getRateLimitInfo` reports against the
constant 10 rather than the limit passed to `checkRateLimit`, and only the
`src/lib/` copy clamps at 0; the `lib/` sanitizer can return the empty string
(for `..`), while the `src/lib/` one cannot for a non-empty name.

## Model

| member | source | states |
|---|---|---|
| Text.Lower | lib/utils.ts:7 | `toLowerCase` keeps the length, lower-cases each ASCII letter and leaves every other character in place; no upper-case letter remains |
| Text.LowerWithoutUpper | lib/utils.ts:7 | `toLowerCase` returns text without upper-case letters unchanged |
| Text.LowerKeepsDots | lib/utils.ts:7 | `toLowerCase` has a `.` exactly where its input has one |
| Text.LastIndexOf | lib/utils.ts:7 | -1 exactly when the character is absent; otherwise an index holding it with no further occurrence after it |
| Text.IndexOf | lib/utils.ts:20 | -1 exactly when the character is absent; otherwise an index holding it with no earlier occurrence |
| Text.Substring | lib/utils.ts:15 | `substring` never lengthens; with in-range arguments it is the slice; a start at or below 0 gives the prefix up to the clamped end |
| Text.SubstringFrom | lib/utils.ts:7 | one-argument `substring`: a negative start (the -1 of a missing `.`) gives the whole string; an in-range start gives the suffix |
| Text.TrimStart | lib/utils.ts:20 | result is a suffix, everything dropped is white space, and it does not start with white space |
| Text.TrimEnd | lib/utils.ts:20 | result is a prefix, everything dropped is white space, and it does not end with white space |
| Text.Without | lib/utils.ts:14 | the input with one character removed throughout: that character no longer occurs (used to state that removing `..` touches only dots, and collapsing at src/lib/utils.ts:24 only underscores) |
| Text.TrimOfSlices | lib/utils.ts:20 | trimming the front and then the back leaves a slice with only white space around it |
| Text.Trim | lib/utils.ts:20 | `trim` returns a slice of the input with only white space around it and none at either end |
| Text.TrimmedHasNoNewCharacter | lib/utils.ts:20 | trimming adds no character: one absent from the input is absent from the result |
| Text.NatToString | lib/utils.ts:3 | decimal digits only, no leading zero |
| Text.NatToStringRoundTrip | lib/utils.ts:3 | reading the rendered digits back gives the number |
| FileMeta.MebibyteText | lib/utils.ts:3 | for a non-negative limit the text reads back as the limit in whole MiB |
| FileMeta.DefaultLimitText | lib/utils.ts:1-3 | the default limit 104857600 renders as `100` |
| FileMeta.Extension | lib/utils.ts:7 | with a `.` in the name: starts with `.` and holds no other `.` (the last extension); without: the whole name lower-cased; never an upper-case letter (same code at src/lib/utils.ts:12) |
| FileMeta.LastSegmentWithDot | lib/utils.ts:7 | with a `.` in the name, `substring(lastIndexOf('.'))` starts with that `.` and holds no other |
| FileMeta.IsDangerous | lib/utils.ts:6-9 | a refused name holds a `.` and ends, up to letter case, with a denylisted extension (also src/lib/utils.ts:11-14) |
| FileMeta.NoDotNeverDangerous | lib/utils.ts:6-9 | a name without `.` is never on the denylist (also src/lib/utils.ts:11-14) |
| FileMeta.OnlyLastExtension | lib/utils.ts:7-9 | for `stem + "." + tail` with no `.` in `tail`, the extension is `"." + tail` lower-cased, whatever the stem holds |
| FileMeta.UpperCaseExtensionDangerous | lib/utils.ts:7-9 | `A.EXE` is on the denylist: the check is case-insensitive |
| FileMeta.LowerDotExe | lib/utils.ts:7 | `.EXE` lower-cases to `.exe` |
| FileMeta.LastExtensionOfInnerExe | src/lib/utils.ts:12 | the extension of `a.exe.txt` is `.txt` |
| FileMeta.InnerExtensionNotDangerous | src/lib/utils.ts:12-14 | `a.exe.txt` is not on the denylist: only the last extension counts |
| LibUtils.Message | lib/utils.ts:2-9 | each error's message text; never empty |
| LibUtils.DefaultTooLargeMessage | lib/utils.ts:1-3 | with the default limit the size message is `File too large. Max: 100MB` |
| LibUtils.ValidateFile | lib/utils.ts:1-11 | `null` exactly when a file is present, non-empty, within the limit and not denylisted; `No file provided` exactly when absent; too large whenever over the limit; empty exactly when size 0 and within the limit; refused type exactly when present, non-empty, within the limit and denylisted |
| LibUtils.EmptyCheckedBeforeType | lib/utils.ts:3-9 | an empty `virus.exe` is reported as empty |
| LibUtils.SizeCheckedBeforeType | lib/utils.ts:3 | any oversized file, whatever its name, is reported as too large |
| LibUtils.RemoveDotDot | lib/utils.ts:14 | removing `..` never lengthens, leaves no two adjacent dots, keeps a leading non-dot, removes nothing but dots (`Without(_, '.')` is unchanged), and leaves a string without `..` unchanged |
| LibUtils.NoDotDotCons | lib/utils.ts:14 | putting a character in front of a string without `..` creates a `..` only when both are dots |
| LibUtils.RemoveDotDotSplit | lib/utils.ts:14 | cutting the input right after a character other than `.` cuts the output at the same place: no match spans the cut |
| LibUtils.DotPairSplit | lib/utils.ts:14 | a leading `..` is dropped whatever follows it |
| LibUtils.KeptHeadSplit | lib/utils.ts:14 | a leading character that starts no `..` is kept in front of the rest |
| LibUtils.DotPairInFront | lib/utils.ts:14 | the first two dots of a run of two or more are one match and are dropped |
| LibUtils.DotRunParity | lib/utils.ts:14 | a run of k dots followed by a non-dot leaves k mod 2 dots |
| LibUtils.DotRunParityStep | lib/utils.ts:14 | two more dots in front of a run leave the result unchanged |
| LibUtils.ShortDotRun | lib/utils.ts:14 | no dot or a single dot in front of a non-dot is left as it is |
| LibUtils.SingleDotKept | lib/utils.ts:14 | a lone dot in front of a non-dot is no match and stays |
| LibUtils.ReplaceUnsafe | lib/utils.ts:14 | same length, only `[A-Za-z0-9._-]`, safe characters kept in place, every other one becomes `_` |
| LibUtils.SanitizeFilename | lib/utils.ts:13-16 | output only `[A-Za-z0-9._-]`, no `..`, at most 200 characters and no longer than the input |
| LibUtils.SafeNameUnchanged | lib/utils.ts:13-16 | a name already safe, without `..` and within 200 characters is returned unchanged |
| LibUtils.SanitizeFixedPointIff | lib/utils.ts:13-16 | the output equals the input if and only if the input is already safe, without `..` and within 200 characters |
| LibUtils.SanitizeIdempotent | lib/utils.ts:13-16 | sanitizing twice equals sanitizing once |
| LibUtils.TraversalDotsDropped | lib/utils.ts:14 | `../x` loses its `..` |
| LibUtils.TraversalSlashReplaced | lib/utils.ts:14 | `/x` becomes `_x` |
| LibUtils.TraversalExample | lib/utils.ts:13-16 | `../x` becomes `_x` |
| LibUtils.DotsOnlyBecomeEmpty | lib/utils.ts:14-15 | `..` becomes the empty string |
| LibUtils.FirstSegment | lib/utils.ts:20 | `split(',')[0]`: no comma; the whole header when it has none, otherwise the prefix ending right before the first comma |
| LibUtils.GetClientIp | lib/utils.ts:18-21 | absent or empty header gives `unknown`; otherwise no comma, no longer than the header, no white space at either end |
| LibUtils.ClientIpIsTrimmedFirstSegment | lib/utils.ts:20 | the result is the first segment with only white space removed around it |
| LibUtils.ProxyChainFirstSegment | lib/utils.ts:20 | the first segment of ` a ,b` is ` a ` |
| LibUtils.PaddedHopTrimmed | lib/utils.ts:20 | ` a ` trims to `a` |
| LibUtils.ClientIpExample | lib/utils.ts:18-21 | ` a ,b` gives `a` |
| SrcUtils.Message | src/lib/utils.ts:2-16 | each error's message text; never empty |
| SrcUtils.DefaultTooLargeMessage | src/lib/utils.ts:1-8 | with the default limit the size message is `File too large. Max size: 100MB` |
| SrcUtils.ValidateFile | src/lib/utils.ts:1-19 | `null` exactly when a file is present, within the limit and not denylisted; `No file provided` exactly when absent; too large exactly when over the limit; refused type exactly when within the limit and denylisted |
| SrcUtils.EmptyFileAccepted | src/lib/utils.ts:1-19 | a size-0 file with a harmless name passes: there is no empty check |
| SrcUtils.ReplaceDisallowed | src/lib/utils.ts:23 | same length, only `[A-Za-z0-9._-]`, characters of `[A-Za-z0-9.-]` kept in place, every other one (including `_`) becomes `_` |
| SrcUtils.CollapseUnderscores | src/lib/utils.ts:24 | never lengthens, leaves no `__`, keeps the first character, removes nothing but underscores, keeps safety, and leaves a string without `__` unchanged |
| SrcUtils.UnderscoreRunCollapses | src/lib/utils.ts:24 | a run of one or more `_` in front of anything but `_` becomes exactly one `_` |
| SrcUtils.CollapseUnderscoresSplit | src/lib/utils.ts:24 | cutting the input right after a character other than `_` cuts the output at the same place: no run spans the cut |
| SrcUtils.UnderscorePairSplit | src/lib/utils.ts:24 | the first `_` of a leading `__` is dropped whatever follows |
| SrcUtils.KeptHeadSplit | src/lib/utils.ts:24 | a leading character that starts no `__` is kept in front of the rest |
| SrcUtils.SanitizeFilename | src/lib/utils.ts:21-26 | output only `[A-Za-z0-9._-]`, no `__`, at most 100 characters and no longer than the input |
| SrcUtils.SafeNameUnchanged | src/lib/utils.ts:21-26 | a name already safe, without `__` and within 100 characters is returned unchanged |
| SrcUtils.SanitizeFixedPointIff | src/lib/utils.ts:21-26 | the output equals the input if and only if the input is already safe, without `__` and within 100 characters |
| SrcUtils.SanitizeIdempotent | src/lib/utils.ts:21-26 | sanitizing twice equals sanitizing once |
| SrcUtils.NonEmptyNameStaysNonEmpty | src/lib/utils.ts:21-26 | a non-empty name never sanitizes to the empty string |
| SrcUtils.TraversalKeepsDots | src/lib/utils.ts:23 | `../x` becomes `.._x`: dots are kept |
| RateWindow.Check | lib/rate-limit.ts:3-15 | only the caller's entry may change and it is always present afterwards; allowed exactly when there is no live window or its count is below the cap; a refusal changes nothing; a missing or ended window restarts at `{1, now + window}`; an allowed live call adds exactly 1 and keeps the end (same code at src/lib/rate-limit.ts:3-21) |
| RateWindow.CheckKeepsCountsWithin | lib/rate-limit.ts:7-14 | with `max >= 1`, stored counts stay within `1..max` (also src/lib/rate-limit.ts:7-20) |
| RateWindow.BoundaryIsLive | lib/rate-limit.ts:7 | at `now == resetTime` the window is not restarted: allowed iff below the cap, and the count goes up by one or stays |
| RateWindow.LiveWindowRun | lib/rate-limit.ts:7-14 | inside a live window starting at count c, call i is allowed iff `c + i < max`; the window end never moves; the count stops at the cap |
| RateWindow.FreshWindowAdmitsExactlyMax | lib/rate-limit.ts:7-14 | from a missing or ended window, with every later call before the new end, exactly the first `max` calls are allowed and the stored count equals the number allowed |
| LibRateLimit.RateLimiter.constructor | lib/rate-limit.ts:1 | the table starts empty |
| LibRateLimit.RateLimiter.CheckRateLimit | lib/rate-limit.ts:3-15 | the verdict and the new table are those of `Check` on the old table; counts stay at least 1 |
| LibRateLimit.RateLimiter.GetRateLimitInfo | lib/rate-limit.ts:17-20 | unknown id: `{10, now + 60000}`; known id: remaining plus count is 10 (unclamped) and reset is the stored end, ended or not |
| LibRateLimit.RejectedReportsNothingLeft | lib/rate-limit.ts:12-19 | after a refusal under the limit 10, with counts already within `1..10`, remaining is 0 |
| LibRateLimit.RemainingGoesNegative | lib/rate-limit.ts:19 | after 11 calls in one window under a limit of 11, remaining is -1 |
| LibRateLimit.ThreeThenRefused | lib/rate-limit.ts:7-14 | under a limit of 3, calls at one time give allowed, allowed, allowed, refused |
| SrcRateLimit.RateLimiter.constructor | src/lib/rate-limit.ts:1 | the table starts empty |
| SrcRateLimit.RateLimiter.CheckRateLimit | src/lib/rate-limit.ts:3-21 | the verdict and the new table are those of `Check` on the old table; counts stay at least 1 |
| SrcRateLimit.RateLimiter.GetRateLimitInfo | src/lib/rate-limit.ts:23-33 | remaining always in `0..10`; unknown id: `{10, now + 60000}`; known id: reset is the stored end, remaining is `10 - count` up to 10 requests and 0 from 10 on |
| SrcRateLimit.RejectedReportsNothingLeft | src/lib/rate-limit.ts:15-32 | after a refusal under the limit 10, remaining is 0 whatever the table held |
| SrcRateLimit.RemainingClampedAtZero | src/lib/rate-limit.ts:30 | after 11 calls in one window under a limit of 11, the count is 11 and remaining is 0 |

## Left out

- `formatBytes` (src/lib/utils.ts:28-34): floating-point logarithms and rounding.
- FileMeta.MebibyteText, LibUtils.Message, SrcUtils.Message: the size message embeds `maxSize / 1024 / 1024` as a floating-point number; the model renders only its whole part, which is exact for limits that are whole MiB (such as the default) and drops the fraction otherwise.
- LibUtils.ValidateFile, SrcUtils.ValidateFile: `maxSize` is a whole number; the route can pass `NaN` (from `Number(process.env.MAX_FILE_SIZE)`), for which every comparison is false, and that case is not modelled.
- Unicode: `toLowerCase` and `trim` are modelled on ASCII only (letters `A`-`Z`; space, tab, line feed, carriage return, vertical tab, form feed).
- JavaScript strings are sequences of UTF-16 code units, and the regular expressions and `substring(0, N)` at lib/utils.ts:14-15 and src/lib/utils.ts:23-25 work on code units; the model works on characters. In the `lib/` copy a character outside the Basic Multilingual Plane therefore becomes one `_` in the model but two in the source (one per surrogate half), and it counts once rather than twice against the 200 limit. The `src/lib/` copy is not affected: `/_{2,}/g` merges the two `_` into one before `substring(0, 100)`, so the source too counts such a character once.
- Text and sizes are unbounded; JavaScript numbers lose precision beyond 2^53, which the counts, sizes and `now + window` never reach in practice.
- `rateLimitMap` is mutated in place (`record.count++`); the model replaces the entry in the map, which is equivalent because no record object ever leaves the limiter.
- The request's `x-forwarded-for` header and `Date.now()` are parameters; concurrency is not modelled (the source runs each call to completion on one thread).
- `lib/github.ts`, `src/lib/github.ts`: the remote store adapter consists of network calls; the upload and file routes, the pages and the layout are HTTP and UI plumbing. They are not part of this model, and neither is the order of calls in the upload route.
- The type declarations in `types/index.ts` and `src/types/index.ts` carry no behaviour; `RateLimitInfo` is modelled as a datatype in each rate-limit module.
