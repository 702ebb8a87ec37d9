# Player statistics page of mcfruit-web, modelled in Dafny

The mcfruit-web site has one piece of data processing: the player-statistics
lookup in `stats.js`. A visitor types a username. `searchPlayer` trims it and
rejects an empty name. Otherwise it shows the loading indicator, fetches
`{API_BASE_URL}/player/{username}` and ends in one of two states. On success,
`displayPlayerStats` fills the stats panel from the returned record. On
failure, the error panel shows a message.

This project models that pipeline:

- `wrappers.dfy` (module `Wrappers`): `Option`, for the fields a JSON record may
  leave out.
- `js_text.dfy` (module `JsText`): the JavaScript string operations the page
  depends on. These are `trim`, `toLowerCase`, the decimal text of integers,
  and `toFixed(1)` on a whole number of tenths. Each formatter comes with a
  parser and a round-trip lemma.
- `player_stats.dfy` (module `PlayerStats`): the page's pure rules. It holds
  the API records and the zero-safe win rate. It holds the signed streak text
  and the game-mode display names (`formatModeName`). It holds `Render`, the
  view a record turns into. It also holds the request URL and the
  failure-message rules.
- `stats_page.dfy` (module `StatsPage`): class `Page`, the page's mutable
  state. Its fields are the visibility of the loading, error and stats panels,
  the error text, the stats slots, and a log of issued requests.
  - `DisplayPlayerStats` writes the slots. Its loop fills the game-mode
    container.
  - `BeginSearch` is the part of `searchPlayer` before the `await`.
    `FinishSearch` is the part after it, with the fetch result passed in as a
    `FetchOutcome`. `SearchPlayer` runs both.

The network is replaced by the `FetchOutcome` parameter. The outcome is either
a response (a status and a body that parses or throws) or a thrown network
error. HTTP `ok` is status 200–299.

A non-ok status other than 404 shows `Failed to fetch player stats`
(stats.js:30). Any thrown error, whether from `fetch` or from
`response.json()`, shows its own `message` (stats.js:46).

## Model

The defining functions have no rows of their own; the lemmas and methods listed here carry their contracts. These are `PlayerStats.Render`, `PlayerStats.RenderCard`, `PlayerStats.WinRateText`, `PlayerStats.StreakText`, `PlayerStats.NotFoundMessage`, `PlayerStats.AvatarId`, `PlayerStats.RankText`, `PlayerStats.EloOrDefault` and `JsText.Trim`.

| member | source | states |
|---|---|---|
| `JsText.TrimStartShape` | stats.js:7 | dropping leading white space leaves a suffix of the input that does not start with white space; everything dropped is white |
| `JsText.TrimEndShape` | stats.js:7 | dropping trailing white space leaves a prefix of the input that does not end with white space; everything dropped is white |
| `JsText.TrimHasNoWhiteEnds` | stats.js:7 | the trimmed username neither starts nor ends with white space |
| `JsText.TrimIsSlice` | stats.js:7 | the trimmed username is a contiguous slice of the input, with only white space cut off on either side |
| `JsText.TrimEmptyIff` | stats.js:7-12 | the trimmed input is empty exactly when the input is all white space, which is the case the search rejects |
| `JsText.TrimIdempotent` | stats.js:7 | trimming an already trimmed name changes nothing |
| `JsText.LowerIdempotent` | stats.js:123 | lower-casing keeps the length and lower-casing twice equals lower-casing once |
| `JsText.NatToStringShape` | stats.js:56 | the decimal text of a natural number is non-empty digits with no leading zero, and 0 prints as `0` |
| `JsText.ParseNatToString` | stats.js:56 | the decimal text of `n` reads back as `n` |
| `JsText.NatToStringParse` | stats.js:56 | every digit string without a superfluous leading zero is the decimal text of its value |
| `JsText.IntToStringRoundTrip` | stats.js:68 | an integer's text starts with `-` exactly when it is negative, and it reads back as the integer |
| `JsText.FixedOneRoundTrip` | stats.js:62 | `toFixed(1)` text is digits, a point and exactly one digit, and reads back as the number of tenths |
| `PlayerStats.WinRateTenths` | stats.js:59-63 | the rate in tenths is at most 1000; it is 0 when wins + losses = 0; otherwise it is at most half a tenth from wins/(wins+losses)·100, a bound both choices at a tie meet |
| `PlayerStats.WinRateRoundsHalfUp` | stats.js:61-63 | the model's rounding: at an exact tie it takes the upper tenth |
| `PlayerStats.WinRateNearest` | stats.js:61-63 | the half-up bound determines the rate: no other number of tenths satisfies it |
| `PlayerStats.WinRateDeterminedOffTies` | stats.js:61-63 | away from an exact tie, every number of tenths within half a tenth of the exact rate is the model's rate, so any correct rounding agrees with it |
| `PlayerStats.WinRateTieExample` | stats.js:62 | 3 wins and 1997 losses is a tie between 0.1 and 0.2; the model takes 0.2 |
| `PlayerStats.WinRateExtremes` | stats.js:61-63 | no wins gives 0 tenths; wins with no losses gives 1000 tenths |
| `PlayerStats.WinRateTextReadsBack` | stats.js:61-67 | the win-rate text is a one-decimal number then `%`; it reads back as the rate, which lies between 0.0 and 100.0 |
| `PlayerStats.WinRateTextExtremes` | stats.js:61-67 | the win-rate text is `0.0%` when there are no wins (in particular with no decided games) and `100.0%` with wins but no losses |
| `PlayerStats.StreakTextRoundTrip` | stats.js:68 | the streak text is `+` exactly for a streak of 0 or more, otherwise `-`, then the magnitude; it reads back as the streak |
| `PlayerStats.ModeNamesSpellTheirKeys` | stats.js:115-122 | every display name in the table lower-cases to its key |
| `PlayerStats.FormatModeName` | stats.js:114-124 | a name matching a key in any letter case maps to that key's display name; any other name comes back unchanged; either way the result equals the input ignoring case |
| `PlayerStats.FormatModeNameIdempotent` | stats.js:114-124 | formatting an already formatted name changes nothing |
| `PlayerStats.FormatModeNameIgnoresCase` | stats.js:123 | two names that differ only in case get the same display name when known, and each is passed through otherwise |
| `PlayerStats.FormatModeNameAsWritten` | stats.js:115-123 | the lookup through an object literal agrees with `FormatModeName` except on names that lower-case to an inherited member |
| `PlayerStats.AsWrittenLosesConstructor` | stats.js:123 | the as-written lookup turns an unknown mode named `constructor` into the text of the `Object` function, where the corrected lookup passes it through |
| `PlayerStats.RenderCardSign` | stats.js:102 | a card's streak is tagged positive exactly when its text starts with `+`, and negative exactly when it starts with `-` |
| `PlayerStats.Cards` | stats.js:75-107 | one card per game mode, and card `i` is the rendering of mode `i` |
| `PlayerStats.CardsAppend` | stats.js:75-107 | appending a mode to the list appends its card at the end of the container |
| `PlayerStats.ModeSlots` | stats.js:71-110 | the container is never empty; it is the lone placeholder exactly when the mode list is absent or empty, and the placeholder never sits beside cards |
| `PlayerStats.RenderHeader` | stats.js:53-68 | the avatar comes from the uuid, or from the username when the uuid is missing or empty; a missing or zero rank shows `Rank #-`, any other rank `Rank #` and its number; missing totals are 0 with rate `0.0%`; the streak text's sign follows the streak |
| `PlayerStats.RenderModes` | stats.js:71-110 | the rendered container holds exactly one card per mode in list order with no placeholder, or the placeholder alone |
| `PlayerStats.RenderCardDefaults` | stats.js:76-98 | a mode whose ELO is missing or 0 shows 1000, any other ELO as it is; a mode without decided games shows `0.0%` |
| `PlayerStats.RenderExample` | stats.js:51-111 | Alex with 10 wins and 5 losses, overall and in `sumo`, renders `66.7%`, `+2` and one `Sumo` card with ELO 1200 |
| `PlayerStats.RequestUrl` | stats.js:24 | the request URL is the API base, then `/player/`, then the trimmed username unchanged |
| `PlayerStats.NotFoundMessageInjective` | stats.js:28 | the not-found message names the player: different usernames give different messages |
| `PlayerStats.NotFoundIsNotGeneric` | stats.js:27-30 | the not-found message is never the generic failure message |
| `PlayerStats.FailureMessage` | stats.js:26-46 | a search fails exactly when the response is not ok, the body does not parse, or the fetch throws |
| `PlayerStats.FailureMessageCases` | stats.js:26-46 | 404 gives `Player "<username>" not found or hasn't played on MCFruit`; any other non-ok status gives `Failed to fetch player stats`; a thrown error shows its own message |
| `StatsPage.Page.DisplayPlayerStats` | stats.js:51-111 | after rendering, every slot of the stats panel equals `Render` of the record, whatever it showed before |
| `StatsPage.Page.DisplayHeader` | stats.js:53-68 | avatar, alt text, name, rank, totals, win rate and streak slots equal the header of `Render` |
| `StatsPage.Page.DisplayGameModes` | stats.js:71-110 | the container is cleared and then holds exactly the cards of the modes in order, or the placeholder alone |
| `StatsPage.Page.BeginSearch` | stats.js:5-24 | an empty trimmed name changes nothing and requests nothing; otherwise loading alone is shown and exactly one request for the trimmed name is logged |
| `StatsPage.Page.FinishSearch` | stats.js:26-47 | loading is hidden; success shows stats with the rendered record; failure shows the error panel with the failure's message and leaves the slots alone; the other panel keeps its visibility |
| `StatsPage.Page.SearchPlayer` | stats.js:5-48 | empty input leaves the page unchanged; otherwise exactly one request is made and loading ends hidden with exactly one of the error and stats panels shown, stats exactly when the fetch succeeded |

## Findings

| source | as written | input that shows it | evidently intended | confidence | as-written member | corrected member |
|---|---|---|---|---|---|---|
| stats.js:115-123 | `modeNames[name.toLowerCase()] \|\| name` looks the key up on an ordinary object literal, so members inherited from `Object.prototype` match | a game mode named `constructor` (any case) or `__proto__`: the card title becomes `function Object() { [native code] }` or `[object Object]` | names that are not in the table come back unchanged | high; not executed | `PlayerStats.FormatModeNameAsWritten`, `PlayerStats.AsWrittenLosesConstructor` | `PlayerStats.FormatModeName` |

## Left out

- `script.js` is not part of this model. It holds scroll, menu, toast, ripple, clipboard, animation and keyboard-shortcut UI glue, plus a poll of a third-party status service. None of it has rules beyond reacting to browser geometry and timers.
- The `alert` on empty input (stats.js:10) and the `console.error` log (stats.js:43) are side channels and are not modelled. Empty input is modelled as leaving the page unchanged.
- Real `fetch`, `await` and `response.json()` are replaced by the `FetchOutcome` parameter. Timeouts are not modelled.
- Overlapping searches are not modelled. `SearchPlayer` runs one search to completion. `FinishSearch` does not require the page to be loading, and its contract shows that the panel it does not touch keeps its visibility. So the model does not rule out the stale-response race the source leaves unguarded.
- `PlayerStats.WinRateRoundsHalfUp`: the model rounds the exact ratio and takes the upper tenth at an exact tie. `toFixed(1)` rounds the nearest binary double, so at a tie the source may round down. With 3 wins and 1997 losses the model shows `0.2%` (`PlayerStats.WinRateTieExample`), where the source can show `0.1%`. `PlayerStats.WinRateTenths` promises a half-tenth bound from the exact ratio, which both choices at a tie meet. `PlayerStats.WinRateDeterminedOffTies` shows that away from ties any rounding of the exact ratio agrees with the model. The source rounds the double quotient `(wins / total) * 100`, not the exact ratio. From about 2·10^12 decided games, that double can fall on the other side of a half-tenth boundary that the exact ratio only comes near. With 4841902949110 wins and 817831649499 losses the exact rate lies just above 85.55, so the model shows `85.6%`, where the source can show `85.5%`.
- JavaScript numbers are doubles, but every count, rank, ELO and streak here is an unbounded integer. `String(n)` prints exponent notation such as `1e+21` from 10^21 up, and integers above 2^53 are not exact. Both are out of this model.
- `toLocaleString` on the totals (stats.js:65-66) depends on the locale. Totals are modelled as plain naturals.
- The `innerHTML` markup of a card (stats.js:82-105) is not modelled. A card is a record of title, ELO, wins, losses, win-rate text, streak text and style tag. The mode name is inserted into markup unescaped, and that is not modelled either.
- JavaScript falsy and `NaN` quirks are not modelled. A mode's wins, losses and streak, and the overall streak, are present numbers. So the `|| 0` defaults on a mode's wins and losses (stats.js:90, 94) never change anything. An absent overall streak, which would empty the streak slot, is not represented. `Option` is used where the code applies `||` defaults: uuid, rank, overall totals, ELO. An empty uuid, a zero rank and a zero ELO count as missing, as `||` treats them.
- `displayPlayerStats` throwing part-way, for instance on a mode without a `name`, is not modelled. Mode names are strings.
- `toLowerCase` is modelled on ASCII letters only. This is exact for the table lookup. No other character lower-cases to a letter used in the table keys: U+212A lower-cases to `k`, which no key contains, and U+0130 lower-cases to two characters.
- The username is inserted into the request URL without encoding, as in the source. The base URL is the source's constant.
- The page markup's initial state is not part of the source. The constructor starts with every panel hidden and nothing requested.
- The rendered view (`PlayerStats.Render`, `PlayerStats.RenderCard`, and so `StatsPage.Page.DisplayPlayerStats`) titles cards with the corrected `PlayerStats.FormatModeName`. For a mode named `constructor` or `__proto__` it therefore shows the name unchanged, where stats.js shows the inherited member's text (see Findings).
- The Enter-key listener (stats.js:127-136) only calls `searchPlayer` and is not modelled.
