/**
 * The rules of the player-statistics page (stats.js) as pure functions: the
 * records the stats API returns, the zero-safe win rate, the signed streak
 * text, the game-mode display names, the view a record is rendered into, the
 * request a search makes and the message a failed search shows.
 */
module PlayerStats {
  import opened Wrappers
  import opened JsText

  // ---------------------------------------------------------------------------
  // Records returned by the stats API
  // ---------------------------------------------------------------------------

  /**
   * One entry of `gameModes`. Its wins and losses are present numbers, so
   * their `|| 0` defaults change nothing; only `elo` may be missing.
   */
  datatype GameModeRecord = GameModeRecord(
    name: string,
    elo: Option<int>,
    wins: nat,
    losses: nat,
    streak: int)

  /** The body of a successful `GET {API}/player/{username}`. */
  datatype PlayerRecord = PlayerRecord(
    username: string,
    uuid: Option<string>,
    rank: Option<int>,
    totalWins: Option<nat>,
    totalLosses: Option<nat>,
    streak: int,
    gameModes: Option<seq<GameModeRecord>>)

  // ---------------------------------------------------------------------------
  // Win rate
  // ---------------------------------------------------------------------------

  /** Integer division rounds `1000 * wins / total` to the nearest whole tenth, halves upwards. */
  lemma RoundingBound(wins: nat, total: nat, t: nat)
    requires 0 < total && wins <= total
    requires t == (2000 * wins + total) / (2 * total)
    ensures t <= 1000
    ensures 2 * (t * total) <= 2000 * wins + total < 2 * (t * total) + 2 * total
  {
    var r := (2000 * wins + total) % (2 * total);
    assert 2000 * wins + total == (2 * total) * t + r && 0 <= r < 2 * total;
    assert (2 * total) * t == 2 * (t * total);
    if t > 1000 {
      MulMonotone(1001, t, total);
      assert false;
    }
  }

  /** `a <= b` implies `a * c <= b * c` for a natural `c`. */
  lemma MulMonotone(a: nat, b: nat, c: nat)
    requires a <= b
    ensures a * c <= b * c
  {
  }

  /**
   * The win rate in tenths of a percent: 0 when no game was decided, otherwise
   * `wins / (wins + losses) * 100` to a nearest tenth (at most half a tenth
   * from the exact value, whichever way a tie goes), so never above 100.0.
   */
  function WinRateTenths(wins: nat, losses: nat): (t: nat)
    ensures t <= 1000
    ensures wins + losses == 0 ==> t == 0
    ensures wins + losses > 0 ==>
      && 2 * (t * (wins + losses)) <= 2000 * wins + (wins + losses)
      && 2000 * wins <= 2 * (t * (wins + losses)) + (wins + losses)
  {
    var total := wins + losses;
    if total == 0 then 0
    else
      var t := (2000 * wins + total) / (2 * total);
      RoundingBound(wins, total, t);
      t
  }

  /** The model's choice at an exact tie: the upper of the two nearest tenths. */
  lemma WinRateRoundsHalfUp(wins: nat, losses: nat)
    requires wins + losses > 0
    ensures var t, total := WinRateTenths(wins, losses), wins + losses;
      2 * (t * total) <= 2000 * wins + total < 2 * (t * total) + 2 * total
  {
    var total := wins + losses;
    RoundingBound(wins, total, (2000 * wins + total) / (2 * total));
  }

  /** At most one whole number `t` has `t * total` within half a `total` of `x` (halves counted upwards). */
  lemma RoundingIsUnique(x: nat, total: nat, t: nat, k: nat)
    requires 0 < total
    requires 2 * (t * total) <= 2 * x + total < 2 * (t * total) + 2 * total
    requires 2 * (k * total) <= 2 * x + total < 2 * (k * total) + 2 * total
    ensures k == t
  {
    if k > t {
      MulMonotone(t + 1, k, total);
    } else if k < t {
      MulMonotone(k + 1, t, total);
    }
  }

  /** No other number of tenths lies within the half-up rounding bound: the bound determines the rate. */
  lemma WinRateNearest(wins: nat, losses: nat, k: nat)
    requires wins + losses > 0
    requires 2 * (k * (wins + losses)) <= 2000 * wins + (wins + losses) < 2 * (k * (wins + losses)) + 2 * (wins + losses)
    ensures k == WinRateTenths(wins, losses)
  {
    WinRateRoundsHalfUp(wins, losses);
    RoundingIsUnique(1000 * wins, wins + losses, WinRateTenths(wins, losses), k);
  }

  /**
   * Away from an exact tie, a number of tenths within half a tenth of the
   * exact rate is the rate: any correct rounding agrees with the model there.
   */
  lemma WinRateDeterminedOffTies(wins: nat, losses: nat, k: nat)
    requires wins + losses > 0
    requires (2000 * wins + (wins + losses)) % (2 * (wins + losses)) != 0
    requires 2 * (k * (wins + losses)) <= 2000 * wins + (wins + losses)
    requires 2000 * wins <= 2 * (k * (wins + losses)) + (wins + losses)
    ensures k == WinRateTenths(wins, losses)
  {
    var total := wins + losses;
    var x := 2000 * wins + total;
    if x == 2 * (k * total) + 2 * total {
      assert x == (k + 1) * (2 * total);
      MultipleHasNoRemainder(k + 1, 2 * total);
    }
    WinRateNearest(wins, losses, k);
  }

  /**
   * An exact tie: 3 wins in 2000 games is 1.5 tenths, so 1 and 2 tenths are
   * both within half a tenth. The model takes 2.
   */
  lemma WinRateTieExample()
    ensures WinRateTenths(3, 1997) == 2
    ensures 2 * (1 * 2000) <= 2000 * 3 + 2000 && 2000 * 3 <= 2 * (1 * 2000) + 2000
  {
  }

  /** A whole multiple of `m` leaves no remainder when divided by `m`. */
  lemma MultipleHasNoRemainder(q: nat, m: nat)
    requires 0 < m
    ensures (q * m) % m == 0
  {
    var x := q * m;
    var d, r := x / m, x % m;
    assert x == d * m + r && 0 <= r < m;
    if d < q {
      MulMonotone(d + 1, q, m);
    } else if d > q {
      MulMonotone(q + 1, d, m);
    }
  }

  /** A player without wins has rate 0.0; one with wins and no losses has rate 100.0. */
  lemma WinRateExtremes(wins: nat, losses: nat)
    ensures wins == 0 ==> WinRateTenths(wins, losses) == 0
    ensures wins > 0 && losses == 0 ==> WinRateTenths(wins, losses) == 1000
  {
    if wins == 0 && losses > 0 {
      WinRateNearest(wins, losses, 0);
    }
    if wins > 0 && losses == 0 {
      WinRateNearest(wins, losses, 1000);
    }
  }

  /** The win-rate text: the rate to one decimal, then `%`. */
  function WinRateText(wins: nat, losses: nat): string {
    FixedOne(WinRateTenths(wins, losses)) + "%"
  }

  /**
   * The win-rate text is a one-decimal number followed by `%`; read back, it
   * is the rate in tenths, which lies between 0.0 and 100.0.
   */
  lemma WinRateTextReadsBack(wins: nat, losses: nat)
    ensures var s := WinRateText(wins, losses);
      && 4 <= |s| && s[|s| - 1] == '%'
      && var f := s[..|s| - 1];
      && f[|f| - 2] == '.' && AllDigits(f[..|f| - 2]) && IsDigit(f[|f| - 1])
      && ParseFixedOne(f) == WinRateTenths(wins, losses)
      && 0 <= ParseFixedOne(f) <= 1000
  {
    var tenths := WinRateTenths(wins, losses);
    FixedOneRoundTrip(tenths);
    var s := WinRateText(wins, losses);
    assert s[..|s| - 1] == FixedOne(tenths);
  }

  /** `"0.0%"` whenever there are no wins (in particular when no game was decided); `"100.0%"` with no losses. */
  lemma WinRateTextExtremes(wins: nat, losses: nat)
    ensures wins == 0 ==> WinRateText(wins, losses) == "0.0%"
    ensures wins > 0 && losses == 0 ==> WinRateText(wins, losses) == "100.0%"
  {
    WinRateExtremes(wins, losses);
    if wins > 0 && losses == 0 {
      assert NatToString(10) == NatToString(1) + [DigitChar(0)];
      assert NatToString(100) == NatToString(10) + [DigitChar(0)];
    }
  }

  // ---------------------------------------------------------------------------
  // Streak
  // ---------------------------------------------------------------------------

  /** The streak text: `+` and the number when it is 0 or more, otherwise the number with its own minus sign. */
  function StreakText(streak: int): string {
    if streak >= 0 then "+" + IntToString(streak) else IntToString(streak)
  }

  /** Reads a signed streak text back. */
  function ParseStreak(s: string): int {
    if s != [] && s[0] == '+' then ParseNat(s[1..]) else ParseInt(s)
  }

  /**
   * The streak text is a sign, `+` exactly when the streak is 0 or more, then
   * the magnitude in decimal; it reads back as the streak.
   */
  lemma StreakTextRoundTrip(streak: int)
    ensures var s := StreakText(streak);
      && 2 <= |s|
      && s[0] == (if streak >= 0 then '+' else '-')
      && s[1..] == NatToString(if streak >= 0 then streak else -streak)
      && ParseStreak(s) == streak
  {
    var magnitude := if streak >= 0 then streak else -streak;
    var s := StreakText(streak);
    NatToStringShape(magnitude);
    ParseNatToString(magnitude);
    assert s[1..] == NatToString(magnitude);
  }

  // ---------------------------------------------------------------------------
  // Game-mode display names
  // ---------------------------------------------------------------------------

  /** The display name of each known game-mode key. */
  const ModeNames: map<string, string> := map[
    "nodebuff" := "NoDebuff",
    "debuff" := "Debuff",
    "sumo" := "Sumo",
    "builduhc" := "BuildUHC",
    "archer" := "Archer",
    "gapple" := "Gapple"]

  /** Each display name is its key in other letter case. */
  lemma ModeNamesSpellTheirKeys(key: string)
    requires key in ModeNames
    ensures Lower(ModeNames[key]) == key
  {
    var v := ModeNames[key];
    assert Lower(v) == seq(|v|, i requires 0 <= i < |v| => LowerChar(v[i]));
  }

  /**
   * `formatModeName`: the display name of the key the name spells, in any
   * letter case; any other name unchanged. Either way the result spells the
   * same word as the input, ignoring case.
   */
  function FormatModeName(name: string): (r: string)
    ensures Lower(r) == Lower(name)
    ensures Lower(name) in ModeNames ==> r == ModeNames[Lower(name)]
    ensures Lower(name) !in ModeNames ==> r == name
  {
    var key := Lower(name);
    if key in ModeNames then
      ModeNamesSpellTheirKeys(key);
      ModeNames[key]
    else
      name
  }

  /** Formatting an already formatted name changes nothing. */
  lemma FormatModeNameIdempotent(name: string)
    ensures FormatModeName(FormatModeName(name)) == FormatModeName(name)
  {
  }

  /** Two names that differ only in letter case get the same display name when either is known. */
  lemma FormatModeNameIgnoresCase(a: string, b: string)
    requires Lower(a) == Lower(b)
    ensures Lower(a) in ModeNames ==> FormatModeName(a) == FormatModeName(b)
    ensures Lower(a) !in ModeNames ==> FormatModeName(a) == a && FormatModeName(b) == b
  {
  }

  /**
   * What the mode-name lookup of stats.js:123, made on an object literal, does when
   * the lower-cased name is a member every object literal inherits: the
   * inherited value is truthy and is returned, and the card shows its text.
   */
  const InheritedMembers: map<string, string> := map[
    "constructor" := "function Object() { [native code] }",
    "__proto__" := "[object Object]"]

  /** The lookup as stats.js writes it, through an object literal with its prototype chain. */
  function FormatModeNameAsWritten(name: string): (r: string)
    ensures Lower(name) !in InheritedMembers ==> r == FormatModeName(name)
  {
    var key := Lower(name);
    if key in ModeNames then ModeNames[key]
    else if key in InheritedMembers then InheritedMembers[key]
    else name
  }

  /** An unknown mode named "constructor" is not passed through by the lookup as written. */
  lemma AsWrittenLosesConstructor()
    ensures "constructor" !in ModeNames
    ensures Lower("constructor") == "constructor"
    ensures FormatModeNameAsWritten("constructor") == "function Object() { [native code] }"
    ensures FormatModeName("constructor") == "constructor"
  {
    assert Lower("constructor") == "constructor";
  }

  // ---------------------------------------------------------------------------
  // The rendered view
  // ---------------------------------------------------------------------------

  /** One game-mode card, as shown. */
  datatype ModeCard = ModeCard(
    title: string,
    elo: int,
    wins: nat,
    losses: nat,
    winRate: string,
    streak: string,
    positive: bool)

  /** A child of the game-mode container: a card, or the "no game mode statistics" placeholder. */
  datatype ModeSlot = Card(card: ModeCard) | NoData

  /** The slots the page fills in for a player. */
  datatype PlayerView = PlayerView(
    avatarSrc: string,
    avatarAlt: string,
    name: string,
    rank: string,
    totalWins: nat,
    totalLosses: nat,
    winRate: string,
    streak: string,
    modes: seq<ModeSlot>)

  const AvatarService := "https://mc-heads.net/avatar/"

  /** The avatar key: the uuid, or the username when the uuid is absent or empty (stats.js:53). */
  function AvatarId(p: PlayerRecord): string {
    if p.uuid.Some? && p.uuid.value != "" then p.uuid.value else p.username
  }

  /** The rank line: `Rank #` then the rank, or `-` when it is absent or zero (stats.js:56). */
  function RankText(rank: Option<int>): string {
    "Rank #" + if rank.Some? && rank.value != 0 then IntToString(rank.value) else "-"
  }

  /** A mode's ELO, 1000 when it is absent or zero (stats.js:85). */
  function EloOrDefault(elo: Option<int>): int {
    if elo.Some? && elo.value != 0 then elo.value else 1000
  }

  function RenderCard(m: GameModeRecord): ModeCard {
    ModeCard(
      FormatModeName(m.name),
      EloOrDefault(m.elo),
      m.wins,
      m.losses,
      WinRateText(m.wins, m.losses),
      StreakText(m.streak),
      m.streak >= 0)
  }

  /** A card shows the mode's streak sign both as its style tag and as the text's first character. */
  lemma RenderCardSign(m: GameModeRecord)
    ensures |RenderCard(m).streak| >= 2
    ensures RenderCard(m).positive <==> RenderCard(m).streak[0] == '+'
    ensures !RenderCard(m).positive <==> RenderCard(m).streak[0] == '-'
  {
    StreakTextRoundTrip(m.streak);
  }

  /** One card per game mode, in the order of the list. */
  function Cards(modes: seq<GameModeRecord>): (r: seq<ModeSlot>)
    ensures |r| == |modes|
    ensures forall i :: 0 <= i < |modes| ==> r[i] == Card(RenderCard(modes[i]))
  {
    if modes == [] then [] else [Card(RenderCard(modes[0]))] + Cards(modes[1..])
  }

  /** Appending a mode to the list appends its card to the cards. */
  lemma {:induction false} CardsAppend(modes: seq<GameModeRecord>, m: GameModeRecord)
    ensures Cards(modes + [m]) == Cards(modes) + [Card(RenderCard(m))]
  {
    if modes != [] {
      assert (modes + [m])[1..] == modes[1..] + [m];
      CardsAppend(modes[1..], m);
    }
  }

  /** The container's children: the cards, or the placeholder alone when the list is absent or empty. */
  function ModeSlots(gameModes: Option<seq<GameModeRecord>>): (r: seq<ModeSlot>)
    ensures 1 <= |r|
    ensures r == [NoData] <==> gameModes.None? || gameModes.value == []
    ensures NoData in r ==> r == [NoData]
  {
    if gameModes.Some? && |gameModes.value| > 0 then
      var r := Cards(gameModes.value);
      assert r[0].Card?;
      r
    else
      [NoData]
  }

  /** `displayPlayerStats`: the view a player record is rendered into. */
  function Render(p: PlayerRecord): PlayerView {
    var wins := p.totalWins.GetOr(0);
    var losses := p.totalLosses.GetOr(0);
    PlayerView(
      AvatarService + AvatarId(p) + "/128",
      p.username,
      p.username,
      RankText(p.rank),
      wins,
      losses,
      WinRateText(wins, losses),
      StreakText(p.streak),
      ModeSlots(p.gameModes))
  }

  /**
   * The header of the view: the avatar comes from the uuid, or from the
   * username when there is no uuid; totals default to 0; the rate and the
   * streak follow the same rules as on the cards.
   */
  lemma RenderHeader(p: PlayerRecord)
    ensures p.uuid.None? || p.uuid.value == "" ==> Render(p).avatarSrc == AvatarService + p.username + "/128"
    ensures p.uuid.Some? && p.uuid.value != "" ==> Render(p).avatarSrc == AvatarService + p.uuid.value + "/128"
    ensures p.rank.None? || p.rank.value == 0 ==> Render(p).rank == "Rank #-"
    ensures p.rank.Some? && p.rank.value != 0 ==> Render(p).rank == "Rank #" + IntToString(p.rank.value)
    ensures p.totalWins.None? ==> Render(p).totalWins == 0
    ensures p.totalLosses.None? ==> Render(p).totalLosses == 0
    ensures p.totalWins.None? ==> Render(p).winRate == "0.0%"
    ensures |Render(p).streak| >= 2 && (Render(p).streak[0] == '+' <==> p.streak >= 0)
  {
    WinRateTextExtremes(p.totalWins.GetOr(0), p.totalLosses.GetOr(0));
    StreakTextRoundTrip(p.streak);
  }

  /**
   * The container holds exactly one card per game mode, in list order, or the
   * placeholder alone; nothing in it depends on anything but the record.
   */
  lemma RenderModes(p: PlayerRecord)
    ensures p.gameModes.None? || p.gameModes.value == [] ==> Render(p).modes == [NoData]
    ensures p.gameModes.Some? && p.gameModes.value != [] ==>
      && |Render(p).modes| == |p.gameModes.value|
      && NoData !in Render(p).modes
      && forall i :: 0 <= i < |p.gameModes.value| ==>
           Render(p).modes[i] == Card(RenderCard(p.gameModes.value[i]))
  {
  }

  /** A game mode without an ELO, or with ELO 0, shows 1000; any other ELO is shown as it is. */
  lemma RenderCardDefaults(m: GameModeRecord)
    ensures m.elo.None? || m.elo.value == 0 ==> RenderCard(m).elo == 1000
    ensures m.elo.Some? && m.elo.value != 0 ==> RenderCard(m).elo == m.elo.value
    ensures m.wins + m.losses == 0 ==> RenderCard(m).winRate == "0.0%"
  {
    WinRateTextExtremes(m.wins, m.losses);
  }

  /** An example: "Alex", 10 wins and 5 losses overall and in sumo. */
  lemma RenderExample()
    ensures var sumo := GameModeRecord("sumo", Some(1200), 10, 5, 2);
      var v := Render(PlayerRecord("Alex", None, None, Some(10), Some(5), 2, Some([sumo])));
      && v.winRate == "66.7%"
      && v.streak == "+2"
      && v.modes == [Card(ModeCard("Sumo", 1200, 10, 5, "66.7%", "+2", true))]
  {
    var sumo := GameModeRecord("sumo", Some(1200), 10, 5, 2);
    assert Lower("sumo") == "sumo";
    assert WinRateTenths(10, 5) == 667;
    assert NatToString(66) == NatToString(6) + [DigitChar(6)];
    assert FixedOne(667) == "66.7";
    assert Cards([sumo]) == [Card(RenderCard(sumo))] + Cards([]);
  }

  // ---------------------------------------------------------------------------
  // Requests and failures
  // ---------------------------------------------------------------------------

  const ApiBaseUrl := "http://localhost:8080/api"

  /** The one request a search makes; the username is inserted as it is. */
  function RequestUrl(username: string): (url: string)
    ensures |url| == |ApiBaseUrl + "/player/"| + |username|
    ensures url[..|ApiBaseUrl + "/player/"|] == ApiBaseUrl + "/player/"
    ensures url[|ApiBaseUrl + "/player/"|..] == username
  {
    ApiBaseUrl + "/player/" + username
  }

  /** What `response.json()` yields: a record, or the error it throws. */
  datatype Body = Parsed(record: PlayerRecord) | Malformed(reason: string)

  /** How the awaited `fetch` ends: with a response, or by throwing. */
  datatype FetchOutcome = Response(status: int, body: Body) | NetworkFailure(reason: string)

  /** `response.ok`. */
  predicate IsOkStatus(status: int) {
    200 <= status <= 299
  }

  predicate Succeeds(outcome: FetchOutcome) {
    outcome.Response? && IsOkStatus(outcome.status) && outcome.body.Parsed?
  }

  const GenericFailure := "Failed to fetch player stats"

  function NotFoundMessage(username: string): string {
    "Player \"" + username + "\" not found or hasn't played on MCFruit"
  }

  /** The not-found message names the player: different usernames give different messages. */
  lemma NotFoundMessageInjective(a: string, b: string)
    requires NotFoundMessage(a) == NotFoundMessage(b)
    ensures a == b
  {
    var m := NotFoundMessage(a);
    assert |a| == |b|;
    assert a == m[8..8 + |a|];
    assert b == NotFoundMessage(b)[8..8 + |b|];
  }

  /** The not-found message is never the generic one. */
  lemma NotFoundIsNotGeneric(username: string)
    ensures NotFoundMessage(username) != GenericFailure
  {
    assert |NotFoundMessage(username)| > |GenericFailure|;
  }

  /** The message a search ends with, if it fails; `None` when the stats are shown. */
  function FailureMessage(username: string, outcome: FetchOutcome): (m: Option<string>)
    ensures m.None? <==> Succeeds(outcome)
  {
    match outcome
    case NetworkFailure(reason) => Some(reason)
    case Response(status, body) =>
      if !IsOkStatus(status) then
        Some(if status == 404 then NotFoundMessage(username) else GenericFailure)
      else
        match body
        case Parsed(_) => None
        case Malformed(reason) => Some(reason)
  }

  /**
   * The three failure messages: a 404 names the player, any other bad status
   * gives the generic text, and a thrown error shows its own message.
   */
  lemma FailureMessageCases(username: string, outcome: FetchOutcome)
    ensures outcome.Response? && outcome.status == 404 ==>
      FailureMessage(username, outcome) == Some(NotFoundMessage(username))
    ensures outcome.Response? && outcome.status != 404 && !IsOkStatus(outcome.status) ==>
      FailureMessage(username, outcome) == Some(GenericFailure)
    ensures outcome.NetworkFailure? ==> FailureMessage(username, outcome) == Some(outcome.reason)
    ensures outcome.Response? && IsOkStatus(outcome.status) && outcome.body.Malformed? ==>
      FailureMessage(username, outcome) == Some(outcome.body.reason)
  {
  }
}
