/**
 * The player-statistics page of stats.js as a state machine: the visibility
 * of the loading, error and stats panels, the error text, the slots
 * `displayPlayerStats` writes, and the log of requests the page has issued.
 */
module StatsPage {
  import opened Wrappers
  import opened JsText
  import opened PlayerStats

  class Page {
    // visibility of the three panels (`style.display`)
    var loadingVisible: bool
    var errorVisible: bool
    var statsVisible: bool
    // `#stats-error-message`
    var errorMessage: string
    // the slots of the stats panel
    var avatarSrc: string
    var avatarAlt: string
    var playerName: string
    var rankText: string
    var totalWins: nat
    var totalLosses: nat
    var winRateText: string
    var streakText: string
    var modeSlots: seq<ModeSlot>
    // the URLs fetched so far, oldest first
    var requests: seq<string>

    /** A page as loaded: every panel hidden, no slot filled, nothing requested. */
    constructor ()
      ensures !loadingVisible && !errorVisible && !statsVisible
      ensures errorMessage == "" && modeSlots == [] && requests == []
    {
      loadingVisible, errorVisible, statsVisible := false, false, false;
      errorMessage := "";
      avatarSrc, avatarAlt, playerName, rankText := "", "", "", "";
      totalWins, totalLosses := 0, 0;
      winRateText, streakText := "", "";
      modeSlots := [];
      requests := [];
    }

    /** What the stats panel currently shows. */
    function Slots(): PlayerView
      reads this
    {
      PlayerView(avatarSrc, avatarAlt, playerName, rankText, totalWins, totalLosses,
                 winRateText, streakText, modeSlots)
    }

    /** A search is under way: the loading indicator alone is shown. */
    predicate Loading()
      reads this
    {
      loadingVisible && !errorVisible && !statsVisible
    }

    /** A search has finished: loading is hidden and exactly one of error and stats is shown. */
    predicate Settled()
      reads this
    {
      !loadingVisible && (errorVisible <==> !statsVisible)
    }

    /**
     * `displayPlayerStats`: writes every slot of the stats panel from the
     * record. Nothing rendered earlier survives.
     */
    method DisplayPlayerStats(p: PlayerRecord)
      modifies this`avatarSrc, this`avatarAlt, this`playerName, this`rankText,
               this`totalWins, this`totalLosses, this`winRateText, this`streakText,
               this`modeSlots
      ensures Slots() == Render(p)
    {
      DisplayHeader(p);
      DisplayGameModes(p.gameModes);
    }

    /** The player header and the overall figures. */
    method DisplayHeader(p: PlayerRecord)
      modifies this`avatarSrc, this`avatarAlt, this`playerName, this`rankText,
               this`totalWins, this`totalLosses, this`winRateText, this`streakText
      ensures var v := Render(p);
        && avatarSrc == v.avatarSrc && avatarAlt == v.avatarAlt && playerName == v.name
        && rankText == v.rank && totalWins == v.totalWins && totalLosses == v.totalLosses
        && winRateText == v.winRate && streakText == v.streak
    {
      avatarSrc := AvatarService + AvatarId(p) + "/128";
      avatarAlt := p.username;
      playerName := p.username;
      rankText := RankText(p.rank);
      totalWins := p.totalWins.GetOr(0);
      totalLosses := p.totalLosses.GetOr(0);
      winRateText := WinRateText(totalWins, totalLosses);
      streakText := StreakText(p.streak);
    }

    /**
     * The game-mode container: emptied, then filled with one card per mode in
     * list order, or given the placeholder when there is no mode.
     */
    method DisplayGameModes(gameModes: Option<seq<GameModeRecord>>)
      modifies this`modeSlots
      ensures modeSlots == ModeSlots(gameModes)
    {
      modeSlots := [];
      if gameModes.Some? && |gameModes.value| > 0 {
        var modes := gameModes.value;
        var i := 0;
        while i < |modes|
          invariant 0 <= i <= |modes|
          invariant modeSlots == Cards(modes[..i])
        {
          CardsAppend(modes[..i], modes[i]);
          assert modes[..i + 1] == modes[..i] + [modes[i]];
          modeSlots := modeSlots + [Card(RenderCard(modes[i]))];
          i := i + 1;
        }
        assert modes[..i] == modes;
      } else {
        modeSlots := [NoData];
      }
    }

    /**
     * The part of `searchPlayer` before the `await`: trims the input; an
     * empty result changes nothing and requests nothing. Otherwise the page
     * shows loading alone and then issues exactly one request.
     */
    method BeginSearch(raw: string) returns (username: string, requested: bool)
      modifies this`loadingVisible, this`errorVisible, this`statsVisible, this`requests
      ensures username == Trim(raw)
      ensures requested <==> username != ""
      ensures !requested ==> unchanged(this)
      ensures requested ==> Loading() && requests == old(requests) + [RequestUrl(username)]
    {
      username := Trim(raw);
      if username == "" {
        return username, false;
      }
      loadingVisible := true;
      errorVisible := false;
      statsVisible := false;
      requests := requests + [RequestUrl(username)];
      requested := true;
    }

    /**
     * The part of `searchPlayer` after the `await`: loading is hidden; on
     * success the record is rendered and the stats panel shown, otherwise the
     * error panel shows the failure's message and the slots keep their
     * contents. The panel not touched keeps the visibility it had.
     */
    method FinishSearch(username: string, outcome: FetchOutcome)
      modifies this`loadingVisible, this`errorVisible, this`statsVisible, this`errorMessage,
               this`avatarSrc, this`avatarAlt, this`playerName, this`rankText,
               this`totalWins, this`totalLosses, this`winRateText, this`streakText,
               this`modeSlots
      ensures !loadingVisible
      ensures statsVisible == (Succeeds(outcome) || old(statsVisible))
      ensures errorVisible == (!Succeeds(outcome) || old(errorVisible))
      ensures Succeeds(outcome) ==>
        Slots() == Render(outcome.body.record) && errorMessage == old(errorMessage)
      ensures !Succeeds(outcome) ==>
        Some(errorMessage) == FailureMessage(username, outcome) && Slots() == old(Slots())
    {
      var failure := FailureMessage(username, outcome);
      if failure.None? {
        loadingVisible := false;
        DisplayPlayerStats(outcome.body.record);
        statsVisible := true;
      } else {
        loadingVisible := false;
        errorVisible := true;
        errorMessage := failure.value;
      }
    }

    /**
     * `searchPlayer` run to completion with the given fetch outcome. Empty
     * input leaves the page as it was. Any other input makes exactly one
     * request and settles the page: stats shown exactly when the fetch
     * succeeded, otherwise the error panel with the failure's message.
     */
    method SearchPlayer(raw: string, outcome: FetchOutcome)
      modifies this
      ensures Trim(raw) == "" ==> unchanged(this)
      ensures Trim(raw) != "" ==>
        && Settled()
        && requests == old(requests) + [RequestUrl(Trim(raw))]
        && (statsVisible <==> Succeeds(outcome))
      ensures Trim(raw) != "" && Succeeds(outcome) ==>
        Slots() == Render(outcome.body.record) && errorMessage == old(errorMessage)
      ensures Trim(raw) != "" && !Succeeds(outcome) ==>
        && Some(errorMessage) == FailureMessage(Trim(raw), outcome)
        && Slots() == old(Slots())
    {
      var username, requested := BeginSearch(raw);
      if requested {
        FinishSearch(username, outcome);
      }
    }
  }
}
