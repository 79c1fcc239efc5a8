/**
 * The page controller: the session fields the page keeps, the handlers that
 * update them, the endpoint lookup and the recent-history list it persists.
 */
module VideoApp {
  import opened Wrappers
  import opened History
  import JsString
  import VideoPlayer

  /** One configured parsing endpoint `{ id, name, url }`. */
  datatype Api = Api(id: string, name: string, url: string)

  /** Shown when the submitted text is empty or white space only. */
  const EmptyInputMessage := "请输入有效的视频链接"
  /** Shown when the url parser rejects the submitted text. */
  const MalformedUrlMessage := "请输入有效的视频链接格式"
  /** Recorded as the endpoint name when no usable name is found. */
  const UnknownApiName := "未知接口"

  /** `apis.find(api => api.id === id)`: the first endpoint with that id. */
  function FindApi(apis: seq<Api>, id: string): (r: Option<Api>)
    ensures r.None? <==> forall i :: 0 <= i < |apis| ==> apis[i].id != id
    ensures r.Some? ==> exists i :: 0 <= i < |apis| && apis[i] == r.value && apis[i].id == id &&
                                    forall j :: 0 <= j < i ==> apis[j].id != id
  {
    if apis == [] then None
    else if apis[0].id == id then Some(apis[0])
    else
      var r := FindApi(apis[1..], id);
      assert r.Some? ==> exists i :: 1 <= i < |apis| && apis[i] == r.value && apis[i].id == id &&
                                     forall j :: 0 <= j < i ==> apis[j].id != id by {
        if r.Some? {
          var k :| 0 <= k < |apis| - 1 && apis[1..][k] == r.value && apis[1..][k].id == id &&
                   forall j :: 0 <= j < k ==> apis[1..][j].id != id;
          assert forall j :: 1 <= j < k + 1 ==> apis[j] == apis[1..][j - 1];
          assert apis[k + 1] == r.value;
        }
      }
      r
  }

  /** `currentApi?.name || '未知接口'`: an empty name counts as missing too. */
  function ApiLabel(found: Option<Api>): (r: string)
    ensures r != []
    ensures found.Some? && found.value.name != "" ==> r == found.value.name
    ensures found.None? || found.value.name == "" ==> r == UnknownApiName
  {
    if found.Some? && found.value.name != "" then found.value.name else UnknownApiName
  }

  /** `getCurrentApi()?.url || ''`: the endpoint url, or "" when none is found. */
  function ApiUrl(found: Option<Api>): (r: string)
    ensures found.None? ==> r == []
    ensures found.Some? ==> r == found.value.url
  {
    if found.Some? then found.value.url else ""
  }

  /** A snapshot of every field of the page, for stating what a handler changes. */
  datatype Snapshot = Snapshot(
    isDarkMode: bool, videoUrl: string, selectedApi: string, isPlaying: bool,
    isLoading: bool, errorMessage: string, history: seq<HistoryItem>, showHistory: bool,
    stored: Option<seq<HistoryItem>>, pendingTimers: nat)

  class App {
    /** The endpoint table, read once from configuration. */
    const apis: seq<Api>
    /** Whether the url parser accepts a string (`new URL(s)` does not throw). */
    const isValidUrl: string -> bool

    var isDarkMode: bool
    var videoUrl: string
    var selectedApi: string
    var isPlaying: bool
    var isLoading: bool
    var errorMessage: string
    var history: seq<HistoryItem>
    var showHistory: bool
    /** The persisted copy of the history (the storage key `video-history`). */
    var stored: Option<seq<HistoryItem>>
    /** Deferred "start playing" callbacks scheduled and not yet run. */
    var pendingTimers: nat

    ghost function State(): Snapshot
      reads this
    {
      Snapshot(isDarkMode, videoUrl, selectedApi, isPlaying, isLoading, errorMessage,
               history, showHistory, stored, pendingTimers)
    }

    /** The initial `useState` values; the first endpoint is selected. */
    constructor(apis: seq<Api>, isValidUrl: string -> bool, stored: Option<seq<HistoryItem>>)
      requires |apis| > 0
      ensures this.apis == apis && this.isValidUrl == isValidUrl
      ensures State() == Snapshot(false, "", apis[0].id, false, false, "", [], false, stored, 0)
    {
      this.apis := apis;
      this.isValidUrl := isValidUrl;
      isDarkMode := false;
      videoUrl := "";
      selectedApi := apis[0].id;
      isPlaying := false;
      isLoading := false;
      errorMessage := "";
      history := [];
      showHistory := false;
      this.stored := stored;
      pendingTimers := 0;
    }

    /** The system colour-scheme preference was read or changed. */
    method SystemThemeChanged(prefersDark: bool)
      modifies this
      ensures State() == old(State()).(isDarkMode := prefersDark)
    {
      isDarkMode := prefersDark;
    }

    /** Startup: adopt the persisted history when there is one. */
    method LoadHistory()
      modifies this
      ensures stored.Some? ==> State() == old(State()).(history := stored.value)
      ensures stored.None? ==> State() == old(State())
    {
      if stored.Some? {
        history := stored.value;
      }
    }

    /** The endpoint the selected id names, if any. */
    function GetCurrentApi(): (r: Option<Api>)
      reads this
      ensures r.Some? ==> r.value in apis && r.value.id == selectedApi
      ensures r.Some? ==> exists i :: 0 <= i < |apis| && apis[i] == r.value &&
                                      forall j :: 0 <= j < i ==> apis[j].id != selectedApi
      ensures r.None? ==> forall a :: a in apis ==> a.id != selectedApi
    {
      FindApi(apis, selectedApi)
    }

    /**
     * Record a url: drop its earlier entry, put the new entry first, keep ten,
     * and overwrite the persisted copy with the result.
     */
    method AddToHistory(url: string, apiName: string, now: int, timestamp: string)
      modifies this
      ensures history == Updated(old(history), HistoryItem(now, url, apiName, timestamp))
      ensures State() == old(State()).(history := history, stored := Some(history))
      ensures DistinctUrls(old(history)) ==> DistinctUrls(history)
    {
      var item := HistoryItem(now, url, apiName, timestamp);
      var updated := Updated(history, item);
      if DistinctUrls(history) {
        DistinctPreserved(history, item);
      }
      history := updated;
      stored := Some(updated);
    }

    /**
     * The play button. Blank input and input the url parser rejects only set
     * an error message. Otherwise the error is cleared, loading starts, the
     * untrimmed input is recorded with the selected endpoint's name, and the
     * deferred switch to playing is scheduled.
     */
    method HandlePlayVideo(now: int, timestamp: string)
      modifies this
      ensures JsString.IsBlank(old(videoUrl)) ==>
        State() == old(State()).(errorMessage := EmptyInputMessage)
      ensures !JsString.IsBlank(old(videoUrl)) && !isValidUrl(old(videoUrl)) ==>
        State() == old(State()).(errorMessage := MalformedUrlMessage)
      ensures !JsString.IsBlank(old(videoUrl)) && isValidUrl(old(videoUrl)) ==>
        var entry := HistoryItem(now, old(videoUrl), ApiLabel(FindApi(apis, old(selectedApi))), timestamp);
        var h := Updated(old(history), entry);
        State() == old(State()).(errorMessage := "", isLoading := true, history := h,
                                 stored := Some(h), pendingTimers := old(pendingTimers) + 1)
    {
      var blank := JsString.TrimsToEmpty(videoUrl);
      if blank {
        errorMessage := EmptyInputMessage;
        return;
      }
      if !isValidUrl(videoUrl) {
        errorMessage := MalformedUrlMessage;
        return;
      }
      errorMessage := "";
      isLoading := true;
      var currentApi := GetCurrentApi();
      AddToHistory(videoUrl, ApiLabel(currentApi), now, timestamp);
      pendingTimers := pendingTimers + 1;
    }

    /** A scheduled callback runs: loading ends and the player is shown. */
    method TimerFires()
      requires pendingTimers > 0
      modifies this
      ensures State() == old(State()).(isLoading := false, isPlaying := true,
                                       pendingTimers := old(pendingTimers) - 1)
    {
      isLoading := false;
      isPlaying := true;
      pendingTimers := pendingTimers - 1;
    }

    /** A history entry was clicked: its url fills the input and the list closes. */
    method HandleHistorySelect(item: HistoryItem)
      modifies this
      ensures State() == old(State()).(videoUrl := item.url, showHistory := false)
    {
      videoUrl := item.url;
      showHistory := false;
    }

    /** The player's back button: leave the player, clear the input and the error. */
    method HandleBackToHome()
      modifies this
      ensures State() == old(State()).(isPlaying := false, videoUrl := "", errorMessage := "")
    {
      isPlaying := false;
      videoUrl := "";
      errorMessage := "";
    }

    /** The theme button flips the theme. */
    method ToggleTheme()
      modifies this
      ensures State() == old(State()).(isDarkMode := !old(isDarkMode))
    {
      isDarkMode := !isDarkMode;
    }

    /** The history button shows or hides the list. */
    method ToggleHistoryPanel()
      modifies this
      ensures State() == old(State()).(showHistory := !old(showHistory))
    {
      showHistory := !showHistory;
    }

    /** The input field changed. */
    method InputChanged(value: string)
      modifies this
      ensures State() == old(State()).(videoUrl := value)
    {
      videoUrl := value;
    }

    /** An endpoint was chosen in the drop-down. */
    method SelectApi(id: string)
      modifies this
      ensures State() == old(State()).(selectedApi := id)
    {
      selectedApi := id;
    }

    /**
     * The address the player frame shows: the current endpoint's url (or ""
     * when the selected id names none) followed by the encoded input.
     */
    function PlayerSrc(): (src: string)
      reads this
      ensures var base := ApiUrl(FindApi(apis, selectedApi));
        |base| <= |src| && src[..|base|] == base &&
        VideoPlayer.UriComponent.Decode(src[|base|..]) == Some(videoUrl)
      ensures FindApi(apis, selectedApi).None? ==> src == VideoPlayer.UriComponent.Encode(videoUrl)
    {
      VideoPlayer.PlayerSource(ApiUrl(GetCurrentApi()), videoUrl)
    }
  }

  /**
   * A first visit with nothing persisted: typing a valid url and pressing
   * play goes home, loading, playing, and leaves exactly one history entry.
   */
  method FirstVisit(apis: seq<Api>, isValidUrl: string -> bool, url: string, now: int, timestamp: string)
    returns (app: App)
    requires |apis| > 0 && !JsString.IsBlank(url) && isValidUrl(url)
    ensures app.isPlaying && !app.isLoading && app.errorMessage == ""
    ensures |app.history| == 1 && app.history[0].url == url && app.stored == Some(app.history)
  {
    app := new App(apis, isValidUrl, None);
    app.LoadHistory();
    assert app.history == [];
    app.InputChanged(url);
    app.HandlePlayVideo(now, timestamp);
    assert app.isLoading && !app.isPlaying && app.pendingTimers == 1;
    assert Without([], url) == [];
    app.TimerFires();
  }
}
