/**
 * The window-keyword distraction check (`DistractionMonitor` in focus_frame.py).
 * The active-window probe is an input: `None` when there is no active window
 * or the lookup fails, otherwise the raw window title.
 */
module Distraction {
  import opened Wrappers
  import opened Strings

  /** `Config.DISTRACTION_KEYWORDS`, in configuration order. */
  const DISTRACTION_KEYWORDS: seq<string> := [
    "steam", "game", "netflix", "youtube", "facebook", "twitter",
    "instagram", "tiktok", "twitch", "discord", "hulu", "prime video"
  ]

  /** `get_active_window_title`: the lower-cased title, or "" when none is available. */
  function ActiveWindowTitle(window: Option<string>): string {
    match window
    case None => ""
    case Some(title) => Lower(title)
  }

  /** `check_distractions` on the already lower-cased `title`. */
  function CheckDistractions(keywords: seq<string>, title: string): Option<string>
    decreases |keywords|
  {
    if keywords == [] then None
    else if Contains(title, keywords[0]) then Some(title)
    else CheckDistractions(keywords[1..], title)
  }

  /** The letter case of the window title does not matter: its lower-cased form gives the same verdict. */
  lemma CaseOfTitleIrrelevant(keywords: seq<string>, title: string)
    ensures CheckDistractions(keywords, ActiveWindowTitle(Some(Lower(title)))) ==
            CheckDistractions(keywords, ActiveWindowTitle(Some(title)))
  {
    LowerIdempotent(title);
  }

  /**
   * The check reports the title itself exactly when some keyword occurs in
   * it, and `None` when none does.
   */
  lemma {:induction false} CheckDistractionsSpec(keywords: seq<string>, title: string)
    ensures var r := CheckDistractions(keywords, title);
      (r.Some? <==> exists k :: k in keywords && Contains(title, k)) &&
      (r.Some? ==> r.value == title)
    decreases |keywords|
  {
    if keywords != [] {
      assert keywords[0] in keywords;
      if !Contains(title, keywords[0]) {
        CheckDistractionsSpec(keywords[1..], title);
        assert forall k :: k in keywords <==> k == keywords[0] || k in keywords[1..];
      }
    }
  }

  /** With no empty keyword, an empty or unavailable title never matches. */
  lemma EmptyTitleNeverMatches(keywords: seq<string>)
    requires forall i | 0 <= i < |keywords| :: keywords[i] != ""
    ensures CheckDistractions(keywords, ActiveWindowTitle(None)) == None
    ensures CheckDistractions(keywords, "") == None
  {
    CheckDistractionsSpec(keywords, "");
  }

  /** The default keyword list is free of empty keywords, so "" never matches it. */
  lemma DefaultIgnoresMissingWindow()
    ensures CheckDistractions(DISTRACTION_KEYWORDS, ActiveWindowTitle(None)) == None
  {
    var kw := DISTRACTION_KEYWORDS;
    assert forall i | 0 <= i < |kw| :: |kw[i]| >= 4;
    EmptyTitleNeverMatches(kw);
  }

  lemma NetflixTitle()
    ensures ActiveWindowTitle(Some("Netflix - Chrome")) == "netflix - chrome"
  {
    LowerAppend("N", "etflix - ");
    LowerAppend("Netflix - ", "Chrome");
    LowerAppend("C", "hrome");
  }

  /** The match is case-insensitive: "Netflix - Chrome" is reported, lower-cased. */
  lemma NetflixWindowMatches()
    ensures CheckDistractions(DISTRACTION_KEYWORDS, ActiveWindowTitle(Some("Netflix - Chrome")))
         == Some("netflix - chrome")
  {
    NetflixTitle();
    var t := "netflix - chrome";
    assert OccursAt(t, "netflix", 0);
    ContainsSpec(t, "netflix");
    assert DISTRACTION_KEYWORDS[2] == "netflix";
    CheckDistractionsSpec(DISTRACTION_KEYWORDS, t);
  }

  /** The result depends on which keywords are listed, not on their order or repetitions. */
  lemma OrderIrrelevant(keywords: seq<string>, others: seq<string>, title: string)
    requires forall k :: k in keywords <==> k in others
    ensures CheckDistractions(keywords, title) == CheckDistractions(others, title)
  {
    CheckDistractionsSpec(keywords, title);
    CheckDistractionsSpec(others, title);
  }
}
