/**
  The language manager: the page is either in Arabic mode (the
  `arabic-mode` class on the body) or not; the choice is saved under the
  storage key `preferredLang`, and the navigation links carry their
  Arabic and English labels in `data-ar` and `data-en`.
*/
module Language {
  import opened Wrappers

  const ARABIC: string := "ar"
  const ENGLISH: string := "en"

  /** A navigation link: its shown text and its two optional data attributes. */
  datatype NavLink = NavLink(text: string, dataAr: Option<string>, dataEn: Option<string>)

  /** JavaScript truthiness of a string that may be absent: present and non-empty. */
  predicate Truthy(s: Option<string>)
  {
    s.Some? && s.value != ""
  }

  /** `navigator.language || navigator.userLanguage`; `None` stands for `undefined`. */
  function BrowserLanguage(language: Option<string>, userLanguage: Option<string>): (browserLang: Option<string>)
    ensures Truthy(language) ==> browserLang == language
    ensures !Truthy(language) ==> browserLang == userLanguage
  {
    if Truthy(language) then language else userLanguage
  }

  /**
    Whether the load-time handler switches Arabic mode on, given the saved
    preference and what the browser reports. When the browser reports no
    language at all, `startsWith` is called on `undefined` and throws
    before the decision, so nothing is switched on.
  */
  function SwitchToArabicOnLoad(saved: Option<string>, language: Option<string>, userLanguage: Option<string>): (switchOn: bool)
    ensures BrowserLanguage(language, userLanguage).None? ==> !switchOn
    ensures BrowserLanguage(language, userLanguage).Some? && saved == Some(ARABIC) ==> switchOn
    ensures Truthy(saved) && saved != Some(ARABIC) ==> !switchOn
    ensures !Truthy(saved) ==>
      (switchOn <==> BrowserLanguage(language, userLanguage).Some? && ARABIC <= BrowserLanguage(language, userLanguage).value)
  {
    match BrowserLanguage(language, userLanguage)
    case None => false
    case Some(browserLang) =>
      var isArabicBrowser := ARABIC <= browserLang;
      saved == Some(ARABIC) || (!Truthy(saved) && isArabicBrowser)
  }

  /** The value `toggleLanguage` saves for a mode. */
  function PreferenceFor(isArabic: bool): (saved: string)
    ensures saved == ARABIC <==> isArabic
    ensures saved == ENGLISH <==> !isArabic
  {
    if isArabic then ARABIC else ENGLISH
  }

  /**
    A saved preference decides the next load on its own, whatever the
    browser locale: reloading after a toggle comes back in the same mode.
  */
  lemma SavedPreferenceRestoresMode(isArabic: bool, language: Option<string>, userLanguage: Option<string>)
    requires BrowserLanguage(language, userLanguage).Some?
    ensures SwitchToArabicOnLoad(Some(PreferenceFor(isArabic)), language, userLanguage) == isArabic
  {
  }

  /** An empty saved value counts as no saved value. */
  lemma EmptyPreferenceIsAbsent(language: Option<string>, userLanguage: Option<string>)
    ensures SwitchToArabicOnLoad(Some(""), language, userLanguage) == SwitchToArabicOnLoad(None, language, userLanguage)
  {
  }

  /** The label a link offers for a mode. */
  function Label(link: NavLink, isArabic: bool): Option<string>
  {
    if isArabic then link.dataAr else link.dataEn
  }

  /** One step of `updateNavText`: the link shows its label for the mode, if it has a non-empty one. */
  function Relabel(link: NavLink, isArabic: bool): (relabelled: NavLink)
    ensures relabelled.dataAr == link.dataAr && relabelled.dataEn == link.dataEn
    ensures Truthy(Label(link, isArabic)) ==> relabelled.text == Label(link, isArabic).value
    ensures !Truthy(Label(link, isArabic)) ==> relabelled == link
  {
    if Truthy(Label(link, isArabic)) then link.(text := Label(link, isArabic).value) else link
  }

  /** Updating the labels twice in the same mode changes nothing more. */
  lemma RelabelIdempotent(link: NavLink, isArabic: bool)
    ensures Relabel(Relabel(link, isArabic), isArabic) == Relabel(link, isArabic)
  {
  }

  /**
    Switching to the other mode and back shows the same text as staying,
    for a link that has a label for the mode.
  */
  lemma RelabelToggleTwice(link: NavLink, isArabic: bool)
    requires Truthy(Label(link, isArabic))
    ensures Relabel(Relabel(link, !isArabic), isArabic) == Relabel(link, isArabic)
  {
  }

  /** The body's mode, the saved preference and the navigation links. */
  class LanguageManager {
    var arabicMode: bool
    var preferredLang: Option<string>
    const navLinks: array<NavLink>

    constructor (bodyArabic: bool, saved: Option<string>, links: seq<NavLink>)
      ensures fresh(navLinks)
      ensures arabicMode == bodyArabic && preferredLang == saved && navLinks[..] == links
    {
      arabicMode := bodyArabic;
      preferredLang := saved;
      navLinks := new NavLink[|links|](k requires 0 <= k < |links| => links[k]);
    }

    /** `updateNavText`: every link shows its label for the current mode, if it has one. */
    method UpdateNavText()
      modifies navLinks
      ensures forall k | 0 <= k < navLinks.Length :: navLinks[k] == Relabel(old(navLinks[k]), arabicMode)
    {
      for i := 0 to navLinks.Length
        invariant forall k | 0 <= k < i :: navLinks[k] == Relabel(old(navLinks[k]), arabicMode)
        invariant forall k | i <= k < navLinks.Length :: navLinks[k] == old(navLinks[k])
      {
        navLinks[i] := Relabel(navLinks[i], arabicMode);
      }
    }

    /** `toggleLanguage`: flip the mode, relabel the links, save the new mode. */
    method ToggleLanguage()
      modifies this, navLinks
      ensures arabicMode == !old(arabicMode)
      ensures preferredLang == Some(PreferenceFor(arabicMode))
      ensures forall k | 0 <= k < navLinks.Length :: navLinks[k] == Relabel(old(navLinks[k]), arabicMode)
    {
      arabicMode := !arabicMode;
      UpdateNavText();
      var isArabic := arabicMode;
      preferredLang := Some(PreferenceFor(isArabic));
    }

    /** The load-time handler: switch Arabic mode on from the saved preference or the browser locale. */
    method DetectOnLoad(language: Option<string>, userLanguage: Option<string>)
      modifies this, navLinks
      ensures preferredLang == old(preferredLang)
      ensures var switchOn := SwitchToArabicOnLoad(old(preferredLang), language, userLanguage);
        && arabicMode == (old(arabicMode) || switchOn)
        && forall k | 0 <= k < navLinks.Length ::
             navLinks[k] == if switchOn then Relabel(old(navLinks[k]), true) else old(navLinks[k])
    {
      var saved := preferredLang;
      var browserLang := BrowserLanguage(language, userLanguage);
      if browserLang.None? {
        // `startsWith` on `undefined` throws; the handler stops here
        return;
      }
      var isArabicBrowser := ARABIC <= browserLang.value;
      if saved == Some(ARABIC) || (!Truthy(saved) && isArabicBrowser) {
        arabicMode := true;
        UpdateNavText();
      }
    }
  }
}
