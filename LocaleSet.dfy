/** The first half of the localization view: which tabs form the current
    page's family of localized variants, and which locales the view shows,
    default language first. */
module LocaleSet {
  import opened Wrappers
  import opened Entities
  import opened Sequences

  /** The unique id of the default-language page of `current`'s family. */
  function CanonicalId(current: Tab): (r: Guid)
  {
    if current.defaultLanguageGuid != NullGuid then current.defaultLanguageGuid else current.uniqueId
  }

  /** The portal's tabs that are not the admin tab, not a direct child of it,
      and not deleted, in the store's order. */
  function AllPages(portalTabs: seq<Tab>, adminTabId: int): (r: seq<Tab>)
  {
    var nonAdmin := Filter(portalTabs, (t: Tab) => t.tabId != adminTabId && (t.parentId == NullInteger || t.parentId != adminTabId));
    Filter(nonAdmin, (t: Tab) => t.isDeleted == false)
  }

  /** The tabs linked to the unique id `uid` by their own id or by their
      default-language link, in the given order. */
  function FamilyCandidates(allPages: seq<Tab>, uid: Guid): (r: seq<Tab>)
  {
    Filter(allPages, (t: Tab) => t.defaultLanguageGuid == uid || t.uniqueId == uid)
  }

  function DefaultLanguageGuidKey(t: Tab): (r: int)
  {
    t.defaultLanguageGuid
  }

  /** The members of the family whose default-language page has unique id
      `uid`, ordered (stably) by their `DefaultLanguageGuid`. */
  function LocalizedPages(allPages: seq<Tab>, uid: Guid): (r: seq<Tab>)
  {
    SortBy(FamilyCandidates(allPages, uid), DefaultLanguageGuidKey)
  }

  function Family(portalTabs: seq<Tab>, adminTabId: int, current: Tab): (r: seq<Tab>)
  {
    LocalizedPages(AllPages(portalTabs, adminTabId), CanonicalId(current))
  }

  /** A tab belongs to the family exactly when it is a live, non-admin tab of
      the portal linked to the canonical id by its own id or by its default
      language link; and the family comes sorted by that link. */
  lemma FamilyMembers(portalTabs: seq<Tab>, adminTabId: int, current: Tab, t: Tab)
    ensures t in Family(portalTabs, adminTabId, current)
        <==> && t in portalTabs
             && !t.isDeleted
             && t.tabId != adminTabId
             && (adminTabId == NullInteger || t.parentId != adminTabId)
             && (t.uniqueId == CanonicalId(current) || t.defaultLanguageGuid == CanonicalId(current))
    ensures SortedBy(Family(portalTabs, adminTabId, current), DefaultLanguageGuidKey)
  {
    var members := FamilyCandidates(AllPages(portalTabs, adminTabId), CanonicalId(current));
    SortByMembership(members, DefaultLanguageGuidKey, t);
    SortByIsSortedPermutation(members, DefaultLanguageGuidKey);
  }

  /** Where the extra locales come from, besides the portal's. */
  datatype LocaleSources = LocaleSources(
    localeCount: nat,
    defaultLanguage: string,
    localizedTabs: Tab -> seq<Tab>,
    defaultLanguageTab: Tab -> Option<Tab>,
    canViewPage: Tab -> bool)

  /** The `localizedTabs` dictionary the list is drawn from: the current
      tab's own when it is in the default language, else its default-language
      tab's, and none when it has no default-language tab. */
  function LocalizedTabsSource(current: Tab, src: LocaleSources): (r: Option<seq<Tab>>)
  {
    if current.cultureCode == Code(src.defaultLanguage) then Some(src.localizedTabs(current))
    else
      match src.defaultLanguageTab(current)
      case None => None
      case Some(d) => Some(src.localizedTabs(d))
  }

  function Cultures(tabs: seq<Tab>): (r: seq<CultureCode>)
    ensures |r| == |tabs|
    ensures forall i :: 0 <= i < |tabs| ==> r[i] == tabs[i].cultureCode
  {
    seq(|tabs|, i requires 0 <= i < |tabs| => tabs[i].cultureCode)
  }

  /** The extra locales: the culture of each localized tab the user may view,
      in the dictionary's order. */
  function ViewableLocales(current: Tab, src: LocaleSources): (r: seq<CultureCode>)
  {
    match LocalizedTabsSource(current, src)
    case None => []
    case Some(tabs) => Cultures(Filter(tabs, src.canViewPage))
  }

  /** The ordered list of locales shown for `current`, whose family is `family`. */
  function LocaleList(family: seq<Tab>, current: Tab, src: LocaleSources): (r: seq<CultureCode>)
    ensures |r| >= 1
  {
    if src.localeCount == 0 then [Code("")]
    else if |family| == 1 && family[0].cultureCode == Code("") then [Code("")]
    else if |family| == 1 && family[0].cultureCode != Code(src.defaultLanguage) then [family[0].cultureCode]
    else [Code(src.defaultLanguage)] + ViewableLocales(current, src)
  }

  /** With no locales configured, or a single locale-neutral family member,
      the view has the locale-neutral culture only. */
  lemma NeutralLocaleList(family: seq<Tab>, current: Tab, src: LocaleSources)
    requires src.localeCount == 0 || (|family| == 1 && family[0].cultureCode == Code(""))
    ensures LocaleList(family, current, src) == [Code("")]
  {
  }

  /** A single family member in a culture other than the default gives
      exactly that culture. */
  lemma SingleForeignLocaleList(family: seq<Tab>, current: Tab, src: LocaleSources)
    requires src.localeCount > 0 && |family| == 1
    requires family[0].cultureCode != Code("") && family[0].cultureCode != Code(src.defaultLanguage)
    ensures LocaleList(family, current, src) == [family[0].cultureCode]
  {
  }

  /** Otherwise the default language comes first, and each later locale is
      the culture of a localized tab the user may view, in dictionary order. */
  lemma DefaultLanguageFirst(family: seq<Tab>, current: Tab, src: LocaleSources)
    requires src.localeCount > 0
    requires |family| != 1 || (family[0].cultureCode != Code("") && family[0].cultureCode == Code(src.defaultLanguage))
    ensures var r := LocaleList(family, current, src);
      && r[0] == Code(src.defaultLanguage)
      && r[1..] == ViewableLocales(current, src)
      && forall i :: 1 <= i < |r| ==>
           exists t :: t in LocalizedTabsSource(current, src).value && src.canViewPage(t) && r[i] == t.cultureCode
  {
    var r := LocaleList(family, current, src);
    assert r == [Code(src.defaultLanguage)] + ViewableLocales(current, src);
    assert r[1..] == ViewableLocales(current, src);
    forall i | 1 <= i < |r|
      ensures exists t :: t in LocalizedTabsSource(current, src).value && src.canViewPage(t) && r[i] == t.cultureCode
    {
      assert LocalizedTabsSource(current, src).Some?;
      var tabs := LocalizedTabsSource(current, src).value;
      var viewable := Filter(tabs, src.canViewPage);
      assert ViewableLocales(current, src) == Cultures(viewable);
      assert r[i] == viewable[i - 1].cultureCode;
      assert viewable[i - 1] in viewable;
    }
  }

  /** The family members whose culture is one of the view's locales, in
      family order. */
  function ViewablePages(family: seq<Tab>, locales: seq<CultureCode>): (r: seq<Tab>)
    ensures forall t :: t in r <==> t in family && t.cultureCode in locales
  {
    Filter(family, (t: Tab) => t.cultureCode in locales)
  }
}
