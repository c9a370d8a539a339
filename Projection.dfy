/** The localization view (`GetNonLocalizedPages`): for each viewable
    member of the current page's family, a page row with its path and
    position label, and the page's modules placed in slots keyed by their
    default-language module and the page's culture. The view itself is the
    `PagesView` object the builder fills in place; the value functions
    below say what it holds afterwards. */
module Projection {
  import opened Wrappers
  import opened Entities
  import opened Sequences
  import opened Text
  import opened LocaleSet
  import opened Position

  /** The portal's store and the permission checks, as the builder sees them. */
  datatype Portal = Portal(
    portalTabs: seq<Tab>,
    getTab: int -> Option<Tab>,
    adminTabId: int,
    localeCount: nat,
    defaultLanguage: string,
    localizedTabs: Tab -> seq<Tab>,
    defaultLanguageTab: Tab -> Option<Tab>,
    hasMissingLanguages: int -> bool,
    canViewPage: Tab -> bool,
    canAdminPage: Tab -> bool,
    canViewModule: Module -> bool,
    canAdminModule: Module -> bool,
    tabModules: int -> seq<Module>,
    moduleByUniqueId: Guid -> Option<Module>,
    tabsByModuleId: int -> seq<Tab>,
    isTabPublished: Tab -> bool)

  function Sources(p: Portal): (r: LocaleSources)
  {
    LocaleSources(p.localeCount, p.defaultLanguage, p.localizedTabs, p.defaultLanguageTab, p.canViewPage)
  }

  /** One page row of the view (`DnnPageDto`). */
  datatype PageView = PageView(
    tabId: int,
    tabName: string,
    title: string,
    description: string,
    path: string,
    hasChildren: bool,
    canAdminPage: bool,
    canViewPage: bool,
    position: string,
    defaultLanguageGuid: Guid,
    isTranslated: bool,
    isPublished: bool)

  /** One module slot of the view (`DnnModuleDto`). */
  datatype ModuleView = ModuleView(
    moduleTitle: string,
    defaultLanguageGuid: Guid,
    tabId: int,
    tabModuleId: int,
    moduleId: int,
    canAdminModule: bool,
    canViewModule: bool,
    isDeleted: bool,
    defaultModuleId: int,
    defaultTabName: string,
    isTranslated: bool,
    isLocalized: bool,
    isShared: bool,
    errorDefaultOnOtherTab: bool,
    errorCultureOfModuleNotCultureOfTab: bool,
    errorDuplicateModule: bool)

  /** A slot as it is created, before any module is placed in it. */
  const EmptySlot: ModuleView :=
    ModuleView("", NullGuid, 0, 0, 0, false, false, false, 0, "", false, false, false, false, false, false)

  /** A slot is addressed by the unique id of the family's default-language
      module and by the culture of the page it is shown for. */
  type SlotKey = (Guid, CultureCode)

  /** The whole view (`DnnPagesDto`). */
  datatype ViewState = ViewState(
    locales: seq<CultureCode>,
    pages: map<CultureCode, PageView>,
    slots: map<SlotKey, ModuleView>,
    errorExists: bool,
    hasMissingLanguages: bool)

  /** Why the builder throws: the tab does not exist, a tab path has no
      "//" to cut at, or the position loop fails. */
  datatype ProjectionError =
    | TabNotFound(tabId: int)
    | PathWithoutSeparator(tabId: int)
    | PositionFailed(reason: PositionError)

  function Initial(locales: seq<CultureCode>, hasMissingLanguages: bool): (st: ViewState)
    ensures st.locales == locales && st.pages == map[] && st.slots == map[] && !st.errorExists
  {
    ViewState(locales, map[], map[], false, hasMissingLanguages)
  }

  /** The slot at `key`, as the find-or-create lookup returns it. */
  function SlotAt(slots: map<SlotKey, ModuleView>, key: SlotKey): (r: ModuleView)
  {
    if key in slots then slots[key] else EmptySlot
  }

  /** `RemoveLocale`: the culture leaves the locale list (every occurrence
      of it) and the culture's module slots go with it. */
  function WithoutLocale(st: ViewState, c: CultureCode): (r: ViewState)
    ensures c !in r.locales
    ensures forall x :: x in r.locales <==> x in st.locales && x != c
  {
    st.(locales := Filter(st.locales, (x: CultureCode) => x != c),
        slots := map k | k in st.slots && k.1 != c :: st.slots[k])
  }

  /** `RemoveLocale` followed by `Pages.Remove` of the culture's page. */
  function DropPage(st: ViewState, c: CultureCode): (r: ViewState)
  {
    WithoutLocale(st, c).(pages := st.pages - {c})
  }

  /** The `Path` of a page: its `TabPath` up to the last "//", with every
      "//" removed; `None` where `Substring(0, -1)` throws. */
  function PagePath(tabPath: string): (r: Option<string>)
    ensures r.None? <==> !HasDoubleSlash(tabPath)
    ensures r.Some? ==> !HasDoubleSlash(r.value) && |r.value| <= |tabPath|
    ensures r.Some? ==> Filter(r.value, NotSlash) == Filter(tabPath[..LastIndexOfDoubleSlash(tabPath)], NotSlash)
  {
    var cut := LastIndexOfDoubleSlash(tabPath);
    if cut == -1 then None
    else
      RemoveDoubleSlashesLeavesNone(tabPath[..cut]);
      RemoveDoubleSlashesKeepsOthers(tabPath[..cut]);
      Some(RemoveDoubleSlashes(tabPath[..cut]))
  }

  /** `WithParentId(id).Count != 0` over all the portal's tabs. */
  function HasChildren(portalTabs: seq<Tab>, id: int): (r: bool)
    ensures r <==> exists x :: x in portalTabs && x.parentId == id
  {
    var children := Filter(portalTabs, (x: Tab) => x.parentId == id);
    assert |children| != 0 ==> children[0] in children;
    |children| != 0
  }

  /** The unique id of the default-language module of `m`'s family. */
  function FamilyKey(m: Module): (r: Guid)
  {
    if m.defaultLanguageGuid == NullGuid then m.uniqueId else m.defaultLanguageGuid
  }

  /** A module is shared when several tabs that hold it have its culture. */
  function IsShared(p: Portal, m: Module): (r: bool)
  {
    CountWhere(p.tabsByModuleId(m.moduleId), (x: Tab) => x.cultureCode == m.cultureCode) > 1
  }

  /** `DefaultModuleId`: set from the default-language module when it is
      found; otherwise the slot keeps `prior`. */
  function DefaultModuleId(p: Portal, m: Module, prior: int): (r: int)
  {
    if m.defaultLanguageGuid == NullGuid then prior
    else
      match p.moduleByUniqueId(m.defaultLanguageGuid)
      case None => prior
      case Some(d) => d.moduleId
  }

  /** `DefaultTabName`: set only when the default-language module is found
      on a tab other than the default-language tab of `m`'s own tab. */
  function DefaultTabName(p: Portal, m: Module, prior: string): (r: string)
  {
    if m.defaultLanguageGuid == NullGuid then prior
    else
      match p.moduleByUniqueId(m.defaultLanguageGuid)
      case None => prior
      case Some(d) => if d.parentTabUniqueId != m.parentTabDefaultLanguageGuid then d.parentTabName else prior
  }

  /** A free slot filled from module `m` of page `t`. The duplicate flag is
      left as it was. */
  function FillModule(p: Portal, t: Tab, m: Module, slot: ModuleView): (r: ModuleView)
    ensures r.tabModuleId == m.tabModuleId && r.tabId == t.tabId && r.moduleTitle == m.moduleTitle
    ensures r.errorDefaultOnOtherTab <==> m.defaultLanguageGuid != NullGuid && m.defaultLanguageModuleVersion.None?
    ensures r.errorCultureOfModuleNotCultureOfTab <==> m.cultureCode != t.cultureCode
    ensures r.errorDuplicateModule == slot.errorDuplicateModule
    ensures p.moduleByUniqueId(m.defaultLanguageGuid).None? || m.defaultLanguageGuid == NullGuid
            ==> r.defaultModuleId == slot.defaultModuleId && r.defaultTabName == slot.defaultTabName
  {
    ModuleView(
      moduleTitle := m.moduleTitle,
      defaultLanguageGuid := m.defaultLanguageGuid,
      tabId := t.tabId,
      tabModuleId := m.tabModuleId,
      moduleId := m.moduleId,
      canAdminModule := p.canAdminModule(m),
      canViewModule := p.canViewModule(m),
      isDeleted := m.isDeleted,
      defaultModuleId := DefaultModuleId(p, m, slot.defaultModuleId),
      defaultTabName := DefaultTabName(p, m, slot.defaultTabName),
      isTranslated := m.isTranslated,
      isLocalized := m.isLocalized,
      isShared := IsShared(p, m),
      errorDefaultOnOtherTab := m.defaultLanguageGuid != NullGuid && m.defaultLanguageModuleVersion.None?,
      errorCultureOfModuleNotCultureOfTab := m.cultureCode != t.cultureCode,
      errorDuplicateModule := slot.errorDuplicateModule)
  }

  /** The slot module `m` of page `t` goes to. */
  function SlotKeyOf(t: Tab, m: Module): (r: SlotKey)
  {
    (FamilyKey(m), t.cultureCode)
  }

  /** What the slot holds after module `m` of page `t` met it: an occupied
      slot (`TabModuleId > 0`) only gets the duplicate flag, a free one is
      filled. */
  function PlacedSlot(p: Portal, t: Tab, m: Module, slot: ModuleView): (r: ModuleView)
  {
    if slot.tabModuleId > 0 then slot.(errorDuplicateModule := true) else FillModule(p, t, m, slot)
  }

  /** Whether placing `m` or-s `true` into `ErrorExists`: a duplicate, or
      on a free slot one of the two mismatch flags. */
  predicate RaisesError(t: Tab, m: Module, slot: ModuleView)
  {
    || slot.tabModuleId > 0
    || (m.defaultLanguageGuid != NullGuid && m.defaultLanguageModuleVersion.None?)
    || m.cultureCode != t.cultureCode
  }

  /** One module of page `t` placed in the view; `ErrorExists` is only ever
      or-ed. */
  function AddModule(p: Portal, t: Tab, m: Module, st: ViewState): (r: ViewState)
  {
    var key := SlotKeyOf(t, m);
    var slot := SlotAt(st.slots, key);
    st.(slots := st.slots[key := PlacedSlot(p, t, m, slot)], errorExists := st.errorExists || RaisesError(t, m, slot))
  }

  /** The modules of page `t`, placed in the store's order. */
  function AddModules(p: Portal, t: Tab, modules: seq<Module>, st: ViewState): (r: ViewState)
    decreases |modules|
  {
    if modules == [] then st
    else AddModules(p, t, modules[1..], AddModule(p, t, modules[0], st))
  }

  /** The page row for `t`, and its modules. */
  function ProjectPage(p: Portal, allPages: seq<Tab>, t: Tab, st: ViewState): (r: Result<ViewState, ProjectionError>)
    ensures r.Err? <==> !HasDoubleSlash(t.tabPath) || PositionLabel(allPages, t).Err?
  {
    match PagePath(t.tabPath)
    case None => Err(PathWithoutSeparator(t.tabId))
    case Some(path) =>
      match PositionLabel(allPages, t)
      case Err(e) => Err(PositionFailed(e))
      case Ok(position) =>
        var page := PageView(t.tabId, t.tabName, t.title, t.description, path,
                             HasChildren(p.portalTabs, t.tabId), p.canAdminPage(t), p.canViewPage(t),
                             position, t.defaultLanguageGuid, t.isTranslated, p.isTabPublished(t));
        Ok(AddModules(p, t, p.tabModules(t.tabId), st.(pages := st.pages[t.cultureCode := page])))
  }

  /** The page loop: the first page the user may not view drops its
      culture and ends the loop. */
  function ProjectPages(p: Portal, allPages: seq<Tab>, pages: seq<Tab>, st: ViewState): (r: Result<ViewState, ProjectionError>)
    decreases |pages|
  {
    if pages == [] then Ok(st)
    else if !p.canViewPage(pages[0]) then Ok(DropPage(st, pages[0].cultureCode))
    else
      match ProjectPage(p, allPages, pages[0], st)
      case Err(e) => Err(e)
      case Ok(next) => ProjectPages(p, allPages, pages[1..], next)
  }

  /** What `GetNonLocalizedPages(tabId)` returns. */
  function GetNonLocalizedPagesSpec(p: Portal, tabId: int): (r: Result<ViewState, ProjectionError>)
  {
    match GetTabById(p.getTab, tabId)
    case None => Err(TabNotFound(tabId))
    case Some(current) =>
      var allPages := AllPages(p.portalTabs, p.adminTabId);
      var family := LocalizedPages(allPages, CanonicalId(current));
      var locales := LocaleList(family, current, Sources(p));
      ProjectPages(p, allPages, ViewablePages(family, locales), Initial(locales, p.hasMissingLanguages(tabId)))
  }

  /** The field assignments of the module loop on a free slot. */
  method FillSlot(p: Portal, t: Tab, m: Module, slot: ModuleView) returns (dnnModule: ModuleView)
    ensures dnnModule == FillModule(p, t, m, slot)
  {
    var defaultModuleId := slot.defaultModuleId;
    var defaultTabName := slot.defaultTabName;
    if m.defaultLanguageGuid != NullGuid {
      var defaultLanguageModule := p.moduleByUniqueId(m.defaultLanguageGuid);
      if defaultLanguageModule.Some? {
        defaultModuleId := defaultLanguageModule.value.moduleId;
        if defaultLanguageModule.value.parentTabUniqueId != m.parentTabDefaultLanguageGuid {
          defaultTabName := defaultLanguageModule.value.parentTabName;
        }
      }
    }
    dnnModule := ModuleView(
      moduleTitle := m.moduleTitle,
      defaultLanguageGuid := m.defaultLanguageGuid,
      tabId := t.tabId,
      tabModuleId := m.tabModuleId,
      moduleId := m.moduleId,
      canAdminModule := p.canAdminModule(m),
      canViewModule := p.canViewModule(m),
      isDeleted := m.isDeleted,
      defaultModuleId := defaultModuleId,
      defaultTabName := defaultTabName,
      isTranslated := m.isTranslated,
      isLocalized := m.isLocalized,
      isShared := IsShared(p, m),
      errorDefaultOnOtherTab := m.defaultLanguageGuid != NullGuid && m.defaultLanguageModuleVersion.None?,
      errorCultureOfModuleNotCultureOfTab := m.cultureCode != t.cultureCode,
      errorDuplicateModule := slot.errorDuplicateModule);
  }

  /** Placing modules changes only slots and the error flag. */
  lemma {:induction false} ModulesKeepPagesAndLocales(p: Portal, t: Tab, modules: seq<Module>, st: ViewState)
    ensures AddModules(p, t, modules, st).locales == st.locales
    ensures AddModules(p, t, modules, st).pages == st.pages
    ensures AddModules(p, t, modules, st).hasMissingLanguages == st.hasMissingLanguages
    decreases |modules|
  {
    if modules != [] {
      ModulesKeepPagesAndLocales(p, t, modules[1..], AddModule(p, t, modules[0], st));
    }
  }

  /** The slot `b` after its occupant `a` met zero or more later modules. */
  predicate SameOccupant(b: ModuleView, a: ModuleView)
  {
    b == a || b == a.(errorDuplicateModule := true)
  }

  lemma SameOccupantTrans(c: ModuleView, b: ModuleView, a: ModuleView)
    requires SameOccupant(c, b) && SameOccupant(b, a)
    ensures SameOccupant(c, a)
  {
  }

  lemma FlaggedAfter(b: ModuleView, a: ModuleView)
    requires SameOccupant(b, a)
    ensures b.(errorDuplicateModule := true) == a.(errorDuplicateModule := true)
  {
  }

  lemma FlaggedStays(b: ModuleView, a: ModuleView)
    requires SameOccupant(b, a.(errorDuplicateModule := true))
    ensures b == a.(errorDuplicateModule := true)
  {
  }

  lemma OccupantStep(p: Portal, t: Tab, m: Module, st: ViewState, key: SlotKey)
    requires SlotAt(st.slots, key).tabModuleId > 0
    ensures var r := AddModule(p, t, m, st);
      && key in r.slots
      && SameOccupant(r.slots[key], st.slots[key])
      && (key == SlotKeyOf(t, m) ==> r.slots[key] == st.slots[key].(errorDuplicateModule := true) && r.errorExists)
  {
  }

  /** A slot that already holds a module (`TabModuleId > 0`) keeps its first
      occupant whatever modules follow; at most the duplicate flag is set. */
  lemma {:induction false} FirstOccupantStays(p: Portal, t: Tab, modules: seq<Module>, st: ViewState, key: SlotKey)
    requires SlotAt(st.slots, key).tabModuleId > 0
    ensures key in AddModules(p, t, modules, st).slots
    ensures SameOccupant(AddModules(p, t, modules, st).slots[key], st.slots[key])
    decreases |modules|
  {
    if modules != [] {
      var next := AddModule(p, t, modules[0], st);
      OccupantStep(p, t, modules[0], st, key);
      FirstOccupantStays(p, t, modules[1..], next, key);
      SameOccupantTrans(AddModules(p, t, modules[1..], next).slots[key], next.slots[key], st.slots[key]);
    }
  }

  /** A later module of the same family marks the occupied slot as
      duplicated and raises `ErrorExists`. */
  lemma {:induction false} DuplicateFlagged(p: Portal, t: Tab, modules: seq<Module>, st: ViewState, key: SlotKey, j: nat)
    requires SlotAt(st.slots, key).tabModuleId > 0
    requires j < |modules| && SlotKeyOf(t, modules[j]) == key
    ensures key in AddModules(p, t, modules, st).slots
    ensures AddModules(p, t, modules, st).slots[key] == st.slots[key].(errorDuplicateModule := true)
    ensures AddModules(p, t, modules, st).errorExists
    decreases j
  {
    var next := AddModule(p, t, modules[0], st);
    var rest := AddModules(p, t, modules[1..], next);
    OccupantStep(p, t, modules[0], st, key);
    FirstOccupantStays(p, t, modules[1..], next, key);
    if j == 0 {
      ErrorExistsStickyInModules(p, t, modules[1..], next);
      FlaggedStays(rest.slots[key], st.slots[key]);
    } else {
      assert modules[1..][j - 1] == modules[j];
      DuplicateFlagged(p, t, modules[1..], next, key, j - 1);
      FlaggedAfter(next.slots[key], st.slots[key]);
    }
  }

  /** `ErrorExists` is only ever or-ed while modules are placed. */
  lemma {:induction false} ErrorExistsStickyInModules(p: Portal, t: Tab, modules: seq<Module>, st: ViewState)
    requires st.errorExists
    ensures AddModules(p, t, modules, st).errorExists
    decreases |modules|
  {
    if modules != [] {
      ErrorExistsStickyInModules(p, t, modules[1..], AddModule(p, t, modules[0], st));
    }
  }

  /** A free slot takes the module, and the two mismatch flags are exactly
      what is or-ed into `ErrorExists`. */
  lemma FreeSlotFilled(p: Portal, t: Tab, m: Module, st: ViewState)
    requires SlotAt(st.slots, SlotKeyOf(t, m)).tabModuleId <= 0
    ensures var r := AddModule(p, t, m, st);
      && r.slots[SlotKeyOf(t, m)].tabModuleId == m.tabModuleId
      && r.slots[SlotKeyOf(t, m)].tabId == t.tabId
      && (r.errorExists <==> st.errorExists
                             || (m.defaultLanguageGuid != NullGuid && m.defaultLanguageModuleVersion.None?)
                             || m.cultureCode != t.cultureCode)
      && forall k :: k in st.slots && k != SlotKeyOf(t, m) ==> k in r.slots && r.slots[k] == st.slots[k]
  {
  }

  /** The page row of a projected page describes that page. */
  lemma PageRowDescribesTab(p: Portal, allPages: seq<Tab>, t: Tab, st: ViewState)
    requires ProjectPage(p, allPages, t, st).Ok?
    ensures var r := ProjectPage(p, allPages, t, st).value;
      && t.cultureCode in r.pages
      && r.pages[t.cultureCode].tabId == t.tabId
      && Some(r.pages[t.cultureCode].path) == PagePath(t.tabPath)
      && Ok(r.pages[t.cultureCode].position) == PositionLabel(allPages, t)
      && (r.pages[t.cultureCode].hasChildren <==> exists x :: x in p.portalTabs && x.parentId == t.tabId)
      && r.locales == st.locales
      && r.pages.Keys == st.pages.Keys + {t.cultureCode}
      && (forall c :: c in st.pages && c != t.cultureCode ==> r.pages[c] == st.pages[c])
      && r.hasMissingLanguages == st.hasMissingLanguages
      && (st.errorExists ==> r.errorExists)
  {
    var path := PagePath(t.tabPath).value;
    var position := PositionLabel(allPages, t).value;
    var page := PageView(t.tabId, t.tabName, t.title, t.description, path,
                         HasChildren(p.portalTabs, t.tabId), p.canAdminPage(t), p.canViewPage(t),
                         position, t.defaultLanguageGuid, t.isTranslated, p.isTabPublished(t));
    var withPage := st.(pages := st.pages[t.cultureCode := page]);
    ModulesKeepPagesAndLocales(p, t, p.tabModules(t.tabId), withPage);
    if st.errorExists {
      ErrorExistsStickyInModules(p, t, p.tabModules(t.tabId), withPage);
    }
  }

  /** `ErrorExists` is never reset by the page loop either. */
  lemma {:induction false} ErrorExistsSticky(p: Portal, allPages: seq<Tab>, pages: seq<Tab>, st: ViewState)
    requires st.errorExists && ProjectPages(p, allPages, pages, st).Ok?
    ensures ProjectPages(p, allPages, pages, st).value.errorExists
    decreases |pages|
  {
    if pages != [] && p.canViewPage(pages[0]) {
      PageRowDescribesTab(p, allPages, pages[0], st);
      ErrorExistsSticky(p, allPages, pages[1..], ProjectPage(p, allPages, pages[0], st).value);
    }
  }

  /** The first page the user may not view ends the loop: the pages after it
      play no part in the result, and its culture is gone from the view. */
  lemma {:induction false} EarlyStop(p: Portal, allPages: seq<Tab>, pages: seq<Tab>, st: ViewState, k: nat)
    requires k < |pages| && !p.canViewPage(pages[k])
    requires forall j :: 0 <= j < k ==> p.canViewPage(pages[j])
    ensures ProjectPages(p, allPages, pages, st) == ProjectPages(p, allPages, pages[..k + 1], st)
    ensures ProjectPages(p, allPages, pages, st).Ok? ==>
              && pages[k].cultureCode !in ProjectPages(p, allPages, pages, st).value.locales
              && pages[k].cultureCode !in ProjectPages(p, allPages, pages, st).value.pages
    decreases k
  {
    if k > 0 {
      assert pages[..k + 1][1..] == pages[1..][..k];
      assert pages[..k + 1][0] == pages[0];
      match ProjectPage(p, allPages, pages[0], st)
      case Err(_) =>
      case Ok(next) =>
        EarlyStop(p, allPages, pages[1..], next, k - 1);
    }
  }

  /** The locale list only ever loses cultures, and loses none when every
      page is viewable. */
  lemma {:induction false} LocalesOnlyShrink(p: Portal, allPages: seq<Tab>, pages: seq<Tab>, st: ViewState)
    requires ProjectPages(p, allPages, pages, st).Ok?
    ensures forall c :: c in ProjectPages(p, allPages, pages, st).value.locales ==> c in st.locales
    ensures (forall j :: 0 <= j < |pages| ==> p.canViewPage(pages[j]))
            ==> ProjectPages(p, allPages, pages, st).value.locales == st.locales
    decreases |pages|
  {
    if pages != [] && p.canViewPage(pages[0]) {
      PageRowDescribesTab(p, allPages, pages[0], st);
      LocalesOnlyShrink(p, allPages, pages[1..], ProjectPage(p, allPages, pages[0], st).value);
      if forall j :: 0 <= j < |pages| ==> p.canViewPage(pages[j]) {
        assert forall j :: 0 <= j < |pages[1..]| ==> p.canViewPage(pages[1..][j]) by {
          forall j | 0 <= j < |pages[1..]| ensures p.canViewPage(pages[1..][j]) {
            assert pages[1..][j] == pages[j + 1];
          }
        }
      }
    }
  }

  /** Every page row the view keeps is for one of the view's locales. */
  lemma {:induction false} PagesWithinLocales(p: Portal, allPages: seq<Tab>, pages: seq<Tab>, st: ViewState)
    requires forall c :: c in st.pages ==> c in st.locales
    requires forall j :: 0 <= j < |pages| ==> pages[j].cultureCode in st.locales
    requires ProjectPages(p, allPages, pages, st).Ok?
    ensures forall c :: c in ProjectPages(p, allPages, pages, st).value.pages
                        ==> c in ProjectPages(p, allPages, pages, st).value.locales
    decreases |pages|
  {
    if pages != [] && p.canViewPage(pages[0]) {
      var next := ProjectPage(p, allPages, pages[0], st).value;
      PageRowDescribesTab(p, allPages, pages[0], st);
      assert forall j :: 0 <= j < |pages[1..]| ==> pages[1..][j].cultureCode in next.locales by {
        forall j | 0 <= j < |pages[1..]| ensures pages[1..][j].cultureCode in next.locales {
          assert pages[1..][j] == pages[j + 1];
        }
      }
      PagesWithinLocales(p, allPages, pages[1..], next);
    }
  }

  /** The builder throws for a missing tab and for no other reason than a
      tab path without "//" or a failing position loop; a view it returns
      has a row only for cultures it lists, all drawn from the locale list. */
  lemma ViewShape(p: Portal, tabId: int)
    ensures GetNonLocalizedPagesSpec(p, tabId) == Err(TabNotFound(tabId)) <==> GetTabById(p.getTab, tabId).None?
    ensures GetNonLocalizedPagesSpec(p, tabId).Ok? ==>
      var v := GetNonLocalizedPagesSpec(p, tabId).value;
      var current := GetTabById(p.getTab, tabId).value;
      var family := LocalizedPages(AllPages(p.portalTabs, p.adminTabId), CanonicalId(current));
      && (forall c :: c in v.pages ==> c in v.locales)
      && (forall c :: c in v.locales ==> c in LocaleList(family, current, Sources(p)))
      && v.hasMissingLanguages == p.hasMissingLanguages(tabId)
  {
    match GetTabById(p.getTab, tabId)
    case None =>
    case Some(current) =>
      var allPages := AllPages(p.portalTabs, p.adminTabId);
      var family := LocalizedPages(allPages, CanonicalId(current));
      var locales := LocaleList(family, current, Sources(p));
      var viewable := ViewablePages(family, locales);
      var start := Initial(locales, p.hasMissingLanguages(tabId));
      assert forall j :: 0 <= j < |viewable| ==> viewable[j].cultureCode in start.locales by {
        forall j | 0 <= j < |viewable| ensures viewable[j].cultureCode in start.locales {
          assert viewable[j] in viewable;
        }
      }
      ProjectErrorsOnlyFromPages(p, allPages, viewable, start);
      if ProjectPages(p, allPages, viewable, start).Ok? {
        PagesWithinLocales(p, allPages, viewable, start);
        LocalesOnlyShrink(p, allPages, viewable, start);
        MissingLanguagesKept(p, allPages, viewable, start);
      }
  }

  lemma {:induction false} ProjectErrorsOnlyFromPages(p: Portal, allPages: seq<Tab>, pages: seq<Tab>, st: ViewState)
    ensures ProjectPages(p, allPages, pages, st).Err? ==>
      ProjectPages(p, allPages, pages, st).error.PathWithoutSeparator? || ProjectPages(p, allPages, pages, st).error.PositionFailed?
    decreases |pages|
  {
    if pages != [] && p.canViewPage(pages[0]) && ProjectPage(p, allPages, pages[0], st).Ok? {
      ProjectErrorsOnlyFromPages(p, allPages, pages[1..], ProjectPage(p, allPages, pages[0], st).value);
    }
  }

  lemma {:induction false} MissingLanguagesKept(p: Portal, allPages: seq<Tab>, pages: seq<Tab>, st: ViewState)
    requires ProjectPages(p, allPages, pages, st).Ok?
    ensures ProjectPages(p, allPages, pages, st).value.hasMissingLanguages == st.hasMissingLanguages
    decreases |pages|
  {
    if pages != [] && p.canViewPage(pages[0]) {
      PageRowDescribesTab(p, allPages, pages[0], st);
      MissingLanguagesKept(p, allPages, pages[1..], ProjectPage(p, allPages, pages[0], st).value);
    }
  }

  /** The `DnnPagesDto` under construction. */
  class PagesView {
    var locales: seq<CultureCode>
    var pages: map<CultureCode, PageView>
    var slots: map<SlotKey, ModuleView>
    var errorExists: bool
    var hasMissingLanguages: bool

    function State(): (r: ViewState)
      reads this
    {
      ViewState(locales, pages, slots, errorExists, hasMissingLanguages)
    }

    constructor (locales: seq<CultureCode>, hasMissingLanguages: bool)
      ensures State() == Initial(locales, hasMissingLanguages)
    {
      this.locales := locales;
      this.pages := map[];
      this.slots := map[];
      this.errorExists := false;
      this.hasMissingLanguages := hasMissingLanguages;
    }

    method RemoveLocale(c: CultureCode)
      modifies this
      ensures State() == WithoutLocale(old(State()), c).(pages := old(pages))
    {
      locales := Filter(locales, (x: CultureCode) => x != c);
      slots := map k | k in slots && k.1 != c :: slots[k];
    }

    method RemovePage(c: CultureCode)
      modifies this
      ensures State() == old(State()).(pages := old(pages) - {c})
    {
      pages := pages - {c};
    }

    method SetPage(c: CultureCode, page: PageView)
      modifies this
      ensures State() == old(State()).(pages := old(pages)[c := page])
    {
      pages := pages[c := page];
    }

    /** `Module(guid).Module(culture)`: the slot at `key`, created empty
        when there is none yet. */
    method Slot(key: SlotKey) returns (slot: ModuleView)
      modifies this
      ensures slot == SlotAt(old(slots), key)
      ensures State() == old(State()).(slots := old(slots)[key := slot])
    {
      slot := SlotAt(slots, key);
      slots := slots[key := slot];
    }

    method SetSlot(key: SlotKey, slot: ModuleView)
      modifies this
      ensures State() == old(State()).(slots := old(slots)[key := slot])
    {
      slots := slots[key := slot];
    }

    /** `ErrorExists |= flag`. */
    method RaiseError(flag: bool)
      modifies this
      ensures State() == old(State()).(errorExists := old(errorExists) || flag)
    {
      errorExists := errorExists || flag;
    }

    /** The body of the module loop for module `m` of page `t`. */
    method AddTabModule(p: Portal, t: Tab, m: Module)
      modifies this
      ensures State() == AddModule(p, t, m, old(State()))
    {
      var guid := if m.defaultLanguageGuid == NullGuid then m.uniqueId else m.defaultLanguageGuid;
      var key := (guid, t.cultureCode);
      assert key == SlotKeyOf(t, m);
      ghost var before := State();
      var dnnModule := Slot(key);
      ghost var found := dnnModule;
      assert found == SlotAt(before.slots, key);
      if dnnModule.tabModuleId > 0 {
        SetSlot(key, dnnModule.(errorDuplicateModule := true));
        RaiseError(true);
        assert slots == before.slots[key := PlacedSlot(p, t, m, found)];
        assert errorExists == (before.errorExists || RaisesError(t, m, found));
        return;
      }
      dnnModule := FillSlot(p, t, m, dnnModule);
      SetSlot(key, dnnModule);
      RaiseError(dnnModule.errorDefaultOnOtherTab || dnnModule.errorCultureOfModuleNotCultureOfTab);
      assert slots == before.slots[key := PlacedSlot(p, t, m, found)];
      assert errorExists == (before.errorExists || RaisesError(t, m, found));
    }

    /** The body of the page loop for a viewable page `t`: its row, then its
        modules. `Some` is the exception the row throws. */
    method AddPage(p: Portal, allPages: seq<Tab>, t: Tab) returns (err: Option<ProjectionError>)
      modifies this
      ensures ProjectPage(p, allPages, t, old(State())) == if err.None? then Ok(State()) else Err(err.value)
    {
      var path := PagePath(t.tabPath);
      if path.None? {
        return Some(PathWithoutSeparator(t.tabId));
      }
      var position := ComputePosition(allPages, t);
      if position.Err? {
        return Some(PositionFailed(position.error));
      }
      SetPage(t.cultureCode, PageView(t.tabId, t.tabName, t.title, t.description, path.value,
                                      HasChildren(p.portalTabs, t.tabId), p.canAdminPage(t), p.canViewPage(t),
                                      position.value, t.defaultLanguageGuid, t.isTranslated, p.isTabPublished(t)));
      var modules := p.tabModules(t.tabId);
      ghost var start := State();
      var j := 0;
      while j < |modules|
        invariant 0 <= j <= |modules|
        invariant AddModules(p, t, modules, start) == AddModules(p, t, modules[j..], State())
      {
        assert modules[j..][1..] == modules[j + 1..];
        AddTabModule(p, t, modules[j]);
        j := j + 1;
      }
      return None;
    }
  }

  lemma PagesLoopStep(p: Portal, allPages: seq<Tab>, pages: seq<Tab>, i: nat, st: ViewState)
    requires i < |pages| && p.canViewPage(pages[i])
    ensures ProjectPages(p, allPages, pages[i..], st)
         == match ProjectPage(p, allPages, pages[i], st)
            case Err(e) => Err(e)
            case Ok(next) => ProjectPages(p, allPages, pages[i + 1..], next)
  {
    assert pages[i..][1..] == pages[i + 1..];
  }

  lemma PagesLoopStop(p: Portal, allPages: seq<Tab>, pages: seq<Tab>, i: nat, st: ViewState)
    requires i < |pages| && !p.canViewPage(pages[i])
    ensures ProjectPages(p, allPages, pages[i..], st) == Ok(DropPage(st, pages[i].cultureCode))
  {
  }

  lemma PagesLoopDone(p: Portal, allPages: seq<Tab>, pages: seq<Tab>, st: ViewState)
    ensures ProjectPages(p, allPages, pages[|pages|..], st) == Ok(st)
  {
  }

  /** `GetNonLocalizedPages(tabId)`, as the builder runs it. */
  method GetNonLocalizedPages(p: Portal, tabId: int) returns (r: Result<ViewState, ProjectionError>)
    ensures r == GetNonLocalizedPagesSpec(p, tabId)
  {
    var currentTab := GetTabById(p.getTab, tabId);
    if currentTab.None? {
      return Err(TabNotFound(tabId));
    }
    var uniqueId := if currentTab.value.defaultLanguageGuid != NullGuid
                    then currentTab.value.defaultLanguageGuid else currentTab.value.uniqueId;
    var allPages := AllPages(p.portalTabs, p.adminTabId);
    var localizedPages := LocalizedPages(allPages, uniqueId);
    var locales := LocaleList(localizedPages, currentTab.value, Sources(p));
    var dnnPages := new PagesView(locales, p.hasMissingLanguages(tabId));
    var viewableLocalizedPages := ViewablePages(localizedPages, locales);
    ghost var start := dnnPages.State();
    var i := 0;
    while i < |viewableLocalizedPages|
      invariant 0 <= i <= |viewableLocalizedPages|
      invariant ProjectPages(p, allPages, viewableLocalizedPages, start)
             == ProjectPages(p, allPages, viewableLocalizedPages[i..], dnnPages.State())
    {
      var tabInfo := viewableLocalizedPages[i];
      if !p.canViewPage(tabInfo) {
        PagesLoopStop(p, allPages, viewableLocalizedPages, i, dnnPages.State());
        dnnPages.RemoveLocale(tabInfo.cultureCode);
        dnnPages.RemovePage(tabInfo.cultureCode);
        break;
      }
      PagesLoopStep(p, allPages, viewableLocalizedPages, i, dnnPages.State());
      var err := dnnPages.AddPage(p, allPages, tabInfo);
      if err.Some? {
        return Err(err.value);
      }
      i := i + 1;
    }
    PagesLoopDone(p, allPages, viewableLocalizedPages, dnnPages.State());
    r := Ok(dnnPages.State());
  }
}
