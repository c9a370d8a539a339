/** The permission decision taken before a page's details are saved. */
module PageDetails {
  import opened Wrappers
  import opened Entities

  /** The fields of a `PageSettings` request the decision reads. */
  datatype PageSettings = PageSettings(
    tabId: int,
    parentId: Option<int>,
    templateId: int,
    templateTabId: int)

  /** The security service, its checks left uninterpreted. */
  datatype SecurityService = SecurityService(
    isPageAdminUser: bool,
    canAddPage: Option<Tab> -> bool,
    canExportPage: Option<Tab> -> bool,
    canManagePage: Option<Tab> -> bool,
    canCopyPage: Option<Tab> -> bool)

  /** `ParentId ?? 0`. */
  function ParentOrZero(ps: PageSettings): (r: int)
  {
    match ps.parentId
    case None => 0
    case Some(p) => p
  }

  /** The rule, as written: a page admin may always save; anyone else needs
      one of the four kinds of request together with its own permission. */
  predicate CanSavePageDetails(ps: PageSettings, sec: SecurityService, getTab: int -> Option<Tab>)
  {
    var tabId := ps.tabId;
    var parentId := ParentOrZero(ps);
    var creatingPage := parentId > 0 && tabId <= 0 && ps.templateId <= 0;
    var creatingTemplate := tabId <= 0 && ps.templateId > 0;
    var updatingPage := tabId > 0;
    var duplicatingPage := tabId <= 0 && ps.templateTabId > 0;
    sec.isPageAdminUser
    || (creatingPage && sec.canAddPage(GetTabById(getTab, parentId)))
    || (creatingTemplate && sec.canExportPage(GetTabById(getTab, ps.templateId)))
    || (updatingPage && sec.canManagePage(GetTabById(getTab, tabId)))
    || (duplicatingPage && sec.canCopyPage(GetTabById(getTab, ps.templateTabId)))
  }

  /** The four kinds of save request. */
  datatype SaveKind = CreatingPage | CreatingTemplate | UpdatingPage | DuplicatingPage

  /** Which kinds a request is; a request can be of several kinds at once. */
  predicate IsKind(ps: PageSettings, k: SaveKind)
  {
    match k
    case CreatingPage => ps.parentId.Some? && ps.parentId.value > 0 && ps.tabId <= 0 && ps.templateId <= 0
    case CreatingTemplate => ps.tabId <= 0 && ps.templateId > 0
    case UpdatingPage => ps.tabId > 0
    case DuplicatingPage => ps.tabId <= 0 && ps.templateTabId > 0
  }

  /** The id of the page whose permission a kind of request is checked on. */
  function Subject(ps: PageSettings, k: SaveKind): (r: int)
  {
    match k
    case CreatingPage => ParentOrZero(ps)
    case CreatingTemplate => ps.templateId
    case UpdatingPage => ps.tabId
    case DuplicatingPage => ps.templateTabId
  }

  /** The permission each kind of request needs, on its subject page. */
  predicate Permits(sec: SecurityService, getTab: int -> Option<Tab>, ps: PageSettings, k: SaveKind)
  {
    var subject := GetTabById(getTab, Subject(ps, k));
    match k
    case CreatingPage => sec.canAddPage(subject)
    case CreatingTemplate => sec.canExportPage(subject)
    case UpdatingPage => sec.canManagePage(subject)
    case DuplicatingPage => sec.canCopyPage(subject)
  }

  /** The decision is exactly: page admin, or some kind of request the user
      holds that kind's permission for. */
  lemma CanSaveIffPermittedKind(ps: PageSettings, sec: SecurityService, getTab: int -> Option<Tab>)
    ensures CanSavePageDetails(ps, sec, getTab)
        <==> sec.isPageAdminUser || exists k :: IsKind(ps, k) && Permits(sec, getTab, ps, k)
  {
    if !sec.isPageAdminUser && CanSavePageDetails(ps, sec, getTab) {
      var parentId := ParentOrZero(ps);
      if parentId > 0 && ps.tabId <= 0 && ps.templateId <= 0 && sec.canAddPage(GetTabById(getTab, parentId)) {
        assert IsKind(ps, CreatingPage) && Permits(sec, getTab, ps, CreatingPage);
      } else if ps.tabId <= 0 && ps.templateId > 0 && sec.canExportPage(GetTabById(getTab, ps.templateId)) {
        assert IsKind(ps, CreatingTemplate) && Permits(sec, getTab, ps, CreatingTemplate);
      } else if ps.tabId > 0 && sec.canManagePage(GetTabById(getTab, ps.tabId)) {
        assert IsKind(ps, UpdatingPage) && Permits(sec, getTab, ps, UpdatingPage);
      } else {
        assert IsKind(ps, DuplicatingPage) && Permits(sec, getTab, ps, DuplicatingPage);
      }
    }
  }

  /** A page admin may always save. */
  lemma PageAdminMaySave(ps: PageSettings, sec: SecurityService, getTab: int -> Option<Tab>)
    requires sec.isPageAdminUser
    ensures CanSavePageDetails(ps, sec, getTab)
  {
  }

  /** A request without a parent is never "creating a page", whatever else it holds. */
  lemma NoParentNeverCreatesPage(ps: PageSettings)
    requires ps.parentId == None
    ensures !IsKind(ps, CreatingPage)
  {
  }

  /** Updating excludes every other kind; creating a page excludes creating a
      template. Duplicating may coincide with either kind of creation. */
  lemma KindsThatExcludeEachOther(ps: PageSettings)
    ensures IsKind(ps, UpdatingPage) ==>
              !IsKind(ps, CreatingPage) && !IsKind(ps, CreatingTemplate) && !IsKind(ps, DuplicatingPage)
    ensures !(IsKind(ps, CreatingPage) && IsKind(ps, CreatingTemplate))
  {
  }

  /** A non-admin whose request is of no kind (no positive tab, parent,
      template or template tab id) is refused, whatever the store holds. */
  lemma NoKindRefused(ps: PageSettings, sec: SecurityService, getTab: int -> Option<Tab>)
    requires !sec.isPageAdminUser
    requires forall k :: !IsKind(ps, k)
    ensures !CanSavePageDetails(ps, sec, getTab)
  {
    assert !IsKind(ps, CreatingPage) && !IsKind(ps, CreatingTemplate);
    assert !IsKind(ps, UpdatingPage) && !IsKind(ps, DuplicatingPage);
  }

  /** The one permission that is consulted for an update: managing the page
      itself; a failing check on another kind cannot refuse it and a passing
      one cannot allow it. */
  lemma UpdateDecidedByManagePermission(ps: PageSettings, sec: SecurityService, getTab: int -> Option<Tab>)
    requires !sec.isPageAdminUser && ps.tabId > 0
    ensures CanSavePageDetails(ps, sec, getTab) <==> sec.canManagePage(getTab(ps.tabId))
  {
  }
}
