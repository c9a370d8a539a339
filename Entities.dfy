/** The records the localization views are built from: tabs (pages) and tab
    modules as the portal's store hands them out, with just the properties
    the controller reads. */
module Entities {
  import opened Wrappers

  /** A `System.Guid`; `NullGuid` is `Guid.Empty`, which also sorts first. */
  type Guid = nat

  const NullGuid: Guid := 0

  /** `Null.NullInteger`, the "no id" value of integer properties such as a
      root tab's `ParentId`. */
  const NullInteger: int := -1

  /** A `CultureCode` string, which may be null; `Code("")` is the
      locale-neutral culture. */
  datatype CultureCode = NullCode | Code(text: string)

  /** A `TabInfo`. */
  datatype Tab = Tab(
    tabId: int,
    parentId: int,
    uniqueId: Guid,
    defaultLanguageGuid: Guid,
    cultureCode: CultureCode,
    tabName: string,
    title: string,
    description: string,
    tabPath: string,
    tabOrder: int,
    isDeleted: bool,
    isTranslated: bool,
    isDefaultLanguage: bool)

  /** A `ModuleInfo` (a module placed on a tab). `defaultLanguageModuleVersion`
      is the `LocalizedVersionGuid` of its `DefaultLanguageModule`, or `None`
      when that property is null; the three `parentTab` fields are the
      properties of its `ParentTab` the controller reads. */
  datatype Module = Module(
    tabModuleId: int,
    moduleId: int,
    tabId: int,
    uniqueId: Guid,
    defaultLanguageGuid: Guid,
    cultureCode: CultureCode,
    moduleTitle: string,
    isDeleted: bool,
    isTranslated: bool,
    isLocalized: bool,
    localizedVersionGuid: Guid,
    defaultLanguageModuleVersion: Option<Guid>,
    parentTabUniqueId: Guid,
    parentTabDefaultLanguageGuid: Guid,
    parentTabName: string)

  /** `GetTabById`: ids that are not positive never reach the store. */
  function GetTabById(getTab: int -> Option<Tab>, pageId: int): (r: Option<Tab>)
    ensures pageId <= 0 ==> r == None
    ensures pageId > 0 ==> r == getTab(pageId)
  {
    if pageId <= 0 then None else getTab(pageId)
  }
}
