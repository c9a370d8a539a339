# Localization view of the DNN Persona Bar pages service

This project models the part of the Persona Bar pages controller
(`PagesController`) that reads and saves a page's **localization view**,
plus the rule that decides who may save page details:

- `CanSavePageDetails`: a page admin may always save. Anyone else must send
  one of four kinds of request (create a page, create a template, update a
  page, duplicate a page) and hold that kind's permission on the page the
  request names.
- `GetNonLocalizedPages(tabId)` builds the view (`DnnPagesDto`):
  - the family of the page: its default-language page and that page's
    localized variants, ordered by `DefaultLanguageGuid`;
  - the ordered list of locales, default language first, keeping only the
    locales of localized tabs the user may view;
  - one page row per viewable family member, with its path and its
    position label. The label is a dotted list of numbers. Each number is
    the page's own index + 1 in the child list of one of its ancestors,
    filtered by that ancestor's id and the page's culture. So a child of a
    root page gets "k.k", and the segment for an ancestor whose list does
    not hold the page is 0;
  - one module slot per (module family, culture), with the
    duplicate-module, default-on-other-tab and culture-mismatch error flags.

  The page loop stops at the first page the user may not view; that page's
  culture is removed from the view.
- `SaveNonLocalizedPages(view)` writes the view back in five passes:
  1. page names, titles and descriptions;
  2. module titles, localization and translation status;
  3. page translation status, the publish queue and the per-tab override
     map;
  4. publishing;
  5. the tab-translated status, which goes false at the first page with an
     untranslated module and stays false for every later page.

  The store calls the save makes are recorded, in order, in a log.

Modules:

| module | contents |
|---|---|
| `Wrappers` | `Option` and `Result` |
| `Sequences` | LINQ's `Where`, `Count`, `IndexOf` and the stable `OrderBy` |
| `Text` | integer printing, `Join`/`Split` on ".", `LastIndexOf("//")`, `Replace("//", "")` |
| `Entities` | `TabInfo` and `ModuleInfo`, the null id and null guid, `GetTabById` |
| `PageDetails` | the save-permission rule |
| `LocaleSet` | the family and the locale list |
| `Position` | the position label: value-level definition and the loop as written |
| `Projection` | the view as a value (`ViewState`), the builder as a class (`PagesView`) and the method `GetNonLocalizedPages` |
| `Reconcile` | one function per save pass, one method per loop, and the method `SaveNonLocalizedPages` |

Every method is proved equal to its specification function. The properties
are proved about those functions.

Submitting the view unchanged is not a no-op: every published page not in
the default language is queued (`PagesController.cs:972-975`), and then all
its modules and the page itself are marked translated and the page is
published again (`PagesController.cs:984-997`).
`Reconcile.UnchangedPublishedPageIsRepublished` gives a localized page
with one localized module, both stored as untranslated and sent back unchanged, for which the
save issues those three calls, so both stored flags would flip.

## Model

| member | source | states |
|---|---|---|
| PageDetails.CanSaveIffPermittedKind | src/Modules/Content/Dnn.PersonaBar.Pages/Services/PagesController.cs:1105-1121 | saving is allowed exactly when the user is a page admin or the request is of some kind whose permission the user holds on that kind's page (`&&` binding tighter than `\|\|`) |
| PageDetails.PageAdminMaySave | src/Modules/Content/Dnn.PersonaBar.Pages/Services/PagesController.cs:1114-1115 | a page admin may always save |
| PageDetails.NoParentNeverCreatesPage | src/Modules/Content/Dnn.PersonaBar.Pages/Services/PagesController.cs:1108-1109 | a missing `ParentId` counts as 0, so such a request is never "creating a page" |
| PageDetails.KindsThatExcludeEachOther | src/Modules/Content/Dnn.PersonaBar.Pages/Services/PagesController.cs:1107-1112 | updating excludes every other kind; creating a page excludes creating a template |
| PageDetails.NoKindRefused | src/Modules/Content/Dnn.PersonaBar.Pages/Services/PagesController.cs:1107-1121 | a non-admin whose request is of no kind is refused |
| PageDetails.UpdateDecidedByManagePermission | src/Modules/Content/Dnn.PersonaBar.Pages/Services/PagesController.cs:1111-1118 | for a non-admin update, the decision is exactly the manage-page permission on the tab itself |
| Sequences.Filter | src/Modules/Content/Dnn.PersonaBar.Pages/Services/PagesController.cs:675-681 | `Where` keeps exactly the elements that satisfy the predicate and drops none of them |
| Sequences.FilterAppend | src/Modules/Content/Dnn.PersonaBar.Pages/Services/PagesController.cs:675-681 | `Where` keeps the input order: filtering a concatenation is the concatenation of the filtered parts |
| Sequences.IndexOf | src/Modules/Content/Dnn.PersonaBar.Pages/Services/PagesController.cs:774 | `IndexOf` gives -1 exactly when the element is absent, and otherwise the index of its first occurrence |
| Sequences.SortBy | src/Modules/Content/Dnn.PersonaBar.Pages/Services/PagesController.cs:681 | `OrderBy` returns the same elements, as a multiset, and the same length |
| Sequences.SortByIsSortedPermutation | src/Modules/Content/Dnn.PersonaBar.Pages/Services/PagesController.cs:681 | `OrderBy` returns a sequence sorted by its key, and a permutation of its input |
| Sequences.SortByIsStable | src/Modules/Content/Dnn.PersonaBar.Pages/Services/PagesController.cs:773 | `OrderBy` is stable: elements with the same key keep their input order |
| Sequences.SortByMembership | src/Modules/Content/Dnn.PersonaBar.Pages/Services/PagesController.cs:681 | sorting neither adds nor drops an element |
| Text.NatToString | src/Modules/Content/Dnn.PersonaBar.Pages/Services/PagesController.cs:774 | a printed number is a non-empty string of digits with no dot; it is one digit exactly for numbers below 10, and starts with '0' only for 0 itself, so there are no leading zeros |
| Text.NatToStringRoundTrip | src/Modules/Content/Dnn.PersonaBar.Pages/Services/PagesController.cs:774 | reading back a printed number gives the number |
| Text.NatToStringInjective | src/Modules/Content/Dnn.PersonaBar.Pages/Services/PagesController.cs:781 | different numbers print differently, so a label determines its segments |
| Text.SplitJoinDots | src/Modules/Content/Dnn.PersonaBar.Pages/Services/PagesController.cs:781 | parts joined with "." split back into the same parts when no part holds a dot |
| Text.LastIndexOfDoubleSlash | src/Modules/Content/Dnn.PersonaBar.Pages/Services/PagesController.cs:765 | the result is the greatest start of "//", or -1 exactly when the string has none |
| Text.RemoveDoubleSlashesLeavesNone | src/Modules/Content/Dnn.PersonaBar.Pages/Services/PagesController.cs:765 | the left-to-right `Replace("//", "")` leaves no "//" behind |
| Text.RemoveDoubleSlashesKeepsOthers | src/Modules/Content/Dnn.PersonaBar.Pages/Services/PagesController.cs:765 | `Replace("//", "")` removes slashes only: every other character is kept, in order |
| Text.RemoveDoubleSlashesIdentity | src/Modules/Content/Dnn.PersonaBar.Pages/Services/PagesController.cs:765 | `Replace` changes nothing in a string without "//" |
| Text.RemoveDoubleSlashesIdempotent | src/Modules/Content/Dnn.PersonaBar.Pages/Services/PagesController.cs:765 | applying `Replace` twice is the same as applying it once |
| LocaleSet.FamilyMembers | src/Modules/Content/Dnn.PersonaBar.Pages/Services/PagesController.cs:670-681 | a tab is in the family exactly when it is a live tab, is not the admin tab or one of its children, and is linked to the canonical unique id by its own id or its default-language link; the family is sorted by that link |
| LocaleSet.LocaleList | src/Modules/Content/Dnn.PersonaBar.Pages/Services/PagesController.cs:687-740 | the locale list is never empty |
| LocaleSet.NeutralLocaleList | src/Modules/Content/Dnn.PersonaBar.Pages/Services/PagesController.cs:690-700 | with no portal locales, or a single locale-neutral family member, the list is the neutral culture alone |
| LocaleSet.SingleForeignLocaleList | src/Modules/Content/Dnn.PersonaBar.Pages/Services/PagesController.cs:701-706 | a single family member in a non-default culture gives exactly that culture |
| LocaleSet.DefaultLanguageFirst | src/Modules/Content/Dnn.PersonaBar.Pages/Services/PagesController.cs:707-739 | otherwise the default language comes first, and each later locale is the culture of a localized tab the user may view, in dictionary order |
| LocaleSet.ViewablePages | src/Modules/Content/Dnn.PersonaBar.Pages/Services/PagesController.cs:748-749 | a family member is kept exactly when its culture is one of the locales |
| Position.SingleById | src/Modules/Content/Dnn.PersonaBar.Pages/Services/PagesController.cs:778 | `Single` finds a tab exactly when one tab has the id, and the tab it returns has that id |
| Position.Ancestry | src/Modules/Content/Dnn.PersonaBar.Pages/Services/PagesController.cs:775-783 | every id the loop visits is positive |
| Position.ComputePosition | src/Modules/Content/Dnn.PersonaBar.Pages/Services/PagesController.cs:773-783 | the loop as written computes `PositionLabel`, or fails where `Single` throws or where the parent chain cycles |
| Position.RootTabHasOneSegment | src/Modules/Content/Dnn.PersonaBar.Pages/Services/PagesController.cs:773-776 | a tab whose parent id is not positive gets a one-segment label: its index + 1 among its siblings |
| Position.SegmentPerAncestor | src/Modules/Content/Dnn.PersonaBar.Pages/Services/PagesController.cs:776-783 | there is one segment per visited ancestor id plus the page's own, and the segment for ancestor `a` is the index + 1 of the page itself in `a`'s filtered child list |
| Position.ChildOfRootRepeatsIndex | src/Modules/Content/Dnn.PersonaBar.Pages/Services/PagesController.cs:773-781 | a page whose parent is a root tab gets "k.k": the loop's first list is the page's own sibling list again |
| Position.SiblingListMembers | src/Modules/Content/Dnn.PersonaBar.Pages/Services/PagesController.cs:773 | a tab is in the filtered list exactly when its culture is null, or when its parent and culture both match |
| Position.ForeignListGivesZero | src/Modules/Content/Dnn.PersonaBar.Pages/Services/PagesController.cs:780-781 | a page with a culture is missing from any list under another parent, so that segment is 0 |
| Position.OwnSegmentPositive | src/Modules/Content/Dnn.PersonaBar.Pages/Services/PagesController.cs:773-774 | a page that belongs to the tab list is found in its own parent's list, so its last segment is at least 1 |
| Position.LabelReadsBack | src/Modules/Content/Dnn.PersonaBar.Pages/Services/PagesController.cs:774-781 | splitting the label at its dots gives the printed segments, and each reads back as its number |
| Projection.WithoutLocale | src/Modules/Content/Dnn.PersonaBar.Pages/Services/PagesController.cs:757 | after `RemoveLocale(c)`, the locales are exactly the old ones other than `c` |
| Projection.PagePath | src/Modules/Content/Dnn.PersonaBar.Pages/Services/PagesController.cs:765 | the path fails exactly when the tab path has no "//"; otherwise it holds no "//", is no longer than the tab path, and holds exactly the non-slash characters of the tab path before its last "//", in order |
| Projection.HasChildren | src/Modules/Content/Dnn.PersonaBar.Pages/Services/PagesController.cs:766 | `HasChildren` holds exactly when some tab of the portal has the page as its parent |
| Projection.FillSlot | src/Modules/Content/Dnn.PersonaBar.Pages/Services/PagesController.cs:805-833 | the field assignments on a free slot give `FillModule` |
| Projection.ProjectPage | src/Modules/Content/Dnn.PersonaBar.Pages/Services/PagesController.cs:761-787 | projecting a page fails exactly when its tab path has no "//" or its position label fails |
| Projection.ModulesKeepPagesAndLocales | src/Modules/Content/Dnn.PersonaBar.Pages/Services/PagesController.cs:790-836 | the module loop changes neither the locales, nor the pages, nor the missing-languages flag |
| Projection.OccupantStep | src/Modules/Content/Dnn.PersonaBar.Pages/Services/PagesController.cs:798-803 | one module placed leaves an occupied slot with its occupant, at most duplicate-flagged |
| Projection.FirstOccupantStays | src/Modules/Content/Dnn.PersonaBar.Pages/Services/PagesController.cs:798-803 | an occupied slot keeps its first module through the rest of the loop |
| Projection.DuplicateFlagged | src/Modules/Content/Dnn.PersonaBar.Pages/Services/PagesController.cs:794-802 | a later module whose family and culture hit an occupied slot marks that slot as a duplicate and sets `ErrorExists` |
| Projection.ErrorExistsStickyInModules | src/Modules/Content/Dnn.PersonaBar.Pages/Services/PagesController.cs:801-835 | `ErrorExists` is never reset by the module loop |
| Projection.FreeSlotFilled | src/Modules/Content/Dnn.PersonaBar.Pages/Services/PagesController.cs:805-835 | a free slot gets the module, and `ErrorExists` rises exactly when one of the two mismatch flags is set |
| Projection.PageRowDescribesTab | src/Modules/Content/Dnn.PersonaBar.Pages/Services/PagesController.cs:761-787 | the page row carries the tab's id, path, position and `HasChildren`; only that culture's page is added or replaced, and every other culture's row keeps its value; the locales and the missing-languages flag are kept; `ErrorExists` is never reset |
| Projection.ErrorExistsSticky | src/Modules/Content/Dnn.PersonaBar.Pages/Services/PagesController.cs:751-837 | `ErrorExists` is never reset by the page loop |
| Projection.EarlyStop | src/Modules/Content/Dnn.PersonaBar.Pages/Services/PagesController.cs:755-760 | the first page the user may not view ends the loop: the pages after it change nothing, and its culture leaves both the locales and the pages |
| Projection.LocalesOnlyShrink | src/Modules/Content/Dnn.PersonaBar.Pages/Services/PagesController.cs:751-760 | the page loop only removes locales, and removes none when every page is viewable |
| Projection.PagesWithinLocales | src/Modules/Content/Dnn.PersonaBar.Pages/Services/PagesController.cs:748-760 | every page row kept is for one of the view's locales |
| Projection.ViewShape | src/Modules/Content/Dnn.PersonaBar.Pages/Services/PagesController.cs:665-840 | the builder fails with "tab not found" exactly when `GetTabById` finds nothing; a built view has page rows only for its locales, locales drawn from the locale list, and the store's missing-languages flag |
| Projection.ProjectErrorsOnlyFromPages | src/Modules/Content/Dnn.PersonaBar.Pages/Services/PagesController.cs:765-783 | the page loop fails only with a path error or a position error, never with "tab not found" |
| Projection.MissingLanguagesKept | src/Modules/Content/Dnn.PersonaBar.Pages/Services/PagesController.cs:744 | the page loop keeps `HasMissingLanguages` |
| Projection.PagesView.constructor | src/Modules/Content/Dnn.PersonaBar.Pages/Services/PagesController.cs:742-745 | the new view is `Initial(locales, hasMissingLanguages)` |
| Projection.PagesView.RemoveLocale | src/Modules/Content/Dnn.PersonaBar.Pages/Services/PagesController.cs:757 | the culture leaves the locales and the slots; nothing else changes |
| Projection.PagesView.RemovePage | src/Modules/Content/Dnn.PersonaBar.Pages/Services/PagesController.cs:758 | the culture's page leaves the pages; nothing else changes |
| Projection.PagesView.SetPage | src/Modules/Content/Dnn.PersonaBar.Pages/Services/PagesController.cs:754-787 | the culture's page is replaced; nothing else changes |
| Projection.PagesView.Slot | src/Modules/Content/Dnn.PersonaBar.Pages/Services/PagesController.cs:794-795 | find-or-create: the existing slot, or a new empty one recorded at that key |
| Projection.PagesView.SetSlot | src/Modules/Content/Dnn.PersonaBar.Pages/Services/PagesController.cs:797-833 | the slot at the key is replaced; nothing else changes |
| Projection.PagesView.RaiseError | src/Modules/Content/Dnn.PersonaBar.Pages/Services/PagesController.cs:801-835 | `ErrorExists` is or-ed with the flag |
| Projection.PagesView.AddTabModule | src/Modules/Content/Dnn.PersonaBar.Pages/Services/PagesController.cs:790-836 | one pass of the module loop gives `AddModule` of the old view |
| Projection.PagesView.AddPage | src/Modules/Content/Dnn.PersonaBar.Pages/Services/PagesController.cs:761-836 | one pass over a viewable page gives `ProjectPage` of the old view, with the same failure |
| Projection.GetNonLocalizedPages | src/Modules/Content/Dnn.PersonaBar.Pages/Services/PagesController.cs:665-840 | the builder as written returns `GetNonLocalizedPagesSpec`, so every property above holds of its result |
| Reconcile.PageUpdateRule | src/Modules/Content/Dnn.PersonaBar.Pages/Services/PagesController.cs:845-858 | pass 1 writes a tab exactly when some row for a found tab changes its name, title or description, and writes it with the row's three values |
| Reconcile.UneditedRowsNotWritten | src/Modules/Content/Dnn.PersonaBar.Pages/Services/PagesController.cs:865-895 | module rows that change no title, no localization and no translation status, and request no copy, make no call |
| Reconcile.UneditedViewNotWritten | src/Modules/Content/Dnn.PersonaBar.Pages/Services/PagesController.cs:845-895 | with such rows, and with no page names, titles or descriptions changed, passes 1 and 2 make no call |
| Reconcile.OverridesUnusedInModulePass | src/Modules/Content/Dnn.PersonaBar.Pages/Services/PagesController.cs:861-894 | the override map is still empty in pass 2, so a module's status is written exactly when the row changes it; an override set to true would suppress the write |
| Reconcile.TranslateFailure | src/Modules/Content/Dnn.PersonaBar.Pages/Services/PagesController.cs:946-980 | pass 3 fails exactly when a row for a found tab repeats a `TabId` already present in the override map |
| Reconcile.SaveFailsIffTabIdRepeats | src/Modules/Content/Dnn.PersonaBar.Pages/Services/PagesController.cs:978 | the save throws exactly when two page rows share a `TabId` and the later one's tab is found |
| Reconcile.PublishQueue | src/Modules/Content/Dnn.PersonaBar.Pages/Services/PagesController.cs:952-976 | a tab is queued for publishing exactly when some row for it is marked published and the tab is not in the default language |
| Reconcile.PublishOrder | src/Modules/Content/Dnn.PersonaBar.Pages/Services/PagesController.cs:984-997 | exactly the queued tabs are published, each right after it is marked translated, and each after all its modules are marked translated |
| Reconcile.PublishMarksModules | src/Modules/Content/Dnn.PersonaBar.Pages/Services/PagesController.cs:984-990 | before each `PublishTab`, every module of that tab has been marked translated |
| Reconcile.StatusOffCallsNothing | src/Modules/Content/Dnn.PersonaBar.Pages/Services/PagesController.cs:1011-1014 | once the tab-translated flag is false, pass 5 makes no call |
| Reconcile.StatusFlagSticky | src/Modules/Content/Dnn.PersonaBar.Pages/Services/PagesController.cs:1000-1016 | the flag is never reset: from the first found tab with an untranslated module on, later rows cause no call |
| Reconcile.StatusCallsExactly | src/Modules/Content/Dnn.PersonaBar.Pages/Services/PagesController.cs:1000-1016 | pass 5 marks tab `x` translated exactly when some row's tab is `x`, `x` is not translated yet, and no found tab up to that row has an untranslated module |
| Reconcile.UnchangedPublishedPageIsRepublished | src/Modules/Content/Dnn.PersonaBar.Pages/Services/PagesController.cs:972-997 | a published localized page of another language and its localized module, both untranslated and submitted exactly as read, are still marked translated, and the page is published again |
| Reconcile.SavePages | src/Modules/Content/Dnn.PersonaBar.Pages/Services/PagesController.cs:845-858 | the page loop appends exactly pass 1's calls to the log |
| Reconcile.SaveModule | src/Modules/Content/Dnn.PersonaBar.Pages/Services/PagesController.cs:869-895 | one module edit appends exactly its pass-2 calls |
| Reconcile.SaveRow | src/Modules/Content/Dnn.PersonaBar.Pages/Services/PagesController.cs:867-943 | the inner module loop appends exactly the row's calls |
| Reconcile.SaveModules | src/Modules/Content/Dnn.PersonaBar.Pages/Services/PagesController.cs:865-944 | the module loop appends exactly pass 2's calls |
| Reconcile.MarkModulesTranslated | src/Modules/Content/Dnn.PersonaBar.Pages/Services/PagesController.cs:965-990 | the loop appends one translated-status call per module |
| Reconcile.TranslatePage | src/Modules/Content/Dnn.PersonaBar.Pages/Services/PagesController.cs:951-976 | for a found tab, the body appends exactly the row's pass-3 calls, queues the tab exactly when it publishes, and computes the override |
| Reconcile.SaveTranslation | src/Modules/Content/Dnn.PersonaBar.Pages/Services/PagesController.cs:946-980 | the third loop gives the calls, queue, overrides and failure of `TranslatePass` |
| Reconcile.PublishTabs | src/Modules/Content/Dnn.PersonaBar.Pages/Services/PagesController.cs:984-997 | the publishing loop appends exactly pass 4's calls |
| Reconcile.SaveTranslatedStatus | src/Modules/Content/Dnn.PersonaBar.Pages/Services/PagesController.cs:1000-1016 | the status loop appends exactly pass 5's calls |
| Reconcile.SaveNonLocalizedPages | src/Modules/Content/Dnn.PersonaBar.Pages/Services/PagesController.cs:842-1017 | the save as written gives `SaveSpec`'s log and failure, so every pass property above holds of it |

## Left out

- HTTP endpoints, request binding, themes, notifications and page versioning are not part of this model; only the three private operations above are.
- The copy-module branch (lines 896-942) is recorded only as a `CopyModule` call for a slot with no module that asks for a copy. What it copies, and from where, is not modelled.
- `PageUrl`, `LocalResourceFile` and `SetModuleInfoHelp` are not modelled: they are presentation data that no decision reads.
- The DTO classes (`DnnPagesDto`, `DnnModulesDto`) are not among the source files. `Page(culture)` and `Module(guid).Module(culture)` are modelled as find-or-create maps, and `RemoveLocale` as dropping the culture from the locale list and its module slots.
- Store writes have no effect in the model. Each save pass reads its own snapshot of the store (`Stores`), which covers any effect a write has on a later pass, but within a pass every row is compared with the records as they stood before the pass. The source re-reads the store for each row (`GetTab(page.TabId, PortalId, true)` at lines 847, 948 and 1003, `GetTabModule` at line 869), so a second row for the same tab or module sees the first row's write.
- Reconcile.PageCalls: for two identical rows of one tab whose name differs from the stored one, the model logs two `UpdateTab` calls where the source sends one.
- Reconcile.TranslateStep: for a repeated `IsTranslated = true` row of an untranslated tab, the model logs the status and module calls twice before the failure of `Dictionary.Add`; the source's second read sees the tab translated and issues them once. `Reconcile.TranslateFailure` and `Reconcile.SaveFailsIffTabIdRepeats` are unaffected: the failure comes from the override map, not from the store.
- Reconcile.StatusCalls: a repeated row of a tab that pass 5 marks translated logs a second `UpdateTabTranslationStatus` call; the source's second read sees the tab translated and makes none.
- A tab's `ChildModules` (line 1006) is modelled by the same module list as `GetTabModules`.
- Position.ComputePosition: the source loops forever when the parent chain cycles. The model stops after one step more than there are tabs and reports a cycle.
- `Tab.isDefaultLanguage` and `Tab.isTranslated` are stored fields of the tab record, as the store hands them out; the model does not tie them to the guid links (`DefaultLanguageGuid`), so states where these disagree are not excluded.
- `List.IndexOf` (line 774) compares tabs by reference; `Sequences.IndexOf` and `Position.Segment` compare the records by value. The two agree while tab ids are unique in the portal's tab collection, which the store guarantees and the model does not state.
- Guids are natural numbers, with the empty guid as 0; `OrderBy(DefaultLanguageGuid)` therefore puts the empty guid first, as `Guid.CompareTo` does.
- `GetLocale(cultureCode)` is modelled by the culture code itself.
- Permission checks (`CanViewPage`, `CanAdminPage`, the module checks and the security service), `HasMissingLanguages`, `IsTabPublished` and the store lookups are parameters; their own logic is not modelled.
- The exceptions that `Substring`, `Single` and `Dictionary.Add` throw are results (`Err`, or a failure id), not exceptions; what the caller does with them is outside this model.
