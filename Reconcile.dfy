/** Saving the localization view (`SaveNonLocalizedPages`): five passes over
    the submitted view, each reading the store and issuing store calls. The
    store calls are recorded, in order, in a log; the model gives them no
    effect, so each pass reads its own snapshot of the store. */
module Reconcile {
  import opened Wrappers
  import opened Entities
  import opened Sequences

  /** A page row of the submitted view. */
  datatype PageEdit = PageEdit(
    tabId: int,
    tabName: string,
    title: string,
    description: string,
    isTranslated: bool,
    isPublished: bool)

  /** A module slot of the submitted view. */
  datatype ModuleEdit = ModuleEdit(
    tabModuleId: int,
    moduleTitle: string,
    isLocalized: bool,
    isTranslated: bool,
    copyModule: bool)

  /** The submitted view: its pages, and its module rows (one row of slots
      per module family). */
  datatype SaveRequest = SaveRequest(pages: seq<PageEdit>, modules: seq<seq<ModuleEdit>>)

  /** What the store answers during one pass: `GetTab`, `GetTabModule`, and
      the modules of a tab (`GetTabModules`, also standing for a tab's
      `ChildModules`). */
  datatype Store = Store(
    getTab: int -> Option<Tab>,
    getTabModule: int -> Option<Module>,
    tabModules: int -> seq<Module>)

  /** The store as each of the five passes reads it. */
  datatype Stores = Stores(pagePass: Store, modulePass: Store, translatePass: Store, publishPass: Store, statusPass: Store)

  /** A call the save makes into the tab and module stores. `CopyModule`
      records that the copy-module branch would run for that slot. */
  datatype StoreCall =
    | UpdateTab(tab: Tab)
    | UpdateModule(tabModule: Module)
    | LocalizeModule(tabModule: Module, locale: CultureCode)
    | DeLocalizeModule(tabModule: Module)
    | UpdateModuleTranslationStatus(tabModule: Module, translated: bool)
    | UpdateTabTranslationStatus(tab: Tab, translated: bool)
    | PublishTab(tab: Tab)
    | CopyModule(edit: ModuleEdit)

  // ---------------------------------------------------------------------
  // Pass 1: page names, titles and descriptions.

  predicate PageEdited(t: Tab, page: PageEdit)
  {
    t.tabName != page.tabName || t.title != page.title || t.description != page.description
  }

  function Edited(t: Tab, page: PageEdit): (r: Tab)
  {
    t.(tabName := page.tabName, title := page.title, description := page.description)
  }

  function PageCall(store: Store, page: PageEdit): (r: seq<StoreCall>)
  {
    match store.getTab(page.tabId)
    case None => []
    case Some(t) => if PageEdited(t, page) then [UpdateTab(Edited(t, page))] else []
  }

  function PageCalls(store: Store, pages: seq<PageEdit>): (r: seq<StoreCall>)
    decreases |pages|
  {
    if pages == [] then [] else PageCall(store, pages[0]) + PageCalls(store, pages[1..])
  }

  // ---------------------------------------------------------------------
  // Pass 2: module titles, localization and translation status.

  /** `moduleTranslateOverrides.TryGetValue(tabId, out v)`: `v`, or `false`
      when the key is missing. */
  function TryGetOverride(overrides: map<int, bool>, tabId: int): (r: bool)
  {
    if tabId in overrides then overrides[tabId] else false
  }

  function ModuleEditCalls(store: Store, overrides: map<int, bool>, edit: ModuleEdit): (r: seq<StoreCall>)
  {
    match store.getTabModule(edit.tabModuleId)
    case None => if edit.copyModule then [CopyModule(edit)] else []
    case Some(tm) =>
      var titled := tm.(moduleTitle := edit.moduleTitle);
      (if tm.moduleTitle != edit.moduleTitle then [UpdateModule(titled)] else [])
      + (if tm.defaultLanguageGuid != NullGuid && tm.isLocalized != edit.isLocalized
         then (if edit.isLocalized then [LocalizeModule(titled, tm.cultureCode)] else [DeLocalizeModule(titled)])
         else [])
      + (if !TryGetOverride(overrides, tm.tabId) && tm.isTranslated != edit.isTranslated
         then [UpdateModuleTranslationStatus(titled, edit.isTranslated)]
         else [])
  }

  function RowCalls(store: Store, overrides: map<int, bool>, row: seq<ModuleEdit>): (r: seq<StoreCall>)
    decreases |row|
  {
    if row == [] then [] else ModuleEditCalls(store, overrides, row[0]) + RowCalls(store, overrides, row[1..])
  }

  function ModuleCalls(store: Store, overrides: map<int, bool>, rows: seq<seq<ModuleEdit>>): (r: seq<StoreCall>)
    decreases |rows|
  {
    if rows == [] then [] else RowCalls(store, overrides, rows[0]) + ModuleCalls(store, overrides, rows[1..])
  }

  // ---------------------------------------------------------------------
  // Pass 3: page translation status, the publish queue and the overrides.

  /** A module whose version differs from its default-language module's. */
  predicate Stale(m: Module)
  {
    m.defaultLanguageModuleVersion.Some? && m.localizedVersionGuid != m.defaultLanguageModuleVersion.value
  }

  function MarkTranslated(modules: seq<Module>): (r: seq<StoreCall>)
    ensures |r| == |modules|
    ensures forall k :: 0 <= k < |r| ==> r[k] == UpdateModuleTranslationStatus(modules[k], true)
  {
    seq(|modules|, k requires 0 <= k < |modules| => UpdateModuleTranslationStatus(modules[k], true))
  }

  /** The state the third pass carries from page to page; `failure` is the
      `TabId` that `Dictionary.Add` threw on. */
  datatype TranslateState = TranslateState(
    calls: seq<StoreCall>,
    tabsToPublish: seq<Tab>,
    overrides: map<int, bool>,
    failure: Option<int>)

  /** The calls of the third pass for page row `page` on its tab `t`. */
  function TranslateCalls(store: Store, t: Tab, page: PageEdit): (r: seq<StoreCall>)
  {
    if !t.isDefaultLanguage && t.isTranslated != page.isTranslated then
      [UpdateTabTranslationStatus(t, page.isTranslated)]
      + (if page.isTranslated then MarkTranslated(Filter(store.tabModules(t.tabId), Stale)) else [])
    else []
  }

  /** The override recorded for the page: set when its status was just
      changed to translated. */
  function Override(t: Tab, page: PageEdit): (r: bool)
  {
    !t.isDefaultLanguage && t.isTranslated != page.isTranslated && page.isTranslated
  }

  predicate Publishes(t: Tab, page: PageEdit)
  {
    !t.isDefaultLanguage && page.isPublished
  }

  function TranslateStep(store: Store, page: PageEdit, ts: TranslateState): (r: TranslateState)
  {
    match store.getTab(page.tabId)
    case None => ts
    case Some(t) =>
      var calls := ts.calls + TranslateCalls(store, t, page);
      var queue := ts.tabsToPublish + if Publishes(t, page) then [t] else [];
      if page.tabId in ts.overrides then TranslateState(calls, queue, ts.overrides, Some(page.tabId))
      else TranslateState(calls, queue, ts.overrides[page.tabId := Override(t, page)], None)
  }

  /** The third pass; it ends at the first failure, as the exception does. */
  function TranslatePass(store: Store, pages: seq<PageEdit>, ts: TranslateState): (r: TranslateState)
    decreases |pages|
  {
    if pages == [] || ts.failure.Some? then ts
    else TranslatePass(store, pages[1..], TranslateStep(store, pages[0], ts))
  }

  // ---------------------------------------------------------------------
  // Pass 4: publishing.

  function PublishOne(store: Store, t: Tab): (r: seq<StoreCall>)
  {
    MarkTranslated(store.tabModules(t.tabId)) + [UpdateTabTranslationStatus(t, true), PublishTab(t)]
  }

  function PublishCalls(store: Store, tabs: seq<Tab>): (r: seq<StoreCall>)
    decreases |tabs|
  {
    if tabs == [] then [] else PublishOne(store, tabs[0]) + PublishCalls(store, tabs[1..])
  }

  // ---------------------------------------------------------------------
  // Pass 5: the translated status of the pages.

  predicate HasUntranslatedModule(store: Store, t: Tab)
  {
    exists k :: 0 <= k < |store.tabModules(t.tabId)| && !store.tabModules(t.tabId)[k].isTranslated
  }

  /** `status` is `tabTranslatedStatus`, declared once before the loop. */
  function StatusCalls(store: Store, pages: seq<PageEdit>, status: bool): (r: seq<StoreCall>)
    decreases |pages|
  {
    if pages == [] then []
    else
      match store.getTab(pages[0].tabId)
      case None => StatusCalls(store, pages[1..], status)
      case Some(t) =>
        var next := if HasUntranslatedModule(store, t) then false else status;
        (if next && !t.isTranslated then [UpdateTabTranslationStatus(t, true)] else [])
        + StatusCalls(store, pages[1..], next)
  }

  // ---------------------------------------------------------------------
  // The whole save.

  /** The calls made, and the `TabId` the save threw on, if any. */
  datatype SaveOutcome = SaveOutcome(calls: seq<StoreCall>, failure: Option<int>)

  /** The whole save: the third pass starts from the calls of the first
      two, and publishing and the status pass run only when it succeeds. */
  function SaveSpec(stores: Stores, request: SaveRequest): (r: SaveOutcome)
  {
    var prefix := PageCalls(stores.pagePass, request.pages) + ModuleCalls(stores.modulePass, map[], request.modules);
    var translated := TranslatePass(stores.translatePass, request.pages, TranslateState(prefix, [], map[], None));
    if translated.failure.Some? then SaveOutcome(translated.calls, translated.failure)
    else
      SaveOutcome(translated.calls
                  + PublishCalls(stores.publishPass, translated.tabsToPublish)
                  + StatusCalls(stores.statusPass, request.pages, true), None)
  }

  // ---------------------------------------------------------------------
  // Properties of the passes.

  /** Pass 1 writes a tab exactly when a row for it changes its name, title
      or description, and then writes the tab with the row's three values. */
  lemma {:induction false} PageUpdateRule(store: Store, pages: seq<PageEdit>, x: StoreCall)
    ensures x in PageCalls(store, pages) <==>
      exists j :: 0 <= j < |pages| && store.getTab(pages[j].tabId).Some?
                  && PageEdited(store.getTab(pages[j].tabId).value, pages[j])
                  && x == UpdateTab(Edited(store.getTab(pages[j].tabId).value, pages[j]))
    decreases |pages|
  {
    if pages != [] {
      PageUpdateRule(store, pages[1..], x);
      if x in PageCalls(store, pages[1..]) {
        var j :| 0 <= j < |pages[1..]| && store.getTab(pages[1..][j].tabId).Some?
                 && PageEdited(store.getTab(pages[1..][j].tabId).value, pages[1..][j])
                 && x == UpdateTab(Edited(store.getTab(pages[1..][j].tabId).value, pages[1..][j]));
        assert pages[1..][j] == pages[j + 1];
      }
      if exists j :: 0 <= j < |pages| && store.getTab(pages[j].tabId).Some?
                     && PageEdited(store.getTab(pages[j].tabId).value, pages[j])
                     && x == UpdateTab(Edited(store.getTab(pages[j].tabId).value, pages[j])) {
        var j :| 0 <= j < |pages| && store.getTab(pages[j].tabId).Some?
                 && PageEdited(store.getTab(pages[j].tabId).value, pages[j])
                 && x == UpdateTab(Edited(store.getTab(pages[j].tabId).value, pages[j]));
        if j > 0 {
          assert pages[1..][j - 1] == pages[j];
        }
      }
    }
  }

  predicate ModuleUnedited(store: Store, edit: ModuleEdit)
  {
    match store.getTabModule(edit.tabModuleId)
    case None => !edit.copyModule
    case Some(tm) =>
      && tm.moduleTitle == edit.moduleTitle
      && (tm.defaultLanguageGuid == NullGuid || tm.isLocalized == edit.isLocalized)
      && tm.isTranslated == edit.isTranslated
  }

  lemma {:induction false} UneditedRowsNotWritten(store: Store, overrides: map<int, bool>, rows: seq<seq<ModuleEdit>>)
    requires forall r, c :: 0 <= r < |rows| && 0 <= c < |rows[r]| ==> ModuleUnedited(store, rows[r][c])
    ensures ModuleCalls(store, overrides, rows) == []
    decreases |rows|
  {
    if rows != [] {
      UneditedRowNotWritten(store, overrides, rows[0]);
      assert forall r, c :: 0 <= r < |rows[1..]| && 0 <= c < |rows[1..][r]| ==> ModuleUnedited(store, rows[1..][r][c]) by {
        forall r, c | 0 <= r < |rows[1..]| && 0 <= c < |rows[1..][r]| ensures ModuleUnedited(store, rows[1..][r][c]) {
          assert rows[1..][r] == rows[r + 1];
        }
      }
      UneditedRowsNotWritten(store, overrides, rows[1..]);
    }
  }

  lemma {:induction false} UneditedRowNotWritten(store: Store, overrides: map<int, bool>, row: seq<ModuleEdit>)
    requires forall c :: 0 <= c < |row| ==> ModuleUnedited(store, row[c])
    ensures RowCalls(store, overrides, row) == []
    decreases |row|
  {
    if row != [] {
      assert ModuleUnedited(store, row[0]);
      assert forall c :: 0 <= c < |row[1..]| ==> ModuleUnedited(store, row[1..][c]) by {
        forall c | 0 <= c < |row[1..]| ensures ModuleUnedited(store, row[1..][c]) {
          assert row[1..][c] == row[c + 1];
        }
      }
      UneditedRowNotWritten(store, overrides, row[1..]);
    }
  }

  /** A view submitted as it was read makes the first two passes call
      nothing. */
  lemma UneditedViewNotWritten(stores: Stores, request: SaveRequest)
    requires forall j :: 0 <= j < |request.pages| ==>
               match stores.pagePass.getTab(request.pages[j].tabId)
               case None => true
               case Some(t) => !PageEdited(t, request.pages[j])
    requires forall r, c :: 0 <= r < |request.modules| && 0 <= c < |request.modules[r]|
               ==> ModuleUnedited(stores.modulePass, request.modules[r][c])
    ensures PageCalls(stores.pagePass, request.pages) + ModuleCalls(stores.modulePass, map[], request.modules) == []
  {
    UneditedRowsNotWritten(stores.modulePass, map[], request.modules);
    var calls := PageCalls(stores.pagePass, request.pages);
    if calls != [] {
      PageUpdateRule(stores.pagePass, request.pages, calls[0]);
      assert false;
    }
  }

  /** During the module pass the override map is still empty, so a
      module's translation status is written exactly when the row changes
      it; an override set to `true` would suppress the write. */
  lemma OverridesUnusedInModulePass(store: Store, edit: ModuleEdit, overrides: map<int, bool>)
    ensures (exists x :: x in ModuleEditCalls(store, map[], edit) && x.UpdateModuleTranslationStatus?)
            <==> store.getTabModule(edit.tabModuleId).Some?
                 && store.getTabModule(edit.tabModuleId).value.isTranslated != edit.isTranslated
    ensures store.getTabModule(edit.tabModuleId).Some?
            && TryGetOverride(overrides, store.getTabModule(edit.tabModuleId).value.tabId)
            ==> forall x :: x in ModuleEditCalls(store, overrides, edit) ==> !x.UpdateModuleTranslationStatus?
  {
    match store.getTabModule(edit.tabModuleId)
    case None =>
    case Some(tm) =>
      var titled := tm.(moduleTitle := edit.moduleTitle);
      if tm.isTranslated != edit.isTranslated {
        assert UpdateModuleTranslationStatus(titled, edit.isTranslated) in ModuleEditCalls(store, map[], edit);
      }
  }

  /** The page row is for a tab the third pass finds. */
  predicate Present(store: Store, page: PageEdit)
  {
    store.getTab(page.tabId).Some?
  }

  /** Some present row repeats a `TabId` that is already a key of the
      overrides or that an earlier row has. */
  ghost predicate RepeatsTabId(store: Store, pages: seq<PageEdit>, keys: set<int>)
  {
    exists j :: 0 <= j < |pages| && Present(store, pages[j])
                && (pages[j].tabId in keys || exists i :: 0 <= i < j && pages[i].tabId == pages[j].tabId)
  }

  lemma RepeatsSkipAbsent(store: Store, pages: seq<PageEdit>, keys: set<int>)
    requires pages != [] && !Present(store, pages[0])
    ensures RepeatsTabId(store, pages, keys) <==> RepeatsTabId(store, pages[1..], keys)
  {
    var tail := pages[1..];
    if RepeatsTabId(store, pages, keys) {
      var j :| 0 <= j < |pages| && Present(store, pages[j])
               && (pages[j].tabId in keys || exists i :: 0 <= i < j && pages[i].tabId == pages[j].tabId);
      assert j > 0 && tail[j - 1] == pages[j];
      if pages[j].tabId !in keys {
        var i :| 0 <= i < j && pages[i].tabId == pages[j].tabId;
        assert i > 0 && tail[i - 1] == pages[i];
      }
    }
    if RepeatsTabId(store, tail, keys) {
      var j :| 0 <= j < |tail| && Present(store, tail[j])
               && (tail[j].tabId in keys || exists i :: 0 <= i < j && tail[i].tabId == tail[j].tabId);
      assert tail[j] == pages[j + 1];
      if tail[j].tabId !in keys {
        var i :| 0 <= i < j && tail[i].tabId == tail[j].tabId;
        assert tail[i] == pages[i + 1];
      }
    }
  }

  lemma RepeatsAddKey(store: Store, pages: seq<PageEdit>, keys: set<int>)
    requires pages != [] && Present(store, pages[0]) && pages[0].tabId !in keys
    ensures RepeatsTabId(store, pages, keys) <==> RepeatsTabId(store, pages[1..], keys + {pages[0].tabId})
  {
    var tail := pages[1..];
    var keys' := keys + {pages[0].tabId};
    if RepeatsTabId(store, pages, keys) {
      var j :| 0 <= j < |pages| && Present(store, pages[j])
               && (pages[j].tabId in keys || exists i :: 0 <= i < j && pages[i].tabId == pages[j].tabId);
      assert j > 0 && tail[j - 1] == pages[j];
      if pages[j].tabId !in keys {
        var i :| 0 <= i < j && pages[i].tabId == pages[j].tabId;
        if i > 0 {
          assert tail[i - 1] == pages[i];
        }
      }
    }
    if RepeatsTabId(store, tail, keys') {
      var j :| 0 <= j < |tail| && Present(store, tail[j])
               && (tail[j].tabId in keys' || exists i :: 0 <= i < j && tail[i].tabId == tail[j].tabId);
      assert tail[j] == pages[j + 1];
      if tail[j].tabId == pages[0].tabId {
        assert pages[0].tabId == pages[j + 1].tabId;
      } else if tail[j].tabId !in keys' {
        var i :| 0 <= i < j && tail[i].tabId == tail[j].tabId;
        assert tail[i] == pages[i + 1];
      }
    }
  }

  /** `Dictionary.Add` throws exactly when a present row repeats a key. */
  lemma {:induction false} TranslateFailure(store: Store, pages: seq<PageEdit>, ts: TranslateState)
    requires ts.failure.None?
    ensures TranslatePass(store, pages, ts).failure.Some? <==> RepeatsTabId(store, pages, ts.overrides.Keys)
    decreases |pages|
  {
    if pages != [] {
      var next := TranslateStep(store, pages[0], ts);
      if !Present(store, pages[0]) {
        RepeatsSkipAbsent(store, pages, ts.overrides.Keys);
        TranslateFailure(store, pages[1..], next);
      } else if pages[0].tabId in ts.overrides {
        assert Present(store, pages[0]) && pages[0].tabId in ts.overrides.Keys;
      } else {
        assert next.overrides.Keys == ts.overrides.Keys + {pages[0].tabId};
        RepeatsAddKey(store, pages, ts.overrides.Keys);
        TranslateFailure(store, pages[1..], next);
      }
    }
  }

  /** The save throws exactly when two rows that the third pass finds share
      a `TabId`. */
  lemma SaveFailsIffTabIdRepeats(stores: Stores, request: SaveRequest)
    ensures SaveSpec(stores, request).failure.Some? <==>
      exists i, j :: 0 <= i < j < |request.pages| && request.pages[i].tabId == request.pages[j].tabId
                     && Present(stores.translatePass, request.pages[j])
  {
    var prefix := PageCalls(stores.pagePass, request.pages) + ModuleCalls(stores.modulePass, map[], request.modules);
    TranslateFailure(stores.translatePass, request.pages, TranslateState(prefix, [], map[], None));
    var none: map<int, bool> := map[];
    assert none.Keys == {};
  }

  /** The publish queue holds, in row order, the tab of every present row
      that is marked published and whose tab is not in the default language. */
  lemma {:induction false} PublishQueue(store: Store, pages: seq<PageEdit>, ts: TranslateState, t: Tab)
    requires ts.failure.None? && TranslatePass(store, pages, ts).failure.None?
    ensures t in TranslatePass(store, pages, ts).tabsToPublish <==>
      t in ts.tabsToPublish || exists j :: 0 <= j < |pages| && store.getTab(pages[j].tabId) == Some(t) && Publishes(t, pages[j])
    decreases |pages|
  {
    if pages != [] {
      var next := TranslateStep(store, pages[0], ts);
      PublishQueue(store, pages[1..], next, t);
      if exists j :: 0 <= j < |pages[1..]| && store.getTab(pages[1..][j].tabId) == Some(t) && Publishes(t, pages[1..][j]) {
        var j :| 0 <= j < |pages[1..]| && store.getTab(pages[1..][j].tabId) == Some(t) && Publishes(t, pages[1..][j]);
        assert pages[1..][j] == pages[j + 1];
      }
      if exists j :: 0 <= j < |pages| && store.getTab(pages[j].tabId) == Some(t) && Publishes(t, pages[j]) {
        var j :| 0 <= j < |pages| && store.getTab(pages[j].tabId) == Some(t) && Publishes(t, pages[j]);
        if j > 0 {
          assert pages[1..][j - 1] == pages[j];
        }
      }
    }
  }

  /** Each `PublishTab` call comes right after the call marking the same
      tab translated. */
  predicate MarkedBeforePublished(calls: seq<StoreCall>)
  {
    forall k :: 0 <= k < |calls| && calls[k].PublishTab? ==>
      k >= 1 && calls[k - 1] == UpdateTabTranslationStatus(calls[k].tab, true)
  }

  /** Before each `PublishTab` call, every module of that tab has been
      marked translated. */
  predicate ModulesMarkedBeforePublished(store: Store, calls: seq<StoreCall>)
  {
    forall k, m :: 0 <= k < |calls| && calls[k].PublishTab? && m in store.tabModules(calls[k].tab.tabId)
      ==> UpdateModuleTranslationStatus(m, true) in calls[..k]
  }

  /** The publishing loop marks all modules of a tab translated first. */
  lemma {:induction false} PublishMarksModules(store: Store, tabs: seq<Tab>)
    ensures ModulesMarkedBeforePublished(store, PublishCalls(store, tabs))
    decreases |tabs|
  {
    if tabs != [] {
      PublishMarksModules(store, tabs[1..]);
      var modules := store.tabModules(tabs[0].tabId);
      var marks := MarkTranslated(modules);
      var one := PublishOne(store, tabs[0]);
      var rest := PublishCalls(store, tabs[1..]);
      var all := one + rest;
      assert one == marks + [UpdateTabTranslationStatus(tabs[0], true), PublishTab(tabs[0])];
      assert forall k :: 0 <= k < |one| && one[k].PublishTab? ==> k == |one| - 1;
      forall k, m | 0 <= k < |all| && all[k].PublishTab? && m in store.tabModules(all[k].tab.tabId)
        ensures UpdateModuleTranslationStatus(m, true) in all[..k]
      {
        if k < |one| {
          assert all[k] == PublishTab(tabs[0]);
          var i :| 0 <= i < |modules| && modules[i] == m;
          assert all[..k][i] == marks[i];
        } else {
          var k' := k - |one|;
          assert all[k] == rest[k'];
          assert UpdateModuleTranslationStatus(m, true) in rest[..k'];
          assert all[..k] == one + rest[..k'];
        }
      }
      assert PublishCalls(store, tabs) == all;
    }
  }

  /** Every tab of the queue is published, each right after it is marked
      translated and after all its modules are, and nothing else is
      published. */
  lemma {:induction false} PublishOrder(store: Store, tabs: seq<Tab>)
    ensures forall t :: PublishTab(t) in PublishCalls(store, tabs) <==> t in tabs
    ensures MarkedBeforePublished(PublishCalls(store, tabs))
    ensures ModulesMarkedBeforePublished(store, PublishCalls(store, tabs))
    decreases |tabs|
  {
    PublishMarksModules(store, tabs);
    if tabs != [] {
      PublishOrder(store, tabs[1..]);
      var one := PublishOne(store, tabs[0]);
      var rest := PublishCalls(store, tabs[1..]);
      var marks := MarkTranslated(store.tabModules(tabs[0].tabId));
      assert one == marks + [UpdateTabTranslationStatus(tabs[0], true), PublishTab(tabs[0])];
      assert |one| == |marks| + 2;
      assert forall k :: 0 <= k < |one| && one[k].PublishTab? ==> k == |one| - 1;
      forall t ensures PublishTab(t) in one + rest <==> t in tabs {
        assert PublishTab(t) in one <==> t == tabs[0];
      }
      var all := one + rest;
      forall k | 0 <= k < |all| && all[k].PublishTab?
        ensures k >= 1 && all[k - 1] == UpdateTabTranslationStatus(all[k].tab, true)
      {
        if k < |one| {
          assert k == |one| - 1;
          assert all[k] == PublishTab(tabs[0]);
          assert all[k - 1] == one[|one| - 2] == UpdateTabTranslationStatus(tabs[0], true);
        } else {
          var k' := k - |one|;
          assert all[k] == rest[k'];
          assert MarkedBeforePublished(rest);
          assert all[k - 1] == rest[k' - 1];
        }
      }
      assert PublishCalls(store, tabs) == all;
    }
  }

  /** A present row's tab has no untranslated module. */
  predicate Clean(store: Store, page: PageEdit)
  {
    match store.getTab(page.tabId)
    case None => true
    case Some(t) => !HasUntranslatedModule(store, t)
  }

  /** Once `tabTranslatedStatus` is false the status pass calls nothing. */
  lemma {:induction false} StatusOffCallsNothing(store: Store, pages: seq<PageEdit>)
    ensures StatusCalls(store, pages, false) == []
    decreases |pages|
  {
    if pages != [] {
      StatusOffCallsNothing(store, pages[1..]);
    }
  }

  /** The flag is never reset: from the first present row whose tab has an
      untranslated module on, the status pass calls nothing more. */
  lemma {:induction false} StatusFlagSticky(store: Store, pages: seq<PageEdit>, status: bool, k: nat)
    requires k < |pages| && !Clean(store, pages[k])
    ensures StatusCalls(store, pages, status) == StatusCalls(store, pages[..k], status)
    decreases k
  {
    if k == 0 {
      StatusOffCallsNothing(store, pages[1..]);
    } else {
      assert pages[..k][1..] == pages[1..][..k - 1];
      match store.getTab(pages[0].tabId)
      case None =>
        StatusFlagSticky(store, pages[1..], status, k - 1);
      case Some(t) =>
        StatusFlagSticky(store, pages[1..], if HasUntranslatedModule(store, t) then false else status, k - 1);
    }
  }

  /** The status pass marks tab `x` translated exactly when some present
      row is for `x`, `x` is not translated yet, and no present row up to
      and including it has a tab with an untranslated module. */
  lemma {:induction false} StatusCallsExactly(store: Store, pages: seq<PageEdit>, status: bool, x: StoreCall)
    ensures x in StatusCalls(store, pages, status) <==>
      status && x.UpdateTabTranslationStatus? && x.translated &&
      exists j :: 0 <= j < |pages| && store.getTab(pages[j].tabId) == Some(x.tab) && !x.tab.isTranslated
                  && forall i :: 0 <= i <= j ==> Clean(store, pages[i])
    decreases |pages|
  {
    if pages != [] {
      var tail := pages[1..];
      var next := match store.getTab(pages[0].tabId)
                  case None => status
                  case Some(t) => if HasUntranslatedModule(store, t) then false else status;
      StatusCallsExactly(store, tail, next, x);
      if x in StatusCalls(store, pages, status) {
        if x !in StatusCalls(store, tail, next) {
          assert Clean(store, pages[0]);
          assert forall i :: 0 <= i <= 0 ==> Clean(store, pages[i]);
        } else {
          var j :| 0 <= j < |tail| && store.getTab(tail[j].tabId) == Some(x.tab) && !x.tab.isTranslated
                   && forall i :: 0 <= i <= j ==> Clean(store, tail[i]);
          assert tail[j] == pages[j + 1];
          assert status by {
            if !status { StatusOffCallsNothing(store, tail); }
          }
          assert Clean(store, pages[0]) by {
            if !Clean(store, pages[0]) { StatusOffCallsNothing(store, tail); }
          }
          forall i | 0 <= i <= j + 1 ensures Clean(store, pages[i]) {
            if i > 0 {
              assert pages[i] == tail[i - 1];
            }
          }
        }
      }
      if status && x.UpdateTabTranslationStatus? && x.translated &&
         exists j :: 0 <= j < |pages| && store.getTab(pages[j].tabId) == Some(x.tab) && !x.tab.isTranslated
                     && forall i :: 0 <= i <= j ==> Clean(store, pages[i]) {
        var j :| 0 <= j < |pages| && store.getTab(pages[j].tabId) == Some(x.tab) && !x.tab.isTranslated
                 && forall i :: 0 <= i <= j ==> Clean(store, pages[i]);
        assert Clean(store, pages[0]);
        if j > 0 {
          assert tail[j - 1] == pages[j];
          forall i | 0 <= i <= j - 1 ensures Clean(store, tail[i]) {
            assert tail[i] == pages[i + 1];
          }
        }
      }
    }
  }

  /** Submitting a published page of another language exactly as it was
      read is not a no-op. Here the stored tab is a localized page (it links
      to default-language page 2) that is untranslated and carries one
      untranslated localized module; the view sends both back unchanged, yet the
      save marks the module and the tab translated, flipping both stored
      flags, and publishes the tab again. */
  lemma UnchangedPublishedPageIsRepublished()
    ensures var t := Tab(1, NullInteger, 1, 2, Code("fr-FR"), "Accueil", "Accueil", "", "//Accueil",
                         0, false, false, false);
      var m := Module(10, 20, 1, 30, 3, Code("fr-FR"), "Texte", false, false, false, 40, Some(41),
                      1, 2, "Accueil");
      var store := Store((id: int) => if id == 1 then Some(t) else None,
                         (id: int) => if id == 10 then Some(m) else None,
                         (id: int) => if id == 1 then [m] else []);
      var page := PageEdit(1, "Accueil", "Accueil", "", false, true);
      var slot := ModuleEdit(10, "Texte", false, false, false);
      SaveSpec(Stores(store, store, store, store, store), SaveRequest([page], [[slot]]))
        == SaveOutcome([UpdateModuleTranslationStatus(m, true), UpdateTabTranslationStatus(t, true), PublishTab(t)], None)
  {
    var t := Tab(1, NullInteger, 1, 2, Code("fr-FR"), "Accueil", "Accueil", "", "//Accueil",
                 0, false, false, false);
    var m := Module(10, 20, 1, 30, 3, Code("fr-FR"), "Texte", false, false, false, 40, Some(41),
                    1, 2, "Accueil");
    var store := Store((id: int) => if id == 1 then Some(t) else None,
                       (id: int) => if id == 10 then Some(m) else None,
                       (id: int) => if id == 1 then [m] else []);
    var page := PageEdit(1, "Accueil", "Accueil", "", false, true);
    var slot := ModuleEdit(10, "Texte", false, false, false);
    assert PageCalls(store, [page]) == [];
    assert ModuleEditCalls(store, map[], slot) == [];
    assert [slot][1..] == [];
    assert RowCalls(store, map[], [slot]) == [];
    assert [[slot]][1..] == [];
    assert ModuleCalls(store, map[], [[slot]]) == [];
    var translated := TranslatePass(store, [page], TranslateState([], [], map[], None));
    assert TranslateStep(store, page, TranslateState([], [], map[], None)) == TranslateState([], [t], map[1 := false], None);
    assert [page][1..] == [];
    assert translated == TranslatePass(store, [], TranslateState([], [t], map[1 := false], None));
    assert MarkTranslated([m]) == [UpdateModuleTranslationStatus(m, true)];
    assert PublishCalls(store, [t]) == [UpdateModuleTranslationStatus(m, true), UpdateTabTranslationStatus(t, true), PublishTab(t)];
    assert !store.tabModules(1)[0].isTranslated;
    assert HasUntranslatedModule(store, t);
    assert StatusCalls(store, [page], true) == [];
  }

  // ---------------------------------------------------------------------
  // The save as the controller runs it, one method per loop.

  lemma PageCallsAt(store: Store, pages: seq<PageEdit>, i: nat)
    requires i < |pages|
    ensures PageCalls(store, pages[i..]) == PageCall(store, pages[i]) + PageCalls(store, pages[i + 1..])
  {
    assert pages[i..][1..] == pages[i + 1..];
  }

  method SavePages(store: Store, pages: seq<PageEdit>, log: seq<StoreCall>) returns (out: seq<StoreCall>)
    ensures out == log + PageCalls(store, pages)
  {
    out := log;
    var i := 0;
    while i < |pages|
      invariant 0 <= i <= |pages|
      invariant out + PageCalls(store, pages[i..]) == log + PageCalls(store, pages)
    {
      var page := pages[i];
      PageCallsAt(store, pages, i);
      ghost var before := out;
      var tabInfo := store.getTab(page.tabId);
      if tabInfo.Some? &&
         (tabInfo.value.tabName != page.tabName ||
          tabInfo.value.title != page.title ||
          tabInfo.value.description != page.description)
      {
        var edited := tabInfo.value.(tabName := page.tabName, title := page.title, description := page.description);
        out := out + [UpdateTab(edited)];
      }
      assert out == before + PageCall(store, page);
      LogStep(before, PageCall(store, page), PageCalls(store, pages[i + 1..]), PageCalls(store, pages[i..]));
      i := i + 1;
    }
  }

  method SaveModule(store: Store, overrides: map<int, bool>, moduleDto: ModuleEdit, log: seq<StoreCall>) returns (out: seq<StoreCall>)
    ensures out == log + ModuleEditCalls(store, overrides, moduleDto)
  {
    out := log;
    var tabModule := store.getTabModule(moduleDto.tabModuleId);
    if tabModule.Some? {
      var tm := tabModule.value;
      ghost var titled := tm.(moduleTitle := moduleDto.moduleTitle);
      if tm.moduleTitle != moduleDto.moduleTitle {
        tm := tm.(moduleTitle := moduleDto.moduleTitle);
        out := out + [UpdateModule(tm)];
      }
      assert tm == titled;
      if tm.defaultLanguageGuid != NullGuid && tm.isLocalized != moduleDto.isLocalized {
        var locale := tm.cultureCode;
        if moduleDto.isLocalized {
          out := out + [LocalizeModule(tm, locale)];
        } else {
          out := out + [DeLocalizeModule(tm)];
        }
      }
      var moduleTranslateOverride := TryGetOverride(overrides, tm.tabId);
      if !moduleTranslateOverride && tm.isTranslated != moduleDto.isTranslated {
        out := out + [UpdateModuleTranslationStatus(tm, moduleDto.isTranslated)];
      }
    } else if moduleDto.copyModule {
      out := out + [CopyModule(moduleDto)];
    }
  }

  /** Appending one step's calls to the log leaves the rest of the work
      unchanged. */
  lemma LogStep(before: seq<StoreCall>, step: seq<StoreCall>, rest: seq<StoreCall>, whole: seq<StoreCall>)
    requires whole == step + rest
    ensures (before + step) + rest == before + whole
  {
  }

  lemma RowCallsAt(store: Store, overrides: map<int, bool>, row: seq<ModuleEdit>, c: nat)
    requires c < |row|
    ensures RowCalls(store, overrides, row[c..]) == ModuleEditCalls(store, overrides, row[c]) + RowCalls(store, overrides, row[c + 1..])
  {
    assert row[c..][1..] == row[c + 1..];
  }

  lemma ModuleCallsAt(store: Store, overrides: map<int, bool>, rows: seq<seq<ModuleEdit>>, r: nat)
    requires r < |rows|
    ensures ModuleCalls(store, overrides, rows[r..]) == RowCalls(store, overrides, rows[r]) + ModuleCalls(store, overrides, rows[r + 1..])
  {
    assert rows[r..][1..] == rows[r + 1..];
  }

  method SaveRow(store: Store, overrides: map<int, bool>, row: seq<ModuleEdit>, log: seq<StoreCall>)
    returns (out: seq<StoreCall>)
    ensures out == log + RowCalls(store, overrides, row)
  {
    out := log;
    var c := 0;
    while c < |row|
      invariant 0 <= c <= |row|
      invariant out + RowCalls(store, overrides, row[c..]) == log + RowCalls(store, overrides, row)
    {
      RowCallsAt(store, overrides, row, c);
      ghost var before := out;
      out := SaveModule(store, overrides, row[c], out);
      LogStep(before, ModuleEditCalls(store, overrides, row[c]), RowCalls(store, overrides, row[c + 1..]), RowCalls(store, overrides, row[c..]));
      c := c + 1;
    }
  }

  method SaveModules(store: Store, overrides: map<int, bool>, rows: seq<seq<ModuleEdit>>, log: seq<StoreCall>)
    returns (out: seq<StoreCall>)
    ensures out == log + ModuleCalls(store, overrides, rows)
  {
    out := log;
    var r := 0;
    while r < |rows|
      invariant 0 <= r <= |rows|
      invariant out + ModuleCalls(store, overrides, rows[r..]) == log + ModuleCalls(store, overrides, rows)
    {
      ModuleCallsAt(store, overrides, rows, r);
      ghost var before := out;
      out := SaveRow(store, overrides, rows[r], out);
      LogStep(before, RowCalls(store, overrides, rows[r]), ModuleCalls(store, overrides, rows[r + 1..]), ModuleCalls(store, overrides, rows[r..]));
      r := r + 1;
    }
  }

  method MarkModulesTranslated(modules: seq<Module>, log: seq<StoreCall>) returns (out: seq<StoreCall>)
    ensures out == log + MarkTranslated(modules)
  {
    out := log;
    var k := 0;
    while k < |modules|
      invariant 0 <= k <= |modules|
      invariant out == log + MarkTranslated(modules[..k])
    {
      assert modules[..k + 1] == modules[..k] + [modules[k]];
      out := out + [UpdateModuleTranslationStatus(modules[k], true)];
      k := k + 1;
    }
    assert modules[..k] == modules;
  }

  /** The body of the third loop for a row whose tab `t` was found, up to
      the `Dictionary.Add`. */
  method TranslatePage(store: Store, t: Tab, page: PageEdit, log: seq<StoreCall>, queue: seq<Tab>)
    returns (out: seq<StoreCall>, tabsToPublish: seq<Tab>, moduleTranslateOverride: bool)
    ensures out == log + TranslateCalls(store, t, page)
    ensures tabsToPublish == queue + if Publishes(t, page) then [t] else []
    ensures moduleTranslateOverride == Override(t, page)
  {
    out := log;
    tabsToPublish := queue;
    moduleTranslateOverride := false;
    if !t.isDefaultLanguage {
      if t.isTranslated != page.isTranslated {
        out := out + [UpdateTabTranslationStatus(t, page.isTranslated)];
        if page.isTranslated {
          moduleTranslateOverride := true;
          out := MarkModulesTranslated(Filter(store.tabModules(t.tabId), Stale), out);
        }
      }
      if page.isPublished {
        tabsToPublish := tabsToPublish + [t];
      }
    }
  }

  lemma TranslatePassAt(store: Store, pages: seq<PageEdit>, i: nat, ts: TranslateState)
    requires i < |pages| && ts.failure.None?
    ensures TranslatePass(store, pages[i..], ts) == TranslatePass(store, pages[i + 1..], TranslateStep(store, pages[i], ts))
  {
    assert pages[i..][1..] == pages[i + 1..];
  }

  method SaveTranslation(store: Store, pages: seq<PageEdit>, log: seq<StoreCall>) returns (ts: TranslateState)
    ensures ts == TranslatePass(store, pages, TranslateState(log, [], map[], None))
  {
    var out := log;
    var tabsToPublish: seq<Tab> := [];
    var moduleTranslateOverrides: map<int, bool> := map[];
    var i := 0;
    while i < |pages|
      invariant 0 <= i <= |pages|
      invariant TranslatePass(store, pages, TranslateState(log, [], map[], None))
             == TranslatePass(store, pages[i..], TranslateState(out, tabsToPublish, moduleTranslateOverrides, None))
    {
      var page := pages[i];
      TranslatePassAt(store, pages, i, TranslateState(out, tabsToPublish, moduleTranslateOverrides, None));
      var tabInfo := store.getTab(page.tabId);
      if tabInfo.Some? {
        var moduleTranslateOverride;
        out, tabsToPublish, moduleTranslateOverride := TranslatePage(store, tabInfo.value, page, out, tabsToPublish);
        if page.tabId in moduleTranslateOverrides {
          return TranslateState(out, tabsToPublish, moduleTranslateOverrides, Some(page.tabId));
        }
        moduleTranslateOverrides := moduleTranslateOverrides[page.tabId := moduleTranslateOverride];
      }
      i := i + 1;
    }
    return TranslateState(out, tabsToPublish, moduleTranslateOverrides, None);
  }

  method PublishTabs(store: Store, tabsToPublish: seq<Tab>, log: seq<StoreCall>) returns (out: seq<StoreCall>)
    ensures out == log + PublishCalls(store, tabsToPublish)
  {
    out := log;
    var j := 0;
    while j < |tabsToPublish|
      invariant 0 <= j <= |tabsToPublish|
      invariant out + PublishCalls(store, tabsToPublish[j..]) == log + PublishCalls(store, tabsToPublish)
    {
      assert tabsToPublish[j..][1..] == tabsToPublish[j + 1..];
      var tabInfo := tabsToPublish[j];
      out := MarkModulesTranslated(store.tabModules(tabInfo.tabId), out);
      out := out + [UpdateTabTranslationStatus(tabInfo, true)];
      out := out + [PublishTab(tabInfo)];
      j := j + 1;
    }
  }

  method SaveTranslatedStatus(store: Store, pages: seq<PageEdit>, log: seq<StoreCall>) returns (out: seq<StoreCall>)
    ensures out == log + StatusCalls(store, pages, true)
  {
    out := log;
    var tabTranslatedStatus := true;
    var i := 0;
    while i < |pages|
      invariant 0 <= i <= |pages|
      invariant out + StatusCalls(store, pages[i..], tabTranslatedStatus) == log + StatusCalls(store, pages, true)
    {
      assert pages[i..][1..] == pages[i + 1..];
      var tabInfo := store.getTab(pages[i].tabId);
      if tabInfo.Some? {
        if HasUntranslatedModule(store, tabInfo.value) {
          tabTranslatedStatus := false;
        }
        if tabTranslatedStatus && !tabInfo.value.isTranslated {
          out := out + [UpdateTabTranslationStatus(tabInfo.value, true)];
        }
      }
      i := i + 1;
    }
  }

  /** `SaveNonLocalizedPages(pages)`: the calls it makes, in order, and the
      `TabId` it throws on. */
  method SaveNonLocalizedPages(stores: Stores, request: SaveRequest) returns (log: seq<StoreCall>, failure: Option<int>)
    ensures SaveOutcome(log, failure) == SaveSpec(stores, request)
  {
    log := SavePages(stores.pagePass, request.pages, []);
    assert log == PageCalls(stores.pagePass, request.pages);
    var moduleTranslateOverrides: map<int, bool> := map[];
    log := SaveModules(stores.modulePass, moduleTranslateOverrides, request.modules, log);
    var translated := SaveTranslation(stores.translatePass, request.pages, log);
    log := translated.calls;
    failure := translated.failure;
    if failure.Some? {
      return;
    }
    log := PublishTabs(stores.publishPass, translated.tabsToPublish, log);
    log := SaveTranslatedStatus(stores.statusPass, request.pages, log);
  }
}
