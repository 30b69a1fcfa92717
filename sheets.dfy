/**
 * The tab lookup shared by `get_sheet_data` and `get_target_sheet_gid` in
 * helper.py: a case-insensitive search of the spreadsheet's tab list for a
 * title. The metadata request itself is not modelled; the tab list it returns
 * is an input.
 */
module Sheets {
  import opened Wrappers
  import opened Text

  /** The `properties` of one tab in the spreadsheet metadata; either key may be absent. */
  datatype Tab = Tab(title: Option<string>, sheetId: Option<int>)

  /** The `ValueError` both searches raise, naming the title that was asked for. */
  datatype SheetError = NotFound(query: string)

  /** The text of the error: "Sheet titled '<query>' not found." */
  function ErrorMessage(e: SheetError): string {
    "Sheet titled '" + e.query + "' not found."
  }

  /** `properties.get('title', '')`. */
  function TitleOf(tab: Tab): string {
    match tab.title
    case None => ""
    case Some(t) => t
  }

  /** `title.lower() == sheet_title.lower()`. */
  predicate TitleMatches(tab: Tab, query: string) {
    Lower(TitleOf(tab)) == Lower(query)
  }

  /** The position of the first tab, in list order, whose title matches the query
      ignoring case; None when no tab matches. */
  function FirstTab(tabs: seq<Tab>, query: string): (k: Option<nat>)
    ensures k.Some? ==> k.value < |tabs| && TitleMatches(tabs[k.value], query)
    ensures k.Some? ==> forall j :: 0 <= j < k.value ==> !TitleMatches(tabs[j], query)
    ensures k.None? ==> forall j :: 0 <= j < |tabs| ==> !TitleMatches(tabs[j], query)
  {
    if tabs == [] then None
    else if TitleMatches(tabs[0], query) then Some(0)
    else match FirstTab(tabs[1..], query)
      case None => None
      case Some(k) => Some(k + 1)
  }

  /** The search of `get_sheet_data` (helper.py:36-45): the title of the first
      matching tab. As written, the test after the loop is `if not target_sheet`,
      so a matching tab whose title is empty is reported as not found too. */
  method FindSheetTitle(tabs: seq<Tab>, query: string) returns (r: Result<string, SheetError>)
    ensures FirstTab(tabs, query).None? ==> r == Failure(NotFound(query))
    ensures FirstTab(tabs, query).Some? ==>
      var title := TitleOf(tabs[FirstTab(tabs, query).value]);
      r == if title == "" then Failure(NotFound(query)) else Success(title)
  {
    var target: Option<string> := None;
    var i := 0;
    while i < |tabs|
      invariant i <= |tabs|
      invariant target.None?
      invariant forall j :: 0 <= j < i ==> !TitleMatches(tabs[j], query)
    {
      var title := TitleOf(tabs[i]);
      if Lower(title) == Lower(query) {
        target := Some(title);
        break;
      }
      i := i + 1;
    }
    if target.None? || target.value == "" {
      return Failure(NotFound(query));
    }
    return Success(target.value);
  }

  /** The search of `get_target_sheet_gid` (helper.py:140-145): the `sheetId` of the
      first matching tab, which may itself be absent (None). */
  method FindSheetId(tabs: seq<Tab>, query: string) returns (r: Result<Option<int>, SheetError>)
    ensures FirstTab(tabs, query).None? ==> r == Failure(NotFound(query))
    ensures FirstTab(tabs, query).Some? ==> r == Success(tabs[FirstTab(tabs, query).value].sheetId)
  {
    for i := 0 to |tabs|
      invariant forall j :: 0 <= j < i ==> !TitleMatches(tabs[j], query)
    {
      if Lower(TitleOf(tabs[i])) == Lower(query) {
        return Success(tabs[i].sheetId);
      }
    }
    return Failure(NotFound(query));
  }

  /** The search ignores case: queries that agree after lower-casing find the same tab. */
  lemma FirstTabIgnoresCase(tabs: seq<Tab>, a: string, b: string)
    requires Lower(a) == Lower(b)
    ensures FirstTab(tabs, a) == FirstTab(tabs, b)
  {
  }

  /** Earlier tabs win: tabs appended after a match never change the result. */
  lemma {:induction false} FirstTabKeepsEarlier(tabs: seq<Tab>, more: seq<Tab>, query: string)
    requires FirstTab(tabs, query).Some?
    ensures FirstTab(tabs + more, query) == FirstTab(tabs, query)
  {
    assert (tabs + more)[0] == tabs[0];
    if !TitleMatches(tabs[0], query) {
      assert (tabs + more)[1..] == tabs[1..] + more;
      FirstTabKeepsEarlier(tabs[1..], more, query);
    }
  }

  /** The error text names the query it could not find. */
  lemma ErrorNamesQuery(query: string)
    ensures var m := ErrorMessage(NotFound(query));
      |m| == |query| + 26 && m[14..14 + |query|] == query
  {
  }
}
